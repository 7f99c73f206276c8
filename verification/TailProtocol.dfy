/**
 The live tail of a run log as a protocol: append-only server logs, requests and replies in flight in any
 order, and the run panel of apps/dashboard/src/pages/Work.tsx, which shows one run at a time and keeps its
 held lines and its cursor for it.
 */
module TailProtocol {
  import opened Options
  import opened RunLog
  import opened StableMerge
  import opened LogPositions

  /** The first load, an interval poll, and a manual refresh; they treat their reply differently. */
  datatype Kind = Load | Poll | Refresh

  /**
   A request in flight: the panel showed `run` for the `epoch`-th time of showing any when it was sent.
   `reply` is the body the server computed, once it did.
   */
  datatype Request = Request(kind: Kind, epoch: nat, run: string, since: Option<int>, reply: Option<seq<Line>>)

  /** Epoch 0 is before the panel shows its first run. */
  datatype State = State(
    logs: map<string, seq<Line>>,
    run: string, epoch: nat, held: Option<seq<Line>>, cursor: Option<int>,
    inflight: map<nat, Request>)

  datatype Event =
    | Append(run: string, line: Line)
    | Switch(run: string, id: nat)
    | Send(id: nat, kind: Kind)
    | Serve(id: nat)
    | Deliver(id: nat)
    | Lose(id: nat)

  const INIT := State(map[], "", 0, None, None, map[])

  function LogOf(s: State, run: string): seq<Line> {
    if run in s.logs then s.logs[run] else []
  }

  /** The log of the run on show. */
  function Shown(s: State): seq<Line> {
    LogOf(s, s.run)
  }

  function HeldLines(s: State): seq<Line> {
    LinesOf(s.held)
  }

  function Advance(cursor: Option<int>, reply: seq<Line>): Option<int> {
    if LatestNum(reply).Some? then LatestNum(reply) else cursor
  }

  ghost predicate Enabled(s: State, e: Event) {
    match e
    case Append(run, line) =>
      var log := LogOf(s, run);
      line.num >= 1 && (log != [] ==> line.num > log[|log| - 1].num)
    case Switch(run, id) => id !in s.inflight && (s.epoch == 0 || run != s.run)
    case Send(id, kind) => id !in s.inflight && kind != Load && s.epoch > 0
    case Serve(id) => id in s.inflight && s.inflight[id].reply == None
    case Deliver(id) => id in s.inflight && s.inflight[id].reply.Some?
    case Lose(id) => id in s.inflight
  }

  /**
   The panel's reaction to a reply. Only a load is dropped when it is late; a poll or a refresh is merged
   into whatever is held by then.
   */
  function OnReply(s: State, r: Request, reply: seq<Line>): State {
    match r.kind
    case Load => if r.epoch != s.epoch then s else s.(held := Some(reply), cursor := LatestNum(reply))
    case Poll =>
      if reply == [] then s
      else s.(held := Some(Received(s.held, reply)), cursor := Advance(s.cursor, reply))
    case Refresh => s.(held := Some(Received(s.held, reply)), cursor := Advance(s.cursor, reply))
  }

  function Apply(s: State, e: Event): State
    requires Enabled(s, e)
  {
    match e
    case Append(run, line) => s.(logs := s.logs[run := LogOf(s, run) + [line]])
    case Switch(run, id) =>
      s.(run := run, epoch := s.epoch + 1, held := None, cursor := None,
         inflight := s.inflight[id := Request(Load, s.epoch + 1, run, None, None)])
    case Send(id, kind) => s.(inflight := s.inflight[id := Request(kind, s.epoch, s.run, s.cursor, None)])
    case Serve(id) =>
      var r := s.inflight[id];
      s.(inflight := s.inflight[id := r.(reply := Some(ReplyTo(LogOf(s, r.run), r.since)))])
    case Deliver(id) =>
      var r := s.inflight[id];
      OnReply(s.(inflight := s.inflight - {id}), r, r.reply.value)
    case Lose(id) => s.(inflight := s.inflight - {id})
  }

  // ---- The invariant ----

  /** The panel holds what one full fetch of the run on show would have given at some earlier moment. */
  ghost predicate HoldsPrefix(s: State) {
    HeldLines(s) <= Shown(s)
  }

  /** A request whose reply, if any, is a part of its own run's log that starts where its cursor ends. */
  ghost predicate GoodRequest(log: seq<Line>, r: Request) {
    var u := Upto(log, r.since);
    && GoodCursor(log, r.since)
    && (r.kind == Load ==> r.since == None)
    && (r.reply.Some? ==> u + |r.reply.value| <= |log| && r.reply.value == log[u..u + |r.reply.value|])
  }

  /** A request for the run on show that asks for nothing beyond the lines held. */
  ghost predicate Fits(log: seq<Line>, run: string, h: nat, r: Request) {
    r.run == run && (Upto(log, r.since) <= h || r.reply == Some([]))
  }

  ghost predicate GoodLogs(s: State) {
    forall run | run in s.logs :: GoodLog(s.logs[run])
  }

  ghost predicate GoodRequests(s: State) {
    forall id | id in s.inflight ::
      s.inflight[id].epoch <= s.epoch && GoodRequest(LogOf(s, s.inflight[id].run), s.inflight[id])
  }

  ghost predicate CurrentFit(s: State) {
    forall id | id in s.inflight && s.inflight[id].epoch == s.epoch ::
      Fits(Shown(s), s.run, |HeldLines(s)|, s.inflight[id])
  }

  ghost predicate CursorCovered(s: State) {
    GoodCursor(Shown(s), s.cursor) && Upto(Shown(s), s.cursor) <= |HeldLines(s)|
  }

  ghost predicate Inv(s: State) {
    GoodLogs(s) && HoldsPrefix(s) && CursorCovered(s) && GoodRequests(s) && CurrentFit(s)
  }

  /**
   A load about to be delivered overtakes a poll of its own showing: some poll in flight was sent with a
   cursor beyond the load's last line and did not come back empty.
   */
  ghost predicate Overtakes(s: State, id: nat)
    requires Enabled(s, Deliver(id))
  {
    && s.inflight[id].kind == Load && s.inflight[id].epoch == s.epoch
    && exists q | q in s.inflight && q != id ::
      && s.inflight[q].epoch == s.epoch
      && Upto(Shown(s), s.inflight[q].since) > |s.inflight[id].reply.value|
      && s.inflight[q].reply != Some([])
  }

  /** A poll or refresh that outlived the showing it was sent for, with lines that do not continue what is held. */
  ghost predicate Strays(s: State, id: nat)
    requires Enabled(s, Deliver(id))
  {
    && s.inflight[id].kind != Load && s.inflight[id].epoch != s.epoch
    && !Continues(Shown(s), s.held, s.inflight[id].reply.value)
  }

  ghost predicate Safe(s: State, e: Event)
    requires Enabled(s, e)
  {
    e.Deliver? ==> !Overtakes(s, e.id) && !Strays(s, e.id)
  }

  lemma InitInv()
    ensures Inv(INIT)
  {
  }

  lemma ShownGood(s: State, run: string)
    requires GoodLogs(s)
    ensures GoodLog(LogOf(s, run))
  {
  }

  lemma RequestAfterAppend(log: seq<Line>, line: Line, r: Request)
    requires GoodRequest(log, r) && (log != [] ==> line.num > log[|log| - 1].num)
    ensures GoodRequest(log + [line], r) && Upto(log + [line], r.since) == Upto(log, r.since)
  {
    UptoAppend(log, line, r.since);
    if r.reply.Some? {
      var u, n := Upto(log, r.since), |r.reply.value|;
      assert (log + [line])[u..u + n] == log[u..u + n];
    }
  }

  lemma RequestsAfterAppend(s: State, run: string, line: Line, id: nat)
    requires Enabled(s, Append(run, line)) && id in s.inflight
    requires GoodRequest(LogOf(s, s.inflight[id].run), s.inflight[id])
    ensures var s', r := Apply(s, Append(run, line)), s.inflight[id];
            && GoodRequest(LogOf(s', r.run), r)
            && Upto(LogOf(s', r.run), r.since) == Upto(LogOf(s, r.run), r.since)
  {
    if s.inflight[id].run == run {
      RequestAfterAppend(LogOf(s, run), line, s.inflight[id]);
    }
  }

  lemma AppendKeepsInv(s: State, run: string, line: Line)
    requires Inv(s) && Enabled(s, Append(run, line))
    ensures Inv(Apply(s, Append(run, line)))
  {
    var s' := Apply(s, Append(run, line));
    ShownGood(s, run);
    assert GoodLogs(s');
    if run == s.run {
      UptoAppend(Shown(s), line, s.cursor);
    }
    assert HoldsPrefix(s') && CursorCovered(s');
    forall id | id in s'.inflight
      ensures GoodRequest(LogOf(s', s'.inflight[id].run), s'.inflight[id])
      ensures s'.inflight[id].epoch == s'.epoch ==> Fits(Shown(s'), s'.run, |HeldLines(s')|, s'.inflight[id])
    {
      RequestsAfterAppend(s, run, line, id);
    }
  }

  /** Showing another run starts over: nothing held, no cursor, and only the new load belongs to it. */
  lemma SwitchKeepsInv(s: State, run: string, id: nat)
    requires Inv(s) && Enabled(s, Switch(run, id))
    ensures Inv(Apply(s, Switch(run, id)))
  {
    var s' := Apply(s, Switch(run, id));
    forall q | q in s'.inflight && q != id
      ensures s'.inflight[q].epoch < s'.epoch && GoodRequest(LogOf(s', s'.inflight[q].run), s'.inflight[q])
    {
      assert s'.inflight[q] == s.inflight[q];
    }
  }

  /** A request served now: the rest of its log. */
  lemma ServedIsGood(log: seq<Line>, r: Request)
    requires GoodLog(log) && GoodRequest(log, r)
    ensures GoodRequest(log, r.(reply := Some(ReplyTo(log, r.since))))
  {
    ReplyIsSuffix(log, r.since);
    var u := Upto(log, r.since);
    assert u + |log[u..]| == |log|;
  }

  lemma ServeKeepsInv(s: State, id: nat)
    requires Inv(s) && Enabled(s, Serve(id))
    ensures Inv(Apply(s, Serve(id)))
  {
    var r, s' := s.inflight[id], Apply(s, Serve(id));
    ShownGood(s, r.run);
    ServedIsGood(LogOf(s, r.run), r);
    assert GoodLogs(s') && HoldsPrefix(s') && CursorCovered(s');
    forall q | q in s'.inflight
      ensures GoodRequest(LogOf(s', s'.inflight[q].run), s'.inflight[q])
      ensures s'.inflight[q].epoch == s'.epoch ==> Fits(Shown(s'), s'.run, |HeldLines(s')|, s'.inflight[q])
    {
      assert s.inflight[q].epoch == s.epoch ==> Fits(Shown(s), s.run, |HeldLines(s)|, s.inflight[q]);
    }
  }

  /** A poll or refresh of the current showing always continues what is held. */
  lemma CurrentTailContinues(s: State, id: nat)
    requires Inv(s) && Enabled(s, Deliver(id)) && s.inflight[id].epoch == s.epoch
    ensures Continues(Shown(s), s.held, s.inflight[id].reply.value)
  {
    var r := s.inflight[id];
    ShownGood(s, s.run);
    assert GoodRequest(Shown(s), r) && Fits(Shown(s), s.run, |HeldLines(s)|, r);
    OwnReplyContinuesExactly(Shown(s), s.held, r);
  }

  lemma ReplyAscending(s: State, id: nat)
    requires Inv(s) && Enabled(s, Deliver(id))
    ensures Ascending(Num, s.inflight[id].reply.value)
  {
    var r := s.inflight[id];
    ShownGood(s, r.run);
  }

  /** A later, longer holding serves the same requests. */
  lemma RequestsStay(s: State, s': State, id: nat)
    requires GoodRequests(s) && CurrentFit(s)
    requires s'.logs == s.logs && s'.run == s.run && s'.epoch == s.epoch && s'.inflight == s.inflight - {id}
    requires |HeldLines(s)| <= |HeldLines(s')|
    ensures GoodRequests(s') && CurrentFit(s')
  {
    forall q | q in s'.inflight
      ensures GoodRequest(LogOf(s', s'.inflight[q].run), s'.inflight[q])
      ensures s'.inflight[q].epoch == s'.epoch ==> Fits(Shown(s'), s'.run, |HeldLines(s')|, s'.inflight[q])
    {
      assert s'.inflight[q] == s.inflight[q];
    }
  }

  /** Merging a continuing reply extends the held prefix and leaves the new cursor covered. */
  lemma ContinuingReceived(log: seq<Line>, held: Option<seq<Line>>, cursor: Option<int>, reply: seq<Line>)
    requires GoodLog(log) && Ascending(Num, reply) && Continues(log, held, reply)
    requires GoodCursor(log, cursor) && Upto(log, cursor) <= |LinesOf(held)|
    ensures var xs, c := Received(held, reply), Advance(cursor, reply);
            LinesOf(held) <= xs <= log && GoodCursor(log, c) && Upto(log, c) <= |xs|
  {
    ReceivedPrefixExactly(log, held, reply);
    ContinuingCursor(log, held, reply);
    assert LinesOf(held) == log[..|LinesOf(held)|];
  }

  /** A poll or refresh that continues what is held never shortens it. */
  lemma DeliverTailKeepsInv(s: State, id: nat)
    requires Inv(s) && Enabled(s, Deliver(id)) && s.inflight[id].kind != Load && !Strays(s, id)
    ensures Inv(Apply(s, Deliver(id)))
    ensures HeldLines(s) <= HeldLines(Apply(s, Deliver(id)))
  {
    var s', reply := Apply(s, Deliver(id)), s.inflight[id].reply.value;
    ShownGood(s, s.run);
    ReplyAscending(s, id);
    if s.inflight[id].epoch == s.epoch {
      CurrentTailContinues(s, id);
    }
    ContinuingReceived(Shown(s), s.held, s.cursor, reply);
    RequestsStay(s, s', id);
  }

  lemma LoadedCursor(log: seq<Line>, reply: seq<Line>)
    requires GoodLog(log) && |reply| <= |log| && reply == log[0..|reply|]
    ensures GoodCursor(log, LatestNum(reply)) && Upto(log, LatestNum(reply)) <= |reply|
  {
    if reply != [] {
      LatestCovers(log, 0, |reply|);
    }
  }

  lemma DeliverLoadKeepsInv(s: State, id: nat)
    requires Inv(s) && Enabled(s, Deliver(id)) && s.inflight[id].kind == Load && !Overtakes(s, id)
    ensures Inv(Apply(s, Deliver(id)))
  {
    var s', r := Apply(s, Deliver(id)), s.inflight[id];
    if r.epoch != s.epoch {
      RequestsStay(s, s', id);
    } else {
      assert GoodRequest(Shown(s), r) && r.run == s.run;
      ShownGood(s, s.run);
      LoadedCursor(Shown(s), r.reply.value);
      forall q | q in s'.inflight
        ensures GoodRequest(LogOf(s', s'.inflight[q].run), s'.inflight[q])
        ensures s'.inflight[q].epoch == s'.epoch ==> Fits(Shown(s'), s'.run, |HeldLines(s')|, s'.inflight[q])
      {
        assert s'.inflight[q] == s.inflight[q] && q != id;
      }
    }
  }

  /** Every safe step, in any order, keeps the invariant. */
  lemma StepKeepsInv(s: State, e: Event)
    requires Inv(s) && Enabled(s, e) && Safe(s, e)
    ensures Inv(Apply(s, e))
  {
    match e
    case Append(run, line) => AppendKeepsInv(s, run, line);
    case Switch(run, id) => SwitchKeepsInv(s, run, id);
    case Send(id, kind) =>
    case Serve(id) => ServeKeepsInv(s, id);
    case Deliver(id) =>
      if s.inflight[id].kind == Load {
        DeliverLoadKeepsInv(s, id);
      } else {
        DeliverTailKeepsInv(s, id);
      }
    case Lose(id) => RequestsStay(s, Apply(s, e), id);
  }

  // ---- Runs ----

  ghost predicate SafeRun(s: State, es: seq<Event>)
    decreases |es|
  {
    es != [] ==> Enabled(s, es[0]) && Safe(s, es[0]) && SafeRun(Apply(s, es[0]), es[1..])
  }

  ghost function EndState(s: State, es: seq<Event>): State
    requires SafeRun(s, es)
    decreases |es|
  {
    if es == [] then s else EndState(Apply(s, es[0]), es[1..])
  }

  /** From a good state every safe run leads to good states. */
  lemma {:induction false} RunsKeepInv(s: State, es: seq<Event>)
    requires Inv(s) && SafeRun(s, es)
    ensures Inv(EndState(s, es))
    decreases |es|
  {
    if es != [] {
      StepKeepsInv(s, es[0]);
      RunsKeepInv(Apply(s, es[0]), es[1..]);
    }
  }

  /** In every safe run from the start the panel holds a gap-free prefix of the log of the run on show. */
  lemma RunsHoldPrefix(es: seq<Event>)
    requires SafeRun(INIT, es)
    ensures HoldsPrefix(EndState(INIT, es))
  {
    InitInv();
    RunsKeepInv(INIT, es);
  }

  /** Receiving everything from a covered position on gives the whole log; so does holding it already. */
  lemma RestCompletes(log: seq<Line>, held: Option<seq<Line>>, u: nat)
    requires GoodLog(log) && u <= |LinesOf(held)| && LinesOf(held) <= log
    ensures Received(held, log[u..]) == log
    ensures log[u..] == [] ==> LinesOf(held) == log
  {
    assert log[..|log|] == log && log[u..|log|] == log[u..];
    if held.Some? {
      assert held.value == log[..|held.value|];
      MergeExtends(log, |held.value|, u, |log|);
    }
  }

  /** An undisturbed poll catches up: afterwards the panel holds the whole log. */
  lemma PollCatchesUp(s: State, id: nat, kind: Kind)
    requires Inv(s) && Enabled(s, Send(id, kind))
    ensures var s1 := Apply(s, Send(id, kind));
            var s2 := Apply(s1, Serve(id));
            HeldLines(Apply(s2, Deliver(id))) == Shown(s)
  {
    var s2 := Apply(Apply(s, Send(id, kind)), Serve(id));
    ShownGood(s, s.run);
    ReplyIsSuffix(Shown(s), s.cursor);
    var u := Upto(Shown(s), s.cursor);
    assert s2.inflight[id] == Request(kind, s.epoch, s.run, s.cursor, Some(Shown(s)[u..]));
    RestCompletes(Shown(s), s.held, u);
  }

  /** And the cursor has moved with it: the next poll of the unchanged log is empty. */
  lemma NextPollIsEmpty(s: State, id: nat, kind: Kind)
    requires Inv(s) && Enabled(s, Send(id, kind))
    ensures var s1 := Apply(s, Send(id, kind));
            var s2 := Apply(s1, Serve(id));
            ReplyTo(Shown(s), Apply(s2, Deliver(id)).cursor) == []
  {
    var s2 := Apply(Apply(s, Send(id, kind)), Serve(id));
    ShownGood(s, s.run);
    var r := Request(kind, s.epoch, s.run, s.cursor, Some(ReplyTo(Shown(s), s.cursor)));
    assert s2.inflight[id] == r && s2.cursor == s.cursor;
    NothingBeyondLast(Shown(s), s.cursor);
  }

  lemma NothingBeyondLast(log: seq<Line>, cursor: Option<int>)
    requires GoodLog(log) && GoodCursor(log, cursor)
    ensures ReplyTo(log, Advance(cursor, ReplyTo(log, cursor))) == []
  {
    var u := Upto(log, cursor);
    ReplyIsSuffix(log, cursor);
    if u < |log| {
      assert log[u..] == log[u..|log|];
      LatestCovers(log, u, |log|);
      ReplyIsSuffix(log, Some(log[|log| - 1].num));
      assert log[|log|..] == [];
    } else {
      assert log[u..] == [];
    }
  }

  // ---- When a delivery does harm ----

  ghost predicate GapFollows(s: State, es: seq<Event>) {
    SafeRun(s, es) && !HoldsPrefix(EndState(s, es))
  }

  /** A reply from beyond the held prefix leaves a gap when it is delivered. */
  lemma LateTailLeavesGap(s: State, q: nat)
    requires GoodLog(Shown(s)) && HoldsPrefix(s) && Enabled(s, Deliver(q))
    requires s.inflight[q].kind != Load && s.inflight[q].reply != Some([])
    requires GoodRequest(Shown(s), s.inflight[q])
    requires Upto(Shown(s), s.inflight[q].since) > |HeldLines(s)|
    ensures !HoldsPrefix(Apply(s, Deliver(q)))
  {
    OwnReplyContinuesExactly(Shown(s), s.held, s.inflight[q]);
    ReceivedPrefixExactly(Shown(s), s.held, s.inflight[q].reply.value);
  }

  /** The poll's reply after the log has grown by a line. */
  lemma ServedAfterAppend(s: State, q: nat, line: Line)
    requires GoodLog(Shown(s)) && HoldsPrefix(s) && Enabled(s, Serve(q)) && s.inflight[q].run == s.run
    requires GoodCursor(Shown(s), s.inflight[q].since) && Enabled(s, Append(s.run, line))
    requires Upto(Shown(s), s.inflight[q].since) > |HeldLines(s)|
    requires s.inflight[q].kind == Load ==> s.inflight[q].since == None
    ensures var s1 := Apply(s, Append(s.run, line));
            var s2 := Apply(s1, Serve(q));
            && GoodLog(Shown(s2)) && HoldsPrefix(s2) && GoodRequest(Shown(s2), s2.inflight[q])
            && Upto(Shown(s2), s2.inflight[q].since) > |HeldLines(s2)|
            && s2.inflight[q].reply.Some? && s2.inflight[q].reply != Some([])
  {
    var r, log := s.inflight[q], Shown(s);
    var s1 := Apply(s, Append(s.run, line));
    assert Shown(s1) == log + [line];
    UptoAppend(log, line, r.since);
    ServedIsGood(log + [line], r.(reply := None));
    ReplyIsSuffix(log + [line], r.since);
    assert |(log + [line])[Upto(log, r.since)..]| > 0;
  }

  /** An unserved poll from beyond the held prefix leaves a gap once the log grows and it is answered. */
  lemma UnservedTailLeavesGap(s: State, q: nat, line: Line)
    requires GoodLog(Shown(s)) && HoldsPrefix(s) && Enabled(s, Serve(q)) && s.inflight[q].kind != Load
    requires Enabled(s, Append(s.run, line))
    requires s.inflight[q].epoch == s.epoch && s.inflight[q].run == s.run
    requires GoodCursor(Shown(s), s.inflight[q].since)
    requires Upto(Shown(s), s.inflight[q].since) > |HeldLines(s)|
    ensures GapFollows(s, [Append(s.run, line), Serve(q), Deliver(q)])
  {
    ServedAfterAppend(s, q, line);
    LateTailLeavesGap(Apply(Apply(s, Append(s.run, line)), Serve(q)), q);
    RunThree(s, Append(s.run, line), Serve(q), Deliver(q));
  }

  /** A poll of the current showing is in flight from beyond what is held, and did not come back empty. */
  ghost predicate Ahead(s: State, q: nat) {
    && GoodLog(Shown(s)) && HoldsPrefix(s)
    && q in s.inflight && s.inflight[q].kind != Load
    && s.inflight[q].epoch == s.epoch && s.inflight[q].run == s.run
    && s.inflight[q].reply != Some([]) && GoodRequest(Shown(s), s.inflight[q])
    && Upto(Shown(s), s.inflight[q].since) > |HeldLines(s)|
  }

  lemma OvertakerIsPrefix(s: State, id: nat)
    requires Inv(s) && Enabled(s, Deliver(id)) && s.inflight[id].kind == Load && s.inflight[id].epoch == s.epoch
    ensures s.inflight[id].reply.value <= Shown(s)
  {
    assert Fits(Shown(s), s.run, |HeldLines(s)|, s.inflight[id]) && GoodRequest(Shown(s), s.inflight[id]);
  }

  lemma AfterOvertaking(s: State, id: nat) returns (q: nat)
    requires Inv(s) && Enabled(s, Deliver(id)) && Overtakes(s, id)
    ensures Ahead(Apply(s, Deliver(id)), q)
  {
    var m := s.inflight[id].reply.value;
    ShownGood(s, s.run);
    OvertakerIsPrefix(s, id);
    q :| q in s.inflight && q != id && s.inflight[q].epoch == s.epoch &&
      Upto(Shown(s), s.inflight[q].since) > |m| && s.inflight[q].reply != Some([]);
    assert Fits(Shown(s), s.run, |HeldLines(s)|, s.inflight[q]) && GoodRequest(Shown(s), s.inflight[q]);
    assert Apply(s, Deliver(id)).inflight[q] == s.inflight[q];
  }

  /** What to wait for: the poll's reply, or, if it is not served yet, another line and then its reply. */
  function GapRun(s: State, q: nat, line: Line): seq<Event>
    requires q in s.inflight
  {
    if s.inflight[q].reply.Some? then [Deliver(q)] else [Append(s.run, line), Serve(q), Deliver(q)]
  }

  lemma AheadLeavesGap(s: State, q: nat, line: Line)
    requires Ahead(s, q) && Enabled(s, Append(s.run, line))
    ensures GapFollows(s, GapRun(s, q, line))
  {
    if s.inflight[q].reply.Some? {
      LateTailLeavesGap(s, q);
      RunOne(s, Deliver(q));
    } else {
      UnservedTailLeavesGap(s, q, line);
    }
  }

  /** A line that may be written next. */
  function NextLine(log: seq<Line>): Line {
    Line(if log == [] then 1 else log[|log| - 1].num + 1, "stdout", "", false)
  }

  lemma AheadHasGap(s: State, q: nat)
    requires Ahead(s, q)
    ensures exists es :: GapFollows(s, es)
  {
    var line := NextLine(Shown(s));
    assert Enabled(s, Append(s.run, line));
    AheadLeavesGap(s, q, line);
  }

  lemma RunOne(s: State, e: Event)
    requires Enabled(s, e) && Safe(s, e)
    ensures SafeRun(s, [e]) && EndState(s, [e]) == Apply(s, e)
  {
    assert [e][1..] == [];
    assert SafeRun(Apply(s, e), []);
  }

  lemma RunThree(s: State, e1: Event, e2: Event, e3: Event)
    requires Enabled(s, e1) && Safe(s, e1)
    requires var s1 := Apply(s, e1); Enabled(s1, e2) && Safe(s1, e2)
    requires var s2 := Apply(Apply(s, e1), e2); Enabled(s2, e3) && Safe(s2, e3)
    ensures SafeRun(s, [e1, e2, e3])
    ensures EndState(s, [e1, e2, e3]) == Apply(Apply(Apply(s, e1), e2), e3)
  {
    RunOne(Apply(Apply(s, e1), e2), e3);
    assert [e1, e2, e3][1..] == [e2, e3] && [e2, e3][1..] == [e3];
    assert SafeRun(Apply(s, e1), [e2, e3]);
  }

  /**
   Exactly when delivering a load is harmless: no run that follows leaves a gap if and only if the load
   overtakes no poll of its own showing. A load of an earlier showing is always harmless.
   */
  lemma LoadIsSafeExactly(s: State, id: nat)
    requires Inv(s) && Enabled(s, Deliver(id)) && s.inflight[id].kind == Load
    ensures (forall es :: !GapFollows(Apply(s, Deliver(id)), es)) <==> !Overtakes(s, id)
  {
    var s' := Apply(s, Deliver(id));
    if Overtakes(s, id) {
      var q := AfterOvertaking(s, id);
      AheadHasGap(s', q);
    } else {
      DeliverLoadKeepsInv(s, id);
      GoodStateHasNoGap(s');
    }
  }

  lemma GoodStateHasNoGap(s: State)
    requires Inv(s)
    ensures forall es :: !GapFollows(s, es)
  {
    forall es ensures !GapFollows(s, es) {
      if SafeRun(s, es) {
        RunsKeepInv(s, es);
      }
    }
  }

  /** A tail whose new lines do not continue the held ones breaks the prefix at once. */
  lemma TailBreaksPrefix(s: State, id: nat)
    requires Inv(s) && Enabled(s, Deliver(id)) && s.inflight[id].kind != Load
    requires !Continues(Shown(s), s.held, s.inflight[id].reply.value)
    ensures !HoldsPrefix(Apply(s, Deliver(id)))
  {
    var reply := s.inflight[id].reply.value;
    ShownGood(s, s.run);
    ReplyAscending(s, id);
    ReceivedPrefixExactly(Shown(s), s.held, reply);
    assert NewLines(s.held, []) == [];
  }

  /**
   Exactly when delivering a poll or a refresh is harmless, whatever showing it was sent for: its new lines
   continue the held ones in the log of the run on show.
   */
  lemma TailIsSafeExactly(s: State, id: nat)
    requires Inv(s) && Enabled(s, Deliver(id)) && s.inflight[id].kind != Load
    ensures (forall es :: !GapFollows(Apply(s, Deliver(id)), es)) <==>
              Continues(Shown(s), s.held, s.inflight[id].reply.value)
  {
    var s' := Apply(s, Deliver(id));
    if Continues(Shown(s), s.held, s.inflight[id].reply.value) {
      DeliverTailKeepsInv(s, id);
      GoodStateHasNoGap(s');
    } else {
      TailBreaksPrefix(s, id);
      assert EndState(s', []) == s';
      assert GapFollows(s', []);
    }
  }

  /**
   A poll or refresh for the run on show, from this showing or an earlier one: harmless exactly when it is
   empty or its cursor is not beyond the lines held.
   */
  lemma OwnTailIsSafeExactly(s: State, id: nat)
    requires Inv(s) && Enabled(s, Deliver(id)) && s.inflight[id].kind != Load && s.inflight[id].run == s.run
    ensures (forall es :: !GapFollows(Apply(s, Deliver(id)), es)) <==>
              s.inflight[id].reply == Some([]) || Upto(Shown(s), s.inflight[id].since) <= |HeldLines(s)|
  {
    TailIsSafeExactly(s, id);
    ShownGood(s, s.run);
    OwnReplyContinuesExactly(Shown(s), s.held, s.inflight[id]);
  }

  lemma OwnReplyContinuesExactly(log: seq<Line>, held: Option<seq<Line>>, r: Request)
    requires GoodLog(log) && LinesOf(held) <= log && GoodRequest(log, r) && r.reply.Some?
    ensures Continues(log, held, r.reply.value) <==>
              r.reply == Some([]) || Upto(log, r.since) <= |LinesOf(held)|
  {
    var u := Upto(log, r.since);
    SliceContinuesExactly(log, held, u, u + |r.reply.value|);
  }

  /** A poll or refresh that shares no line with the run on show: harmless exactly when every number in it is held. */
  lemma OtherTailIsSafeExactly(s: State, id: nat)
    requires Inv(s) && Enabled(s, Deliver(id)) && s.inflight[id].kind != Load
    requires forall z | z in s.inflight[id].reply.value :: z !in Shown(s)
    ensures (forall es :: !GapFollows(Apply(s, Deliver(id)), es)) <==>
              NumsHeld(s.held, s.inflight[id].reply.value)
  {
    TailIsSafeExactly(s, id);
    ForeignContinuesExactly(Shown(s), s.held, s.inflight[id].reply.value);
  }

  // ---- The two failures, reached from the start ----

  /** Line 1 arrived by a poll; the load of the same showing, served before it was written, is still on its way. */
  function LateLoad(run: string, l1: Line): State {
    State(map[run := [l1]], run, 1, Some([l1]), Some(1),
          map[0 := Request(Load, 1, run, None, Some([])), 2 := Request(Poll, 1, run, Some(1), None)])
  }

  /** The state is reached from the start. */
  lemma LateLoadIsReached(run: string, l1: Line)
    requires l1.num == 1
    ensures var s1 := Apply(Apply(INIT, Switch(run, 0)), Serve(0));
            var s2 := Apply(Apply(Apply(s1, Append(run, l1)), Send(1, Poll)), Serve(1));
            Apply(Apply(s2, Deliver(1)), Send(2, Poll)) == LateLoad(run, l1)
  {
    var s1 := Apply(Apply(INIT, Switch(run, 0)), Serve(0));
    assert s1 == State(map[], run, 1, None, None, map[0 := Request(Load, 1, run, None, Some([]))]);
    var s2 := Apply(Apply(Apply(s1, Append(run, l1)), Send(1, Poll)), Serve(1));
    assert Shown(s2) == [l1];
    assert s2.inflight == s1.inflight[1 := Request(Poll, 1, run, None, Some([l1]))];
    assert s2.inflight - {1} == s1.inflight;
  }

  /** From there, delivering the load and then the poll loses line 1 behind line 2 for good. */
  lemma LateLoadLosesLine(run: string, l1: Line, l2: Line)
    requires l1.num == 1 && l2.num == 2
    ensures var s4 := Apply(Apply(LateLoad(run, l1), Append(run, l2)), Serve(2));
            var s5 := Apply(Apply(s4, Deliver(0)), Deliver(2));
            Shown(s5) == [l1, l2] && HeldLines(s5) == [l2] && !HoldsPrefix(s5)
  {
    var s4 := Apply(Apply(LateLoad(run, l1), Append(run, l2)), Serve(2));
    assert Shown(s4) == [l1, l2];
    AfterIsSuffix([l1, l2], 1, 1);
    assert s4.inflight[2].reply == Some([l2]);
    var s4' := Apply(s4, Deliver(0));
    assert s4'.held == Some([]) && s4'.inflight[2].reply == Some([l2]);
    MergeAppends([], [l2]);
    var s5 := Apply(s4', Deliver(2));
    assert Shown(s5)[0] == l1 && HeldLines(s5)[0] == l2;
  }

  lemma MergeAppends(xs: seq<Line>, ys: seq<Line>)
    requires GoodLog(xs + ys)
    ensures MergedLines(xs, ys) == xs + ys
  {
    var log := xs + ys;
    MergeExtends(log, |xs|, |xs|, |log|);
    assert log[..|xs|] == xs && log[|xs|..|log|] == ys && log[..|log|] == log;
  }

  /** Run `b` is on show with its line 1; a reply with line 2 of run `a`, shown before, is still on its way. */
  function StaleTail(a: string, b: string, a1: Line, a2: Line, b1: Line): State {
    State(map[a := [a1, a2], b := [b1]], b, 2, Some([b1]), Some(1),
          map[1 := Request(Poll, 1, a, Some(1), Some([a2]))])
  }

  /** Before the switch: run `a` is on show with its line 1, and the poll for line 2 is served. */
  function Polled(a: string, a1: Line, a2: Line): State {
    State(map[a := [a1, a2]], a, 1, Some([a1]), Some(1), map[1 := Request(Poll, 1, a, Some(1), Some([a2]))])
  }

  /** Run `a` is on show with its line 1. */
  function Loaded(a: string, a1: Line): State {
    State(map[a := [a1]], a, 1, Some([a1]), Some(1), map[])
  }

  lemma LoadedIsReached(a: string, a1: Line)
    requires a1.num == 1
    ensures Apply(Apply(Apply(Apply(INIT, Append(a, a1)), Switch(a, 0)), Serve(0)), Deliver(0)) == Loaded(a, a1)
  {
    var s := Apply(Apply(Apply(INIT, Append(a, a1)), Switch(a, 0)), Serve(0));
    assert Shown(s) == [a1];
    assert s.inflight == map[0 := Request(Load, 1, a, None, Some([a1]))];
  }

  lemma PolledIsReached(a: string, a1: Line, a2: Line)
    requires a1.num == 1 && a2.num == 2
    ensures Apply(Apply(Apply(Loaded(a, a1), Append(a, a2)), Send(1, Poll)), Serve(1)) == Polled(a, a1, a2)
  {
    var s := Apply(Apply(Loaded(a, a1), Append(a, a2)), Send(1, Poll));
    assert Shown(s) == [a1, a2];
    assert s.logs == map[a := [a1, a2]];
    AfterIsSuffix([a1, a2], 1, 1);
  }

  /** Switching to run `b` and loading it leads on to the late reply. */
  lemma StaleTailIsReached(a: string, b: string, a1: Line, a2: Line, b1: Line)
    requires a != b && b1.num == 1
    ensures var s3 := Apply(Apply(Apply(Polled(a, a1, a2), Append(b, b1)), Switch(b, 2)), Serve(2));
            Apply(s3, Deliver(2)) == StaleTail(a, b, a1, a2, b1)
  {
    var poll := Request(Poll, 1, a, Some(1), Some([a2]));
    var s3 := Apply(Apply(Apply(Polled(a, a1, a2), Append(b, b1)), Switch(b, 2)), Serve(2));
    assert Shown(s3) == [b1];
    assert s3.inflight == map[1 := poll, 2 := Request(Load, 2, b, None, Some([b1]))];
    assert s3.inflight - {2} == map[1 := poll];
  }

  /** Delivered there, the late reply puts line 2 of run `a` under run `b`, and the cursor moves with it. */
  lemma StaleTailStrays(a: string, b: string, a1: Line, a2: Line, b1: Line)
    requires a != b && b1.num == 1 && a2.num == 2
    ensures Apply(StaleTail(a, b, a1, a2, b1), Deliver(1)) ==
              State(map[a := [a1, a2], b := [b1]], b, 2, Some([b1, a2]), Some(2), map[])
  {
    MergeAppends([b1], [a2]);
    assert [b1] + [a2] == [b1, a2];
    assert StaleTail(a, b, a1, a2, b1).inflight - {1} == map[];
  }

  /** Once there, line 2 of the run on show is never fetched. */
  lemma StaleTailMixesRuns(s: State, a2: Line, b1: Line, b2: Line, b3: Line)
    requires s.epoch > 0 && Shown(s) == [b1] && s.inflight == map[]
    requires s.held == Some([b1, a2]) && s.cursor == Some(2)
    requires b1.num == 1 && a2.num == b2.num == 2 && b3.num == 3
    ensures var s2 := Apply(Apply(s, Append(s.run, b2)), Append(s.run, b3));
            var s3 := Apply(Apply(Apply(s2, Send(3, Poll)), Serve(3)), Deliver(3));
            Shown(s3) == [b1, b2, b3] && HeldLines(s3) == [b1, a2, b3]
  {
    MergeAppends([b1, a2], [b3]);
    assert [b1, a2] + [b3] == [b1, a2, b3];
    var s2 := Apply(Apply(s, Append(s.run, b2)), Append(s.run, b3));
    assert Shown(s2) == [b1, b2, b3];
    AfterIsSuffix([b1, b2, b3], 2, 2);
    assert [b1, b2, b3][2..] == [b3];
    var s2' := Apply(Apply(s2, Send(3, Poll)), Serve(3));
    assert s2'.inflight[3].reply == Some([b3]);
  }
}
