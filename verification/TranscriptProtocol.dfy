/**
 The live tail of a run's event transcript, the other tail of the run panel of
 apps/dashboard/src/pages/Work.tsx: the kernel numbers the events of all runs with one counter, and the cursor
 is an event id. Reading events as numbered lines turns every step of this protocol into the same step of the
 log tail, so what TailProtocol.dfy proves carries over.
 */
module TranscriptProtocol {
  import opened Options
  import opened RunEvents
  import opened RunLog
  import opened StableMerge
  import opened LogPositions
  import opened TranscriptLines
  import Tail = TailProtocol

  datatype Request = Request(
    load: bool, epoch: nat, run: string, since: Option<string>, reply: Option<seq<ReluxEvent>>)

  /** `kernel` holds the events of all runs in the order in which they were recorded. */
  datatype State = State(
    kernel: seq<Entry>,
    run: string, epoch: nat, held: Option<seq<ReluxEvent>>, cursor: Option<string>,
    inflight: map<nat, Request>)

  datatype Event =
    | Emit(run: string, body: string)
    | Switch(run: string, id: nat)
    | Poll(id: nat)
    | Serve(id: nat)
    | Deliver(id: nat)
    | Lose(id: nat)

  const INIT := State([], "", 0, None, None, map[])

  // ---- The panel ----

  function Advance(cursor: Option<string>, reply: seq<ReluxEvent>): Option<string> {
    if LatestId(reply).Some? then LatestId(reply) else cursor
  }

  predicate Enabled(s: State, e: Event) {
    match e
    case Emit(run, body) => true
    case Switch(run, id) => id !in s.inflight && (s.epoch == 0 || run != s.run)
    case Poll(id) => id !in s.inflight && s.epoch > 0
    case Serve(id) => id in s.inflight && s.inflight[id].reply == None
    case Deliver(id) => id in s.inflight && s.inflight[id].reply.Some?
    case Lose(id) => id in s.inflight
  }

  /** A late load is dropped and an empty tail ignored; any other tail is merged into whatever is held by then. */
  function OnReply(s: State, r: Request, reply: seq<ReluxEvent>): State {
    if r.load then
      if r.epoch != s.epoch then s else s.(held := Some(reply), cursor := LatestId(reply))
    else if reply == [] then s
    else s.(held := Some(ReluxMerged(EventsOf(s.held), reply)), cursor := Advance(s.cursor, reply))
  }

  function Apply(s: State, e: Event): State
    requires Enabled(s, e)
  {
    match e
    case Emit(run, body) => s.(kernel := s.kernel + [Entry(run, NextEvent(s.kernel, body))])
    case Switch(run, id) =>
      s.(run := run, epoch := s.epoch + 1, held := None, cursor := None,
         inflight := s.inflight[id := Request(true, s.epoch + 1, run, None, None)])
    case Poll(id) => s.(inflight := s.inflight[id := Request(false, s.epoch, s.run, s.cursor, None)])
    case Serve(id) =>
      var r := s.inflight[id];
      s.(inflight := s.inflight[id := r.(reply := Some(ReplyFor(s.kernel, r.run, r.since)))])
    case Deliver(id) =>
      var r := s.inflight[id];
      OnReply(s.(inflight := s.inflight - {id}), r, r.reply.value)
    case Lose(id) => s.(inflight := s.inflight - {id})
  }

  // ---- Every step is a step of the log tail ----

  function Runs(kernel: seq<Entry>): set<string> {
    set i | 0 <= i < |kernel| :: kernel[i].run
  }

  function Logs(kernel: seq<Entry>): map<string, seq<Line>> {
    map run | run in Runs(kernel) :: Lines(Transcript(kernel, run))
  }

  function RequestIn(r: Request): Tail.Request {
    Tail.Request(if r.load then Tail.Load else Tail.Poll, r.epoch, r.run, NumOf(r.since), LinesIn(r.reply))
  }

  function Requests(inflight: map<nat, Request>): map<nat, Tail.Request> {
    map id | id in inflight :: RequestIn(inflight[id])
  }

  /** The state as the log tail sees it. */
  function Seen(s: State): Tail.State {
    Tail.State(Logs(s.kernel), s.run, s.epoch, LinesIn(s.held), NumOf(s.cursor), Requests(s.inflight))
  }

  function SeenEvent(s: State, e: Event): Tail.Event {
    match e
    case Emit(run, body) => Tail.Append(run, LineOf(NextEvent(s.kernel, body)))
    case Switch(run, id) => Tail.Switch(run, id)
    case Poll(id) => Tail.Send(id, Tail.Poll)
    case Serve(id) => Tail.Serve(id)
    case Deliver(id) => Tail.Deliver(id)
    case Lose(id) => Tail.Lose(id)
  }

  ghost predicate GoodRequest(r: Request) {
    && (r.since.Some? ==> IsMinted(r.since.value))
    && (r.reply.Some? ==> AllMinted(r.reply.value) && GoodLog(Lines(r.reply.value)))
  }

  /** Everything in sight was minted by the kernel, and replies come in order. */
  ghost predicate Good(s: State) {
    && GoodKernel(s.kernel)
    && AllMinted(EventsOf(s.held))
    && (s.cursor.Some? ==> IsMinted(s.cursor.value))
    && forall id | id in s.inflight :: GoodRequest(s.inflight[id])
  }

  lemma {:induction false} NoEntries(kernel: seq<Entry>, run: string)
    requires run !in Runs(kernel)
    ensures Transcript(kernel, run) == []
  {
    if kernel != [] {
      var n := |kernel| - 1;
      assert kernel[n].run in Runs(kernel);
      assert forall i | 0 <= i < n :: kernel[..n][i].run in Runs(kernel);
      NoEntries(kernel[..n], run);
    }
  }

  lemma SeenLog(s: State, run: string)
    ensures Tail.LogOf(Seen(s), run) == Lines(Transcript(s.kernel, run))
  {
    if run !in Runs(s.kernel) {
      NoEntries(s.kernel, run);
    }
  }

  lemma RunsAppend(kernel: seq<Entry>, x: Entry)
    ensures Runs(kernel + [x]) == Runs(kernel) + {x.run}
  {
    var now := kernel + [x];
    forall run ensures run in Runs(now) <==> run in Runs(kernel) || run == x.run {
      if i :| 0 <= i < |now| && now[i].run == run {
        assert i < |kernel| ==> kernel[i].run == run;
      }
      if i :| 0 <= i < |kernel| && kernel[i].run == run {
        assert now[i].run == run;
      }
      assert now[|kernel|] == x;
    }
  }

  lemma LogsAppend(s: State, x: Entry)
    ensures Logs(s.kernel + [x]) == Logs(s.kernel)[x.run := Tail.LogOf(Seen(s), x.run) + [LineOf(x.event)]]
  {
    var now := s.kernel + [x];
    RunsAppend(s.kernel, x);
    SeenLog(s, x.run);
    forall run | run in Runs(now)
      ensures Lines(Transcript(now, run)) ==
              Lines(Transcript(s.kernel, run)) + if run == x.run then [LineOf(x.event)] else []
    {
      TranscriptAppend(s.kernel, x, run);
    }
    LogsFrom(now, Logs(s.kernel), x.run, Tail.LogOf(Seen(s), x.run) + [LineOf(x.event)]);
  }

  lemma TranscriptAppend(kernel: seq<Entry>, x: Entry, run: string)
    ensures Lines(Transcript(kernel + [x], run)) ==
            Lines(Transcript(kernel, run)) + if run == x.run then [LineOf(x.event)] else []
  {
    assert (kernel + [x])[..|kernel|] == kernel;
    LinesConcat(Transcript(kernel, run), if run == x.run then [x.event] else []);
    assert Lines([x.event]) == [LineOf(x.event)];
  }

  lemma LogsFrom(now: seq<Entry>, logs: map<string, seq<Line>>, run: string, log: seq<Line>)
    requires Runs(now) == logs.Keys + {run}
    requires forall r | r in Runs(now) :: Lines(Transcript(now, r)) == if r == run then log else logs[r]
    ensures Logs(now) == logs[run := log]
  {
  }

  /** The next event's number is beyond those of its run. */
  lemma EmitEnabled(s: State, run: string, body: string)
    requires Good(s)
    ensures Tail.Enabled(Seen(s), Tail.Append(run, LineOf(NextEvent(s.kernel, body))))
    ensures LineOf(NextEvent(s.kernel, body)).num == |s.kernel| + 1
  {
    MintedIsMinted(|s.kernel| + 1);
    SeenLog(s, run);
    TranscriptFacts(s.kernel, run);
    LastNumber(s.kernel, run, Transcript(s.kernel, run));
  }

  lemma LastNumber(kernel: seq<Entry>, run: string, es: seq<ReluxEvent>)
    requires FromRun(kernel, run, es)
    ensures es != [] ==> Lines(es)[|es| - 1].num <= |kernel|
  {
    assert es != [] ==> Lines(es)[|es| - 1] == LineOf(es[|es| - 1]);
  }

  lemma EmitKeepsGood(s: State, run: string, body: string)
    requires Good(s)
    ensures Good(Apply(s, Emit(run, body)))
  {
    var s' := Apply(s, Emit(run, body));
    assert GoodKernel(s'.kernel) by {
      forall i | 0 <= i < |s'.kernel| ensures s'.kernel[i].event.id == MintId(i + 1) {
        assert i < |s.kernel| ==> s'.kernel[i] == s.kernel[i];
      }
    }
  }

  lemma EmitSimulates(s: State, run: string, body: string)
    requires Good(s)
    ensures var e := Emit(run, body);
            && Tail.Enabled(Seen(s), SeenEvent(s, e))
            && Seen(Apply(s, e)) == Tail.Apply(Seen(s), SeenEvent(s, e)) && Good(Apply(s, e))
  {
    EmitEnabled(s, run, body);
    LogsAppend(s, Entry(run, NextEvent(s.kernel, body)));
    EmitKeepsGood(s, run, body);
  }

  lemma RequestsAdd(inflight: map<nat, Request>, id: nat, r: Request)
    ensures Requests(inflight[id := r]) == Requests(inflight)[id := RequestIn(r)]
    ensures Requests(inflight - {id}) == Requests(inflight) - {id}
  {
  }

  lemma ServeSimulates(s: State, id: nat)
    requires Good(s) && Enabled(s, Serve(id))
    ensures Tail.Enabled(Seen(s), Tail.Serve(id))
    ensures Seen(Apply(s, Serve(id))) == Tail.Apply(Seen(s), Tail.Serve(id)) && Good(Apply(s, Serve(id)))
  {
    var r := s.inflight[id];
    assert GoodRequest(r);
    var reply := ReplyFor(s.kernel, r.run, r.since);
    SeenLog(s, r.run);
    ReplyLines(s.kernel, r.run, r.since);
    ReplyFacts(s.kernel, r.run, r.since);
    RequestsAdd(s.inflight, id, r.(reply := Some(reply)));
    assert GoodRequest(r.(reply := Some(reply)));
  }

  /** Merging into nothing held is, for a reply in order, taking the reply. */
  lemma ReceivedLines(held: Option<seq<ReluxEvent>>, reply: seq<ReluxEvent>)
    requires AllMinted(EventsOf(held)) && AllMinted(reply) && reply != [] && GoodLog(Lines(reply))
    ensures Lines(ReluxMerged(EventsOf(held), reply)) == Received(LinesIn(held), Lines(reply))
    ensures AllMinted(ReluxMerged(EventsOf(held), reply))
  {
    MergeLines(EventsOf(held), reply);
    if held.None? {
      assert Lines([]) == [] && [] + Lines(reply) == Lines(reply);
      Tail.MergeAppends([], Lines(reply));
    }
  }

  lemma ReplySimulates(s: State, r: Request, reply: seq<ReluxEvent>)
    requires Good(s) && AllMinted(reply) && GoodLog(Lines(reply))
    ensures Seen(OnReply(s, r, reply)) == Tail.OnReply(Seen(s), RequestIn(r), Lines(reply))
    ensures Good(OnReply(s, r, reply))
  {
    LatestLines(reply);
    if !r.load && reply != [] {
      ReceivedLines(s.held, reply);
      var s' := OnReply(s, r, reply);
      assert NumOf(s'.cursor) == Tail.Advance(NumOf(s.cursor), Lines(reply));
      assert LinesIn(s'.held) == Some(Received(LinesIn(s.held), Lines(reply)));
    }
  }

  lemma DeliverSimulates(s: State, id: nat)
    requires Good(s) && Enabled(s, Deliver(id))
    ensures Tail.Enabled(Seen(s), Tail.Deliver(id))
    ensures Seen(Apply(s, Deliver(id))) == Tail.Apply(Seen(s), Tail.Deliver(id)) && Good(Apply(s, Deliver(id)))
  {
    var r := s.inflight[id];
    assert GoodRequest(r);
    RequestsAdd(s.inflight, id, r);
    var s0 := s.(inflight := s.inflight - {id});
    assert Good(s0);
    ReplySimulates(s0, r, r.reply.value);
  }

  lemma SwitchSimulates(s: State, run: string, id: nat)
    requires Good(s) && Enabled(s, Switch(run, id))
    ensures var e := Switch(run, id);
            && Tail.Enabled(Seen(s), SeenEvent(s, e))
            && Seen(Apply(s, e)) == Tail.Apply(Seen(s), SeenEvent(s, e)) && Good(Apply(s, e))
  {
    RequestsAdd(s.inflight, id, Request(true, s.epoch + 1, run, None, None));
  }

  lemma PollSimulates(s: State, id: nat)
    requires Good(s) && Enabled(s, Poll(id))
    ensures var e := Poll(id);
            && Tail.Enabled(Seen(s), SeenEvent(s, e))
            && Seen(Apply(s, e)) == Tail.Apply(Seen(s), SeenEvent(s, e)) && Good(Apply(s, e))
  {
    RequestsAdd(s.inflight, id, Request(false, s.epoch, s.run, s.cursor, None));
  }

  lemma LoseSimulates(s: State, id: nat)
    requires Good(s) && Enabled(s, Lose(id))
    ensures var e := Lose(id);
            && Tail.Enabled(Seen(s), SeenEvent(s, e))
            && Seen(Apply(s, e)) == Tail.Apply(Seen(s), SeenEvent(s, e)) && Good(Apply(s, e))
  {
    RequestsAdd(s.inflight, id, s.inflight[id]);
  }

  /** Every step of the transcript tail is the same step of the log tail. */
  lemma StepSimulates(s: State, e: Event)
    requires Good(s) && Enabled(s, e)
    ensures Tail.Enabled(Seen(s), SeenEvent(s, e))
    ensures Seen(Apply(s, e)) == Tail.Apply(Seen(s), SeenEvent(s, e))
    ensures Good(Apply(s, e))
  {
    match e
    case Emit(run, body) => EmitSimulates(s, run, body);
    case Switch(run, id) => SwitchSimulates(s, run, id);
    case Poll(id) => PollSimulates(s, id);
    case Serve(id) => ServeSimulates(s, id);
    case Deliver(id) => DeliverSimulates(s, id);
    case Lose(id) => LoseSimulates(s, id);
  }

  // ---- Runs ----

  /** A safe step: what it delivers neither overtakes nor strays. */
  ghost predicate Safe(s: State, e: Event)
    requires Enabled(s, e)
  {
    e.Deliver? ==> Tail.Enabled(Seen(s), Tail.Deliver(e.id)) && Tail.Safe(Seen(s), Tail.Deliver(e.id))
  }

  ghost predicate SafeRun(s: State, es: seq<Event>)
    decreases |es|
  {
    es != [] ==> Enabled(s, es[0]) && Safe(s, es[0]) && SafeRun(Apply(s, es[0]), es[1..])
  }

  ghost function EndState(s: State, es: seq<Event>): State
    requires SafeRun(s, es)
    decreases |es|
  {
    if es == [] then s else EndState(Apply(s, es[0]), es[1..])
  }

  /** A run as the log tail sees it. */
  ghost function SeenRun(s: State, es: seq<Event>): (run: seq<Tail.Event>)
    requires SafeRun(s, es)
    ensures |run| == |es|
    decreases |es|
  {
    if es == [] then [] else [SeenEvent(s, es[0])] + SeenRun(Apply(s, es[0]), es[1..])
  }

  lemma SafeIsSeen(s: State, e: Event)
    requires Good(s) && Enabled(s, e) && Safe(s, e)
    ensures Tail.Enabled(Seen(s), SeenEvent(s, e)) && Tail.Safe(Seen(s), SeenEvent(s, e))
  {
    StepSimulates(s, e);
  }

  /** Safe runs are safe runs of the log tail, with the same end. */
  lemma {:induction false} RunsSimulate(s: State, es: seq<Event>)
    requires Good(s) && SafeRun(s, es)
    ensures Tail.SafeRun(Seen(s), SeenRun(s, es))
    ensures Tail.EndState(Seen(s), SeenRun(s, es)) == Seen(EndState(s, es)) && Good(EndState(s, es))
    decreases |es|
  {
    if es != [] {
      SafeIsSeen(s, es[0]);
      StepSimulates(s, es[0]);
      RunsSimulate(Apply(s, es[0]), es[1..]);
      assert SeenRun(s, es)[1..] == SeenRun(Apply(s, es[0]), es[1..]);
    }
  }

  /** The panel holds what one full fetch of the transcript on show would have given at some earlier moment. */
  ghost predicate HoldsPrefix(s: State) {
    EventsOf(s.held) <= Transcript(s.kernel, s.run)
  }

  lemma HoldsPrefixSeen(s: State)
    ensures HoldsPrefix(s) <==> Tail.HoldsPrefix(Seen(s))
  {
    SeenLog(s, s.run);
    LinesInjective(EventsOf(s.held), Transcript(s.kernel, s.run));
    assert Tail.HeldLines(Seen(s)) == Lines(EventsOf(s.held));
  }

  lemma InitSeen()
    ensures Good(INIT) && Seen(INIT) == Tail.INIT
  {
    assert Runs([]) == {};
    assert Logs([]) == map[];
  }

  /** What the invariant of the log tail says of a state here. */
  ghost predicate Inv(s: State) {
    Good(s) && Tail.Inv(Seen(s))
  }

  lemma RunsKeepInv(s: State, es: seq<Event>)
    requires Inv(s) && SafeRun(s, es)
    ensures Inv(EndState(s, es))
  {
    RunsSimulate(s, es);
    Tail.RunsKeepInv(Seen(s), SeenRun(s, es));
  }

  /** In every safe run from the start the panel holds a gap-free prefix of the transcript on show. */
  lemma RunsHoldPrefix(es: seq<Event>)
    requires SafeRun(INIT, es)
    ensures Inv(EndState(INIT, es)) && HoldsPrefix(EndState(INIT, es))
  {
    InitSeen();
    Tail.InitInv();
    RunsKeepInv(INIT, es);
    HoldsPrefixSeen(EndState(INIT, es));
  }

  ghost predicate GapFollows(s: State, es: seq<Event>) {
    SafeRun(s, es) && !HoldsPrefix(EndState(s, es))
  }

  lemma NoGapFromInv(s: State)
    requires Inv(s)
    ensures forall es :: !GapFollows(s, es)
  {
    forall es ensures !GapFollows(s, es) {
      if SafeRun(s, es) {
        RunsKeepInv(s, es);
        HoldsPrefixSeen(EndState(s, es));
      }
    }
  }

  /**
   Exactly when delivering a poll's tail is harmless: its new events continue the held ones in the transcript
   on show.
   */
  lemma TailIsSafeExactly(s: State, id: nat)
    requires Inv(s) && Enabled(s, Deliver(id)) && !s.inflight[id].load
    ensures (forall es :: !GapFollows(Apply(s, Deliver(id)), es)) <==>
              Continues(Lines(Transcript(s.kernel, s.run)), LinesIn(s.held), Lines(s.inflight[id].reply.value))
  {
    var s' := Apply(s, Deliver(id));
    DeliverSimulates(s, id);
    SeenLog(s, s.run);
    if Continues(Lines(Transcript(s.kernel, s.run)), LinesIn(s.held), Lines(s.inflight[id].reply.value)) {
      Tail.DeliverTailKeepsInv(Seen(s), id);
      NoGapFromInv(s');
    } else {
      Tail.TailBreaksPrefix(Seen(s), id);
      HoldsPrefixSeen(s');
      assert EndState(s', []) == s';
      assert GapFollows(s', []);
    }
  }

  /** A tail of the run on show: harmless exactly when it is empty or its cursor is not beyond the events held. */
  lemma OwnTailIsSafeExactly(s: State, id: nat)
    requires Inv(s) && Enabled(s, Deliver(id)) && !s.inflight[id].load && s.inflight[id].run == s.run
    ensures (forall es :: !GapFollows(Apply(s, Deliver(id)), es)) <==>
              s.inflight[id].reply == Some([]) ||
              Upto(Lines(Transcript(s.kernel, s.run)), NumOf(s.inflight[id].since)) <= |EventsOf(s.held)|
  {
    TailIsSafeExactly(s, id);
    SeenLog(s, s.run);
    TranscriptFacts(s.kernel, s.run);
    var r := RequestIn(s.inflight[id]);
    assert Seen(s).inflight[id] == r;
    Tail.OwnReplyContinuesExactly(Lines(Transcript(s.kernel, s.run)), LinesIn(s.held), r);
    assert r.reply == Some([]) <==> s.inflight[id].reply == Some([]);
  }

  /** The events of two runs never share a number. */
  lemma NumbersApart(kernel: seq<Entry>, run: string, run': string, es: seq<ReluxEvent>, es': seq<ReluxEvent>)
    requires FromRun(kernel, run, es) && FromRun(kernel, run', es') && run != run'
    ensures forall i, j | 0 <= i < |es| && 0 <= j < |es'| :: Lines(es)[i].num != Lines(es')[j].num
  {
    forall i, j | 0 <= i < |es| && 0 <= j < |es'| ensures Lines(es)[i].num != Lines(es')[j].num {
      assert Lines(es)[i] == LineOf(es[i]) && Lines(es')[j] == LineOf(es'[j]);
    }
  }

  /** A part of a run's events is from that run. */
  lemma PartFromRun(kernel: seq<Entry>, run: string, all: seq<ReluxEvent>, part: seq<ReluxEvent>, u: nat)
    requires FromRun(kernel, run, all) && u + |part| <= |all| && Lines(part) == Lines(all)[u..u + |part|]
    ensures FromRun(kernel, run, part)
  {
    forall i | 0 <= i < |part| ensures part[i] == all[u + i] {
      assert Lines(part)[i] == Lines(all)[u + i];
      assert LineOf(part[i]) == LineOf(all[u + i]);
    }
  }

  /** A request in flight is a good one for the log tail. */
  lemma SeenRequest(s: State, id: nat)
    requires Tail.GoodRequests(Seen(s)) && id in s.inflight
    ensures Tail.GoodRequest(Lines(Transcript(s.kernel, s.inflight[id].run)), RequestIn(s.inflight[id]))
  {
    SeenLog(s, s.inflight[id].run);
    assert id in Seen(s).inflight && Seen(s).inflight[id] == RequestIn(s.inflight[id]);
  }

  lemma ReplyIsPart(all: seq<ReluxEvent>, r: Request)
    requires Tail.GoodRequest(Lines(all), RequestIn(r)) && r.reply.Some?
    ensures var u, reply := Upto(Lines(all), NumOf(r.since)), r.reply.value;
            u + |reply| <= |all| && Lines(reply) == Lines(all)[u..u + |reply|]
  {
    assert RequestIn(r).reply.value == Lines(r.reply.value);
  }

  /** A reply holds events of its own run. */
  lemma ReplyFromRun(s: State, id: nat)
    requires GoodKernel(s.kernel) && Tail.GoodRequests(Seen(s)) && Enabled(s, Deliver(id))
    ensures FromRun(s.kernel, s.inflight[id].run, s.inflight[id].reply.value)
  {
    var r := s.inflight[id];
    var all := Transcript(s.kernel, r.run);
    TranscriptFacts(s.kernel, r.run);
    SeenRequest(s, id);
    ReplyIsPart(all, r);
    PartFromRun(s.kernel, r.run, all, r.reply.value, Upto(Lines(all), NumOf(r.since)));
  }

  /** A tail of another run than the one on show: harmless exactly when it is empty. */
  lemma OtherTailIsSafeExactly(s: State, id: nat)
    requires Inv(s) && Enabled(s, Deliver(id)) && !s.inflight[id].load && s.inflight[id].run != s.run
    ensures (forall es :: !GapFollows(Apply(s, Deliver(id)), es)) <==> s.inflight[id].reply == Some([])
  {
    var reply, all := s.inflight[id].reply.value, Transcript(s.kernel, s.run);
    TailIsSafeExactly(s, id);
    ReplyFromRun(s, id);
    TranscriptFacts(s.kernel, s.run);
    NumbersApart(s.kernel, s.inflight[id].run, s.run, reply, all);
    HoldsPrefixSeen(s);
    SeenLog(s, s.run);
    StrangersContinueExactly(Lines(all), LinesIn(s.held), Lines(reply));
  }

  /** Lines with numbers of their own continue a log only when there are none. */
  lemma StrangersContinueExactly(log: seq<Line>, held: Option<seq<Line>>, reply: seq<Line>)
    requires LinesOf(held) <= log
    requires forall i, j | 0 <= i < |reply| && 0 <= j < |log| :: reply[i].num != log[j].num
    ensures Continues(log, held, reply) <==> reply == []
  {
    ForeignContinuesExactly(log, held, reply);
    if reply != [] {
      forall k | 0 <= k < |LinesOf(held)| ensures LinesOf(held)[k].num != reply[0].num {
        assert log[k] == LinesOf(held)[k];
      }
      assert reply[0] in reply;
    }
  }

  // ---- Loads ----

  /** A step whose counterpart begins a run to a gap. */
  lemma StepBack(s: State, e: Event, rest: seq<Tail.Event>)
    requires Good(s) && Enabled(s, e) && Tail.GapFollows(Seen(s), [SeenEvent(s, e)] + rest)
    ensures Safe(s, e) && Good(Apply(s, e)) && Tail.GapFollows(Seen(Apply(s, e)), rest)
  {
    var run := [SeenEvent(s, e)] + rest;
    assert run[0] == SeenEvent(s, e) && run[1..] == rest;
    StepSimulates(s, e);
  }

  lemma GapBack(s: State, e: Event, es: seq<Event>)
    requires Enabled(s, e) && Safe(s, e) && GapFollows(Apply(s, e), es)
    ensures GapFollows(s, [e] + es)
  {
    assert ([e] + es)[1..] == es;
  }

  lemma GapHere(s: State)
    requires Good(s) && Tail.GapFollows(Seen(s), [])
    ensures GapFollows(s, [])
  {
    HoldsPrefixSeen(s);
  }

  /** Delivering a tail whose counterpart leaves a gap leaves one. */
  lemma DeliveredGap(s: State, q: nat)
    requires Good(s) && Enabled(s, Deliver(q)) && Tail.GapFollows(Seen(s), [Tail.Deliver(q)])
    ensures GapFollows(s, [Deliver(q)])
  {
    assert [Tail.Deliver(q)] == [SeenEvent(s, Deliver(q))] + [];
    StepBack(s, Deliver(q), []);
    GapHere(Apply(s, Deliver(q)));
    GapBack(s, Deliver(q), []);
    assert [Deliver(q)] + [] == [Deliver(q)];
  }

  lemma ServedGap(s: State, q: nat)
    requires Good(s) && Enabled(s, Serve(q)) && Tail.GapFollows(Seen(s), [Tail.Serve(q), Tail.Deliver(q)])
    ensures GapFollows(s, [Serve(q), Deliver(q)])
  {
    assert [Tail.Serve(q), Tail.Deliver(q)] == [SeenEvent(s, Serve(q))] + [Tail.Deliver(q)];
    StepBack(s, Serve(q), [Tail.Deliver(q)]);
    DeliveredGap(Apply(s, Serve(q)), q);
    GapBack(s, Serve(q), [Deliver(q)]);
    assert [Serve(q)] + [Deliver(q)] == [Serve(q), Deliver(q)];
  }

  lemma EmittedGap(s: State, q: nat, line: Line)
    requires Good(s) && q in s.inflight && s.inflight[q].reply == None && line == LineOf(NextEvent(s.kernel, ""))
    requires Tail.GapFollows(Seen(s), [Tail.Append(s.run, line), Tail.Serve(q), Tail.Deliver(q)])
    ensures GapFollows(s, [Emit(s.run, ""), Serve(q), Deliver(q)])
  {
    var e := Emit(s.run, "");
    StepBack(s, e, [Tail.Serve(q), Tail.Deliver(q)]);
    ServedGap(Apply(s, e), q);
    GapBack(s, e, [Serve(q), Deliver(q)]);
  }

  /** A poll from beyond what is held leaves a gap here too: at once, or after one more event. */
  lemma AheadHasGap(s: State, q: nat)
    requires Good(s) && Tail.Ahead(Seen(s), q)
    ensures exists es :: GapFollows(s, es)
  {
    var line := LineOf(NextEvent(s.kernel, ""));
    EmitEnabled(s, s.run, "");
    Tail.AheadLeavesGap(Seen(s), q, line);
    assert Seen(s).inflight[q] == RequestIn(s.inflight[q]);
    if s.inflight[q].reply.Some? {
      assert Tail.GapRun(Seen(s), q, line) == [Tail.Deliver(q)];
      DeliveredGap(s, q);
    } else {
      assert Tail.GapRun(Seen(s), q, line) == [Tail.Append(s.run, line), Tail.Serve(q), Tail.Deliver(q)];
      EmittedGap(s, q, line);
    }
  }

  /**
   Exactly when delivering a load is harmless: no run that follows leaves a gap if and only if the load
   overtakes no poll of its own showing.
   */
  lemma LoadIsSafeExactly(s: State, id: nat)
    requires Inv(s) && Enabled(s, Deliver(id)) && s.inflight[id].load
    requires Tail.Enabled(Seen(s), Tail.Deliver(id))
    ensures (forall es :: !GapFollows(Apply(s, Deliver(id)), es)) <==> !Tail.Overtakes(Seen(s), id)
  {
    DeliverSimulates(s, id);
    assert Seen(s).inflight[id] == RequestIn(s.inflight[id]);
    if Tail.Overtakes(Seen(s), id) {
      var q := Tail.AfterOvertaking(Seen(s), id);
      AheadHasGap(Apply(s, Deliver(id)), q);
    } else {
      Tail.DeliverLoadKeepsInv(Seen(s), id);
      NoGapFromInv(Apply(s, Deliver(id)));
    }
  }

  // ---- A late tail hides an event, reached from the start ----

  lemma KeptNext(kernel: seq<Entry>, x: Entry, run: string, keep: ReluxEvent -> bool)
    ensures Kept(kernel + [x], run, keep) ==
            Kept(kernel, run, keep) + if x.run == run && keep(x.event) then [x.event] else []
  {
    assert (kernel + [x])[..|kernel|] == kernel;
  }

  function Nth(n: nat, body: string): ReluxEvent {
    ReluxEvent(MintId(n), body)
  }

  lemma LatestOfOne(n: nat, body: string)
    requires n >= 1
    ensures LatestId([Nth(n, body)]) == Some(MintId(n))
  {
    MintedSeq(n);
    assert LatestIdOf(ReluxEventSeq, [Nth(n, body)], 0) == None;
  }

  /** Run `a` is on show with its one event, and a poll for more is on its way. */
  function Asked(a: string, x1: string): State {
    State([Entry(a, Nth(1, x1))], a, 1, Some([Nth(1, x1)]), Some(MintId(1)),
          map[1 := Request(false, 1, a, Some(MintId(1)), None)])
  }

  lemma AskedIsReached(a: string, x1: string)
    ensures var s := Apply(Apply(Apply(Apply(INIT, Emit(a, x1)), Switch(a, 0)), Serve(0)), Deliver(0));
            Apply(s, Poll(1)) == Asked(a, x1)
  {
    var s1 := Apply(Apply(INIT, Emit(a, x1)), Switch(a, 0));
    assert s1.kernel == [] + [Entry(a, Nth(1, x1))] == [Entry(a, Nth(1, x1))];
    KeptNext([], Entry(a, Nth(1, x1)), a, (e: ReluxEvent) => true);
    assert ReplyFor(s1.kernel, a, None) == [Nth(1, x1)];
    LatestOfOne(1, x1);
    var s2 := Apply(Apply(s1, Serve(0)), Deliver(0));
    assert s2.inflight == map[];
  }

  /** Run `b` is on show with its first event; the poll sent for run `a` is still on its way. */
  function Switched(a: string, b: string, x1: string, x2: string): State {
    State([Entry(a, Nth(1, x1)), Entry(b, Nth(2, x2))], b, 2, Some([Nth(2, x2)]), Some(MintId(2)),
          map[1 := Request(false, 1, a, Some(MintId(1)), None)])
  }

  /** Run `b` has just been switched to, and its load is sent. */
  function Loading(a: string, b: string, x1: string, x2: string): State {
    State([Entry(a, Nth(1, x1)), Entry(b, Nth(2, x2))], b, 2, None, None,
          map[1 := Request(false, 1, a, Some(MintId(1)), None), 2 := Request(true, 2, b, None, None)])
  }

  lemma LoadingIsReached(a: string, b: string, x1: string, x2: string)
    requires a != b
    ensures Apply(Apply(Asked(a, x1), Emit(b, x2)), Switch(b, 2)) == Loading(a, b, x1, x2)
  {
    var e1, e2 := Entry(a, Nth(1, x1)), Entry(b, Nth(2, x2));
    assert [e1] + [e2] == [e1, e2];
  }

  lemma SwitchedIsReached(a: string, b: string, x1: string, x2: string)
    requires a != b
    ensures Apply(Apply(Loading(a, b, x1, x2), Serve(2)), Deliver(2)) == Switched(a, b, x1, x2)
  {
    SecondOfTwo(Entry(a, Nth(1, x1)), Entry(b, Nth(2, x2)));
    LatestOfOne(2, x2);
    var s := Apply(Loading(a, b, x1, x2), Serve(2));
    assert s.inflight - {2} == Switched(a, b, x1, x2).inflight;
  }

  lemma SecondOfTwo(e1: Entry, e2: Entry)
    requires e1.run != e2.run
    ensures Transcript([e1, e2], e2.run) == [e2.event]
  {
    KeptOfTwo(e1, e2, e2.run, (e: ReluxEvent) => true);
  }

  /** Both runs have gone on, and the poll sent for run `a` is answered. */
  function Answered(a: string, b: string, x1: string, x2: string, x3: string, x4: string): State {
    State([Entry(a, Nth(1, x1)), Entry(b, Nth(2, x2)), Entry(b, Nth(3, x3)), Entry(a, Nth(4, x4))],
          b, 2, Some([Nth(2, x2)]), Some(MintId(2)),
          map[1 := Request(false, 1, a, Some(MintId(1)), Some([Nth(4, x4)]))])
  }

  /** The events after a minted cursor, one entry at a time. */
  lemma BeyondMinted(n: nat, body: string, c: nat)
    requires n >= 1
    ensures Beyond(Nth(n, body), Some(c)) <==> n > c
  {
    MintedIsMinted(n);
  }

  lemma AnsweredIsReached(a: string, b: string, x1: string, x2: string, x3: string, x4: string)
    requires a != b
    ensures Apply(Apply(Apply(Switched(a, b, x1, x2), Emit(b, x3)), Emit(a, x4)), Serve(1)) ==
            Answered(a, b, x1, x2, x3, x4)
  {
    var s := Apply(Apply(Switched(a, b, x1, x2), Emit(b, x3)), Emit(a, x4));
    assert s.kernel == Answered(a, b, x1, x2, x3, x4).kernel;
    AfterFour(a, b, x1, x2, x3, x4, a, 1);
    MintedIsMinted(1);
    assert ReplyFor(s.kernel, a, Some(MintId(1))) == [Nth(4, x4)];
  }

  /** What an entry adds to the kept events of a run. */
  function Part(x: Entry, run: string, keep: ReluxEvent -> bool): seq<ReluxEvent> {
    if x.run == run && keep(x.event) then [x.event] else []
  }

  lemma KeptOfTwo(e1: Entry, e2: Entry, run: string, keep: ReluxEvent -> bool)
    ensures Kept([e1, e2], run, keep) == Part(e1, run, keep) + Part(e2, run, keep)
  {
    KeptNext([], e1, run, keep);
    KeptNext([e1], e2, run, keep);
    assert [] + [e1] == [e1] && [e1] + [e2] == [e1, e2];
  }

  lemma KeptOfFour(e1: Entry, e2: Entry, e3: Entry, e4: Entry, run: string, keep: ReluxEvent -> bool)
    ensures Kept([e1, e2, e3, e4], run, keep) ==
            Part(e1, run, keep) + Part(e2, run, keep) + Part(e3, run, keep) + Part(e4, run, keep)
  {
    KeptOfTwo(e1, e2, run, keep);
    KeptNext([e1, e2], e3, run, keep);
    KeptNext([e1, e2] + [e3], e4, run, keep);
    assert [e1, e2] + [e3] + [e4] == [e1, e2, e3, e4];
  }

  lemma AfterFour(a: string, b: string, x1: string, x2: string, x3: string, x4: string, run: string, c: nat)
    requires a != b && ((run == a && c == 1) || (run == b && c == 4))
    ensures Since(Answered(a, b, x1, x2, x3, x4).kernel, run, Some(c)) == if run == a then [Nth(4, x4)] else []
  {
    var keep := (e: ReluxEvent) => Beyond(e, Some(c));
    var e1, e2, e3, e4 := Entry(a, Nth(1, x1)), Entry(b, Nth(2, x2)), Entry(b, Nth(3, x3)), Entry(a, Nth(4, x4));
    BeyondMinted(1, x1, c);
    BeyondMinted(2, x2, c);
    BeyondMinted(3, x3, c);
    BeyondMinted(4, x4, c);
    KeptOfFour(e1, e2, e3, e4, run, keep);
  }

  /** The late tail joins the transcript of run `b`, and moves the cursor past an event of run `b` not fetched yet. */
  lemma LateTailStrays(a: string, b: string, x1: string, x2: string, x3: string, x4: string)
    ensures var s := Answered(a, b, x1, x2, x3, x4);
            var s' := Apply(s, Deliver(1));
            s' == s.(held := Some([Nth(2, x2), Nth(4, x4)]), cursor := Some(MintId(4)), inflight := map[])
  {
    var s := Answered(a, b, x1, x2, x3, x4);
    MergedInOrder(2, x2, 4, x4);
    LatestOfOne(4, x4);
    assert s.inflight - {1} == map[];
  }

  lemma MergedInOrder(m: nat, x: string, n: nat, y: string)
    requires 1 <= m < n
    ensures ReluxMerged([Nth(m, x)], [Nth(n, y)]) == [Nth(m, x), Nth(n, y)]
  {
    var a, b := [Nth(m, x)], [Nth(n, y)];
    MintedIsMinted(m);
    MintedIsMinted(n);
    MergeLines(a, b);
    LinesConcat(a, b);
    Tail.MergeAppends(Lines(a), Lines(b));
    LinesInjective(a + b, ReluxMerged(a, b));
  }

  /** Every later poll asks for what comes after that cursor, so the event in between is never fetched. */
  lemma EventNeverFetched(a: string, b: string, x1: string, x2: string, x3: string, x4: string)
    requires a != b
    ensures var s := Apply(Answered(a, b, x1, x2, x3, x4), Deliver(1));
            var s' := Apply(Apply(Apply(s, Poll(3)), Serve(3)), Deliver(3));
            && Transcript(s'.kernel, b) == [Nth(2, x2), Nth(3, x3)]
            && EventsOf(s'.held) == [Nth(2, x2), Nth(4, x4)] && !HoldsPrefix(s')
  {
    LateTailStrays(a, b, x1, x2, x3, x4);
    var s := Apply(Answered(a, b, x1, x2, x3, x4), Deliver(1));
    MintedIsMinted(4);
    AfterFour(a, b, x1, x2, x3, x4, b, 4);
    assert ReplyFor(s.kernel, b, s.cursor) == [];
    TwoOfFour(a, b, x1, x2, x3, x4);
    OtherIds(3, 4);
    var s' := Apply(Apply(Apply(s, Poll(3)), Serve(3)), Deliver(3));
    assert s'.held == s.held && s'.kernel == s.kernel;
    assert Transcript(s'.kernel, b)[1].id != EventsOf(s'.held)[1].id;
  }

  lemma OtherIds(m: nat, n: nat)
    requires m != n
    ensures MintId(m) != MintId(n)
  {
    MintedSeq(m);
    MintedSeq(n);
  }

  lemma TwoOfFour(a: string, b: string, x1: string, x2: string, x3: string, x4: string)
    requires a != b
    ensures Transcript(Answered(a, b, x1, x2, x3, x4).kernel, b) == [Nth(2, x2), Nth(3, x3)]
  {
    var e1, e2, e3, e4 := Entry(a, Nth(1, x1)), Entry(b, Nth(2, x2)), Entry(b, Nth(3, x3)), Entry(a, Nth(4, x4));
    KeptOfFour(e1, e2, e3, e4, b, (e: ReluxEvent) => true);
  }
}
