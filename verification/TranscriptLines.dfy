/**
 The kernel's record of run events (crates/relux-kernel/src/state.rs): one counter numbers the events of all
 runs, and a run's events beyond a cursor are what a poll gets. Events with minted ids read as numbered lines,
 and merging, cursors and replies then agree with those of the run log.
 */
module TranscriptLines {
  import opened Options
  import opened JsText
  import opened RunEvents
  import opened RunLog
  import opened StableMerge
  import opened LogPositions

  /** One recorded event: the run it belongs to, and what the kernel sends. */
  datatype Entry = Entry(run: string, event: ReluxEvent)

  // ---- The kernel ----

  predicate AllDigits(s: string) {
    s != "" && forall i | 0 <= i < |s| :: IsDigit(s[i])
  }

  /** The kernel's own parse of an id: the whole suffix must be a number, at most behind one plus sign. */
  function KernelSeq(id: string): Option<nat> {
    var tail := Suffix(id);
    if AllDigits(tail) then Some(DigitsFrom(tail, 0))
    else if tail != "" && tail[0] == '+' && AllDigits(tail[1..]) then Some(DigitsFrom(tail[1..], 0))
    else None
  }

  /** Beyond the cursor; an id that does not parse is kept. */
  predicate Beyond(e: ReluxEvent, c: Option<nat>) {
    c.None? || KernelSeq(e.id).None? || KernelSeq(e.id).value > c.value
  }

  /** The kept events of a run, in the order in which they were recorded. */
  function Kept(kernel: seq<Entry>, run: string, keep: ReluxEvent -> bool): seq<ReluxEvent> {
    if kernel == [] then []
    else
      var last := kernel[|kernel| - 1];
      Kept(kernel[..|kernel| - 1], run, keep) + if last.run == run && keep(last.event) then [last.event] else []
  }

  /** The events of a run beyond a cursor. */
  function Since(kernel: seq<Entry>, run: string, c: Option<nat>): seq<ReluxEvent> {
    Kept(kernel, run, (e: ReluxEvent) => Beyond(e, c))
  }

  function Transcript(kernel: seq<Entry>, run: string): seq<ReluxEvent> {
    Kept(kernel, run, (e: ReluxEvent) => true)
  }

  /** The reply: no cursor, an empty one and one that does not parse ask for everything. */
  function ReplyFor(kernel: seq<Entry>, run: string, since: Option<string>): seq<ReluxEvent> {
    if since.None? then Transcript(kernel, run) else Since(kernel, run, KernelSeq(since.value))
  }

  /** The next event the kernel records. */
  function NextEvent(kernel: seq<Entry>, body: string): ReluxEvent {
    ReluxEvent(MintId(|kernel| + 1), body)
  }

  function EventsOf(held: Option<seq<ReluxEvent>>): seq<ReluxEvent> {
    if held.Some? then held.value else []
  }

  // ---- Minted ids ----

  /** An id the kernel minted. */
  predicate IsMinted(id: string) {
    var n := ReluxEventSeq(id);
    n.Some? && n.value >= 1 && id == MintId(n.value)
  }

  ghost predicate AllMinted(es: seq<ReluxEvent>) {
    forall i | 0 <= i < |es| :: IsMinted(es[i].id)
  }

  lemma MintedIsMinted(n: nat)
    requires n >= 1
    ensures IsMinted(MintId(n)) && ReluxEventSeq(MintId(n)) == Some(n) && KernelSeq(MintId(n)) == Some(n)
  {
    MintedSeq(n);
    MintedSuffix(n);
  }

  /** Both parses agree on a minted id, and its number determines it. */
  lemma MintedFacts(id: string)
    requires IsMinted(id)
    ensures KernelSeq(id) == Some(ReluxEventSeq(id).value)
  {
    MintedIsMinted(ReluxEventSeq(id).value);
  }

  // ---- Events as lines ----

  function LineOf(e: ReluxEvent): Line {
    var n := ReluxEventSeq(e.id);
    Line(if n.Some? then n.value else 0, e.id, e.body, false)
  }

  function Lines(es: seq<ReluxEvent>): (ls: seq<Line>)
    ensures |ls| == |es|
  {
    seq(|es|, i requires 0 <= i < |es| => LineOf(es[i]))
  }

  function LinesIn(es: Option<seq<ReluxEvent>>): Option<seq<Line>> {
    if es.None? then None else Some(Lines(es.value))
  }

  function NumOf(id: Option<string>): Option<int> {
    if id.None? then None else ReluxEventSeq(id.value)
  }

  lemma LinesCons(e: ReluxEvent, es: seq<ReluxEvent>)
    ensures Lines([e] + es) == [LineOf(e)] + Lines(es)
  {
  }

  lemma LinesConcat(a: seq<ReluxEvent>, b: seq<ReluxEvent>)
    ensures Lines(a + b) == Lines(a) + Lines(b)
  {
  }

  /** Events are determined by their lines. */
  lemma LinesInjective(a: seq<ReluxEvent>, b: seq<ReluxEvent>)
    ensures Lines(a) <= Lines(b) <==> a <= b
  {
    if Lines(a) <= Lines(b) {
      forall i | 0 <= i < |a| ensures a[i] == b[i] {
        assert Lines(a)[i] == Lines(b)[i];
        assert LineOf(a[i]) == LineOf(b[i]);
      }
    }
    if a <= b {
      assert forall i | 0 <= i < |a| :: Lines(a)[i] == Lines(b)[i];
    }
  }

  lemma {:induction false} InsertLines(e: ReluxEvent, es: seq<ReluxEvent>)
    requires IsMinted(e.id) && AllMinted(es)
    ensures Lines(Insert(ReluxRank, e, es)) == Insert(Num, LineOf(e), Lines(es))
  {
    if es != [] {
      assert es == [es[0]] + es[1..];
      LinesCons(es[0], es[1..]);
      LinesCons(e, es);
      assert Lines(es)[1..] == Lines(es[1..]);
      assert ReluxRank(e) == Num(LineOf(e)) && ReluxRank(es[0]) == Num(Lines(es)[0]);
      if ReluxRank(e) > ReluxRank(es[0]) {
        InsertLines(e, es[1..]);
        LinesCons(es[0], Insert(ReluxRank, e, es[1..]));
      }
    }
  }

  lemma {:induction false} SortLines(es: seq<ReluxEvent>)
    requires AllMinted(es)
    ensures Lines(SortBy(ReluxRank, es)) == SortBy(Num, Lines(es))
    ensures AllMinted(SortBy(ReluxRank, es))
  {
    if es != [] {
      SortLines(es[1..]);
      assert Lines(es)[1..] == Lines(es[1..]);
      var rest := SortBy(ReluxRank, es[1..]);
      InsertLines(es[0], rest);
      forall i | 0 <= i < |SortBy(ReluxRank, es)| ensures IsMinted(SortBy(ReluxRank, es)[i].id) {
        InsertElements(ReluxRank, es[0], rest, SortBy(ReluxRank, es)[i]);
      }
    }
  }

  /** Dropping repeated ids is dropping repeated numbers. */
  lemma {:induction false} FreshLines(seen: set<string>, nums: set<int>, es: seq<ReluxEvent>)
    requires AllMinted(es)
    requires forall i | 0 <= i < |es| :: es[i].id in seen <==> LineOf(es[i]).num in nums
    ensures Lines(Fresh(ReluxIdent, seen, es)) == Fresh(NumIdent, nums, Lines(es))
    ensures AllMinted(Fresh(ReluxIdent, seen, es))
    decreases |es|
  {
    if es != [] {
      var e, rest := es[0], es[1..];
      assert Lines(es)[1..] == Lines(rest) && Lines(es)[0] == LineOf(e);
      assert forall i | 0 <= i < |rest| :: rest[i] == es[i + 1];
      if e.id in seen {
        FreshLines(seen, nums, rest);
      } else {
        forall i | 0 <= i < |rest|
          ensures rest[i].id in seen + {e.id} <==> LineOf(rest[i]).num in nums + {LineOf(e).num}
        {
          assert IsMinted(es[i + 1].id) && IsMinted(es[0].id);
        }
        FreshLines(seen + {e.id}, nums + {LineOf(e).num}, rest);
        LinesCons(e, Fresh(ReluxIdent, seen + {e.id}, rest));
      }
    }
  }

  lemma IdentsLines(es: seq<ReluxEvent>, e: ReluxEvent)
    requires AllMinted(es) && IsMinted(e.id)
    ensures e.id in Idents(ReluxIdent, es) <==> LineOf(e).num in Idents(NumIdent, Lines(es))
  {
    IdentsAre(ReluxIdent, es, e.id);
    SeenNums(Lines(es), LineOf(e).num);
    if e.id in Idents(ReluxIdent, es) {
      var i :| 0 <= i < |es| && ReluxIdent(es[i]) == Some(e.id);
      assert Lines(es)[i].num == LineOf(e).num;
    }
    if i :| 0 <= i < |Lines(es)| && Lines(es)[i].num == LineOf(e).num {
      assert IsMinted(es[i].id);
      assert ReluxIdent(es[i]) == Some(e.id);
    }
  }

  /** Merging minted events is merging their lines. */
  lemma MergeLines(a: seq<ReluxEvent>, b: seq<ReluxEvent>)
    requires AllMinted(a) && AllMinted(b) && b != []
    ensures Lines(ReluxMerged(a, b)) == MergedLines(Lines(a), Lines(b))
    ensures AllMinted(ReluxMerged(a, b))
  {
    var seen, nums := Idents(ReluxIdent, a), Idents(NumIdent, Lines(a));
    forall i | 0 <= i < |b| ensures b[i].id in seen <==> LineOf(b[i]).num in nums {
      IdentsLines(a, b[i]);
    }
    FreshLines(seen, nums, b);
    var f := Fresh(ReluxIdent, seen, b);
    LinesConcat(a, f);
    SortLines(a + f);
  }

  lemma {:induction false} LatestIsListed(parse: string -> Option<int>, es: seq<ReluxEvent>, n: nat)
    requires n <= |es|
    ensures var best := LatestIdOf(parse, es, n);
            best.Some? ==> exists i | 0 <= i < n :: es[i].id == best.value
  {
    if n > 0 {
      LatestIsListed(parse, es, n - 1);
    }
  }

  lemma {:induction false} LatestAgrees(parse: string -> Option<int>, es: seq<ReluxEvent>, ls: seq<Line>, n: nat)
    requires n <= |es| == |ls| && forall i | 0 <= i < |es| :: parse(es[i].id) == Some(ls[i].num)
    ensures var best := LatestIdOf(parse, es, n);
            LatestOf(ls, n) == if best.None? then None else parse(best.value)
  {
    if n > 0 {
      LatestAgrees(parse, es, ls, n - 1);
    }
  }

  /** The latest id stands for the latest number. */
  lemma LatestLines(es: seq<ReluxEvent>)
    requires AllMinted(es)
    ensures NumOf(LatestId(es)) == LatestNum(Lines(es))
    ensures LatestId(es).Some? ==> IsMinted(LatestId(es).value)
  {
    forall i | 0 <= i < |es| ensures ReluxEventSeq(es[i].id) == Some(Lines(es)[i].num) {
      assert IsMinted(es[i].id) && Lines(es)[i] == LineOf(es[i]);
    }
    LatestAgrees(ReluxEventSeq, es, Lines(es), |es|);
    LatestIsListed(ReluxEventSeq, es, |es|);
  }

  // ---- What the kernel sends ----

  /** The counter numbers the entries of all runs. */
  ghost predicate GoodKernel(kernel: seq<Entry>) {
    forall i | 0 <= i < |kernel| :: kernel[i].event.id == MintId(i + 1)
  }

  /** The events of a list are entries of a run, each where its number says. */
  ghost predicate FromRun(kernel: seq<Entry>, run: string, es: seq<ReluxEvent>) {
    forall i | 0 <= i < |es| ::
      IsMinted(es[i].id) && 1 <= LineOf(es[i]).num <= |kernel| && kernel[LineOf(es[i]).num - 1] == Entry(run, es[i])
  }

  lemma LastEntry(kernel: seq<Entry>)
    requires GoodKernel(kernel) && kernel != []
    ensures var e := kernel[|kernel| - 1].event; IsMinted(e.id) && LineOf(e).num == |kernel|
    ensures GoodKernel(kernel[..|kernel| - 1])
  {
    MintedIsMinted(|kernel|);
  }

  /** The next event of a run comes behind the events it has. */
  lemma NextInOrder(front: seq<ReluxEvent>, last: ReluxEvent, n: nat)
    requires GoodLog(Lines(front)) && forall i | 0 <= i < |front| :: LineOf(front[i]).num <= n
    requires LineOf(last).num == n + 1
    ensures GoodLog(Lines(front + [last]))
  {
    var log, line := Lines(front), LineOf(last);
    LinesConcat(front, [last]);
    assert Lines([last]) == [line];
    assert log != [] ==> log[|log| - 1] == LineOf(front[|front| - 1]);
  }

  lemma {:induction false} KeptFacts(kernel: seq<Entry>, run: string, keep: ReluxEvent -> bool)
    requires GoodKernel(kernel)
    ensures var es := Kept(kernel, run, keep);
            FromRun(kernel, run, es) && AllMinted(es) && GoodLog(Lines(es))
  {
    if kernel != [] {
      var n := |kernel| - 1;
      var front, last := Kept(kernel[..n], run, keep), kernel[n].event;
      LastEntry(kernel);
      KeptFacts(kernel[..n], run, keep);
      if kernel[n].run == run && keep(last) {
        NextInOrder(front, last, n);
        assert Kept(kernel, run, keep) == front + [last];
      } else {
        assert Kept(kernel, run, keep) == front;
      }
    }
  }

  lemma TranscriptFacts(kernel: seq<Entry>, run: string)
    requires GoodKernel(kernel)
    ensures var es := Transcript(kernel, run);
            FromRun(kernel, run, es) && AllMinted(es) && GoodLog(Lines(es))
  {
    KeptFacts(kernel, run, (e: ReluxEvent) => true);
  }

  lemma {:induction false} AfterAppend(log: seq<Line>, line: Line, c: int)
    ensures After(log + [line], c) == After(log, c) + if line.num > c then [line] else []
  {
    if log == [] {
      assert log + [line] == [line];
    } else {
      assert (log + [line])[1..] == log[1..] + [line];
      AfterAppend(log[1..], line, c);
    }
  }

  /** What the kernel sends for a cursor is, as lines, what the log tail sends for its number. */
  lemma {:induction false} KeptLines(
      kernel: seq<Entry>, run: string, all: ReluxEvent -> bool, keep: ReluxEvent -> bool, c: int)
    requires GoodKernel(kernel)
    requires forall i | 0 <= i < |kernel| :: all(kernel[i].event) && (keep(kernel[i].event) <==> i + 1 > c)
    ensures Lines(Kept(kernel, run, keep)) == After(Lines(Kept(kernel, run, all)), c)
  {
    if kernel != [] {
      var n := |kernel| - 1;
      LastEntry(kernel);
      KeptLines(kernel[..n], run, all, keep, c);
      var before, tail := Kept(kernel[..n], run, all), Kept(kernel[..n], run, keep);
      if kernel[n].run == run {
        LinesNext(before, tail, kernel[n].event, c);
        assert Kept(kernel, run, all) == before + [kernel[n].event];
        assert Kept(kernel, run, keep) == if n + 1 > c then tail + [kernel[n].event] else tail + [];
      } else {
        assert Kept(kernel, run, all) == before && Kept(kernel, run, keep) == tail;
      }
    }
  }

  lemma LinesNext(all: seq<ReluxEvent>, tail: seq<ReluxEvent>, last: ReluxEvent, c: int)
    requires Lines(tail) == After(Lines(all), c)
    ensures Lines(all + [last]) == Lines(all) + [LineOf(last)]
    ensures After(Lines(all + [last]), c) == Lines(if LineOf(last).num > c then tail + [last] else tail + [])
  {
    LinesConcat(all, [last]);
    LinesConcat(tail, [last]);
    assert Lines([last]) == [LineOf(last)];
    assert tail + [] == tail;
    AfterAppend(Lines(all), LineOf(last), c);
  }

  lemma ReplyLines(kernel: seq<Entry>, run: string, since: Option<string>)
    requires GoodKernel(kernel) && (since.Some? ==> IsMinted(since.value))
    ensures Lines(ReplyFor(kernel, run, since)) == ReplyTo(Lines(Transcript(kernel, run)), NumOf(since))
  {
    if since.Some? {
      MintedFacts(since.value);
      var c := KernelSeq(since.value);
      forall i | 0 <= i < |kernel| ensures Beyond(kernel[i].event, c) <==> i + 1 > c.value {
        MintedIsMinted(i + 1);
      }
      KeptLines(kernel, run, (e: ReluxEvent) => true, (e: ReluxEvent) => Beyond(e, c), c.value);
    }
  }

  lemma ReplyFacts(kernel: seq<Entry>, run: string, since: Option<string>)
    requires GoodKernel(kernel)
    ensures var es := ReplyFor(kernel, run, since); AllMinted(es) && GoodLog(Lines(es))
  {
    if since.None? {
      TranscriptFacts(kernel, run);
    } else {
      KeptFacts(kernel, run, (e: ReluxEvent) => Beyond(e, KernelSeq(since.value)));
    }
  }
}
