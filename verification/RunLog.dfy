/** The run-log tail of apps/dashboard/src/reluxrunlog.ts: its cursor and its merge. */
module RunLog {
  import opened Options
  import opened StableMerge

  datatype Line = Line(num: int, source: string, text: string, truncated: bool)

  datatype Log = Log(
    runId: string, lines: seq<Line>,
    dropped: Option<int>, stdoutTruncated: Option<bool>, stderrTruncated: Option<bool>)

  function Num(l: Line): int { l.num }

  function NumIdent(l: Line): Option<int> { Some(l.num) }

  /** The highest number among the first `n` lines, none when `n` is 0. */
  function LatestOf(lines: seq<Line>, n: nat): (best: Option<int>)
    requires n <= |lines|
    ensures best.None? <==> n == 0
    ensures best.Some? ==> exists i | 0 <= i < n :: lines[i].num == best.value
    ensures best.Some? ==> forall i | 0 <= i < n :: lines[i].num <= best.value
  {
    if n == 0 then None
    else
      var before := LatestOf(lines, n - 1);
      if before.Some? && lines[n - 1].num <= before.value then before else Some(lines[n - 1].num)
  }

  /** The highest line number, none for an empty list. */
  function LatestNum(lines: seq<Line>): (best: Option<int>)
    ensures best.None? <==> lines == []
    ensures best.Some? ==> exists i | 0 <= i < |lines| :: lines[i].num == best.value
    ensures best.Some? ==> forall i | 0 <= i < |lines| :: lines[i].num <= best.value
  {
    LatestOf(lines, |lines|)
  }

  /** The cursor loop: the highest line number present, none for a missing or empty log. */
  method LatestRunLogSeq(log: Option<Log>) returns (best: Option<int>)
    ensures best == if log.None? then None else LatestNum(log.value.lines)
  {
    if log.None? || log.value.lines == [] {
      return None;
    }
    var lines := log.value.lines;
    best := None;
    for i := 0 to |lines|
      invariant best == LatestOf(lines, i)
    {
      if best.None? || lines[i].num > best.value {
        best := Some(lines[i].num);
      }
    }
  }

  function MergedLines(existing: seq<Line>, incoming: seq<Line>): seq<Line> {
    Merge(NumIdent, Num, existing, incoming)
  }

  function Coalesce<T>(first: Option<T>, second: Option<T>): Option<T> {
    if first.Some? then first else second
  }

  /** A marker that the reply sent, be it false or zero, wins over the held one, which stays if none was sent. */
  ghost predicate IsFreshest<T>(sent: Option<T>, held: Option<T>, marker: Option<T>) {
    match sent case Some(m) => marker == Some(m) case None => marker == held
  }

  /** The merge loop: the tail is appended by number, sorted, and the markers are the freshest ones sent. */
  method MergeRunLog(existing: Option<Log>, incoming: Log) returns (merged: Log)
    ensures existing.None? ==> merged == incoming
    ensures existing.Some? ==> merged.lines == MergedLines(existing.value.lines, incoming.lines)
    ensures existing.Some? ==>
              && merged.runId == (if incoming.runId != "" then incoming.runId else existing.value.runId)
              && IsFreshest(incoming.dropped, existing.value.dropped, merged.dropped)
              && IsFreshest(incoming.stdoutTruncated, existing.value.stdoutTruncated, merged.stdoutTruncated)
              && IsFreshest(incoming.stderrTruncated, existing.value.stderrTruncated, merged.stderrTruncated)
  {
    if existing.None? {
      return incoming;
    }
    var prior := existing.value;
    var held := prior.lines;
    var seen: set<int> := {};
    for i := 0 to |held|
      invariant seen == Idents(NumIdent, held[..i])
    {
      assert held[..i + 1] == held[..i] + [held[i]];
      IdentsConcat(NumIdent, held[..i], held[i]);
      seen := seen + {held[i].num};
    }
    assert held[..|held|] == held;
    var lines, tail := held, incoming.lines;
    for i := 0 to |tail|
      invariant lines == held + Fresh(NumIdent, Idents(NumIdent, held), tail[..i])
      invariant seen == Idents(NumIdent, held) + Idents(NumIdent, tail[..i])
    {
      assert tail[..i + 1] == tail[..i] + [tail[i]];
      IdentsConcat(NumIdent, tail[..i], tail[i]);
      FreshConcat(NumIdent, Idents(NumIdent, held), tail[..i], [tail[i]]);
      if tail[i].num !in seen {
        seen := seen + {tail[i].num};
        lines := lines + [tail[i]];
      }
    }
    assert tail[..|tail|] == tail;
    lines := SortBy(Num, lines);
    merged := Log(
      if incoming.runId != "" then incoming.runId else prior.runId, lines,
      Coalesce(incoming.dropped, prior.dropped),
      Coalesce(incoming.stdoutTruncated, prior.stdoutTruncated),
      Coalesce(incoming.stderrTruncated, prior.stderrTruncated));
  }

  /** The same line number always means the same line. */
  ghost predicate Consistent(s: iset<Line>) {
    forall x, y | x in s && y in s && x.num == y.num :: x == y
  }

  /** The merge is associative on all lists, and idempotent exactly on sorted ones. */
  lemma MergedLinesLaws(a: seq<Line>, b: seq<Line>, c: seq<Line>)
    ensures MergedLines(MergedLines(a, b), c) == MergedLines(a, MergedLines(b, c))
    ensures MergedLines(a, a) == a <==> Sorted(Num, a)
  {
    MergeAssociates(NumIdent, Num, a, b, c);
    MergeIdempotentExactly(NumIdent, Num, a);
  }

  /** Line numbers never go down along a merged log. */
  lemma MergedLinesInOrder(a: seq<Line>, b: seq<Line>, i: nat, j: nat)
    requires i < j < |MergedLines(a, b)|
    ensures MergedLines(a, b)[i].num <= MergedLines(a, b)[j].num
  {
    SortByIsStable(Num, a + Fresh(NumIdent, Idents(NumIdent, a), b));
    assert Num(MergedLines(a, b)[i]) <= Num(MergedLines(a, b)[j]);
  }

  /** On ascending, consistent lists the merge is commutative and stays ascending. */
  lemma MergedLinesCommute(a: seq<Line>, b: seq<Line>)
    requires Ascending(Num, a) && Ascending(Num, b)
    requires Consistent(Elements(a) + Elements(b))
    ensures MergedLines(a, b) == MergedLines(b, a)
    ensures Ascending(Num, MergedLines(a, b))
  {
    MergeCommutes(NumIdent, Num, a, b);
    MergeIsUnion(NumIdent, Num, a, b);
  }
}
