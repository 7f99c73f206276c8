/**
 A run's server log and the client's view of it: what a cursor covers, what a reply is, and when merging
 lines keeps the client on a prefix of the log.
 */
module LogPositions {
  import opened Options
  import opened RunLog
  import opened StableMerge

  /** The lines strictly after a cursor. */
  function After(log: seq<Line>, c: int): seq<Line> {
    if log == [] then []
    else if log[0].num > c then [log[0]] + After(log[1..], c)
    else After(log[1..], c)
  }

  /** The reply to a request: a missing or non-positive cursor is not sent, which asks for everything. */
  function ReplyTo(log: seq<Line>, since: Option<int>): seq<Line> {
    if since.Some? && since.value > 0 then After(log, since.value) else log
  }

  function LinesOf(held: Option<seq<Line>>): seq<Line> {
    if held.Some? then held.value else []
  }

  /** The held lines after merging a reply. */
  function Received(held: Option<seq<Line>>, reply: seq<Line>): seq<Line> {
    if held.Some? then MergedLines(held.value, reply) else reply
  }

  /** The lines of a reply whose numbers are not held yet: the ones the merge appends. */
  function NewLines(held: Option<seq<Line>>, reply: seq<Line>): seq<Line> {
    Fresh(NumIdent, Idents(NumIdent, LinesOf(held)), reply)
  }

  /** The new lines of a reply are the lines of the log right behind the held ones. */
  ghost predicate Continues(log: seq<Line>, held: Option<seq<Line>>, reply: seq<Line>) {
    LinesOf(held) <= log && NewLines(held, reply) <= log[|LinesOf(held)|..]
  }

  // ---- Positions ----

  ghost predicate GoodLog(log: seq<Line>) {
    Ascending(Num, log) && forall i | 0 <= i < |log| :: log[i].num >= 1
  }

  function UptoOf(log: seq<Line>, since: int, n: nat): (u: nat)
    requires n <= |log|
    ensures u <= n
  {
    if n == 0 then 0
    else if log[n - 1].num <= since then n
    else UptoOf(log, since, n - 1)
  }

  /** How many lines of the log a cursor covers. */
  function Upto(log: seq<Line>, since: Option<int>): (n: nat)
    ensures n <= |log|
  {
    if since.None? then 0 else UptoOf(log, since.value, |log|)
  }

  /** A cursor the client can hold: none, or not beyond the last line. */
  ghost predicate GoodCursor(log: seq<Line>, since: Option<int>) {
    since.Some? ==> since.value >= 1 && log != [] && since.value <= log[|log| - 1].num
  }

  lemma {:induction false} UptoOfSplits(log: seq<Line>, since: int, n: nat)
    requires GoodLog(log) && n <= |log|
    ensures var u := UptoOf(log, since, n);
            (forall i | 0 <= i < u :: log[i].num <= since) &&
            (forall i | u <= i < n :: log[i].num > since)
  {
    if n > 0 && log[n - 1].num > since {
      UptoOfSplits(log, since, n - 1);
    } else if n > 0 {
      assert forall i | 0 <= i < n - 1 :: Num(log[i]) < Num(log[n - 1]);
    }
  }

  lemma UptoSplits(log: seq<Line>, since: Option<int>)
    requires GoodLog(log) && since.Some?
    ensures var u := Upto(log, since);
            (forall i | 0 <= i < u :: log[i].num <= since.value) &&
            (forall i | u <= i < |log| :: log[i].num > since.value)
  {
    UptoOfSplits(log, since.value, |log|);
  }

  lemma {:induction false} AfterIsSuffix(log: seq<Line>, c: int, u: nat)
    requires u <= |log|
    requires forall i | 0 <= i < u :: log[i].num <= c
    requires forall i | u <= i < |log| :: log[i].num > c
    ensures After(log, c) == log[u..]
  {
    if log != [] {
      var rest := log[1..];
      assert forall i | 0 <= i < |rest| :: rest[i] == log[i + 1];
      if u == 0 {
        AfterIsSuffix(rest, c, 0);
        assert log == [log[0]] + rest;
      } else {
        AfterIsSuffix(rest, c, u - 1);
        assert rest[u - 1..] == log[u..];
      }
    }
  }

  /** The reply is exactly the part of the log the cursor does not cover. */
  lemma ReplyIsSuffix(log: seq<Line>, since: Option<int>)
    requires GoodLog(log) && GoodCursor(log, since)
    ensures ReplyTo(log, since) == log[Upto(log, since)..]
  {
    if since.Some? {
      UptoSplits(log, since);
      AfterIsSuffix(log, since.value, Upto(log, since));
    } else {
      assert log[0..] == log;
    }
  }

  lemma {:induction false} UptoOfAppend(log: seq<Line>, line: Line, since: int, n: nat)
    requires n <= |log|
    ensures UptoOf(log + [line], since, n) == UptoOf(log, since, n)
  {
    if n > 0 {
      UptoOfAppend(log, line, since, n - 1);
    }
  }

  /** A cursor covers the same lines after the log grows. */
  lemma UptoAppend(log: seq<Line>, line: Line, since: Option<int>)
    requires GoodCursor(log, since) && (log != [] ==> line.num > log[|log| - 1].num)
    ensures Upto(log + [line], since) == Upto(log, since)
    ensures GoodCursor(log + [line], since)
  {
    if since.Some? {
      UptoOfAppend(log, line, since.value, |log|);
    }
  }

  /** The number of the line at position `b - 1` covers exactly `b` lines. */
  lemma LineCovers(log: seq<Line>, b: nat)
    requires GoodLog(log) && 0 < b <= |log|
    ensures Upto(log, Some(log[b - 1].num)) == b
    ensures GoodCursor(log, Some(log[b - 1].num))
  {
    var since := Some(log[b - 1].num);
    UptoSplits(log, since);
    if b < |log| {
      assert Num(log[b]) > Num(log[b - 1]);
      assert b < |log| - 1 ==> Num(log[|log| - 1]) > Num(log[b]);
    }
  }

  /** The latest number of a slice that ends at position `b` covers exactly `b` lines. */
  lemma LatestCovers(log: seq<Line>, a: nat, b: nat)
    requires GoodLog(log) && a < b <= |log|
    ensures LatestNum(log[a..b]) == Some(log[b - 1].num)
    ensures Upto(log, Some(log[b - 1].num)) == b
    ensures GoodCursor(log, Some(log[b - 1].num))
  {
    LineCovers(log, b);
  }

  lemma SliceAscending(log: seq<Line>, a: nat, b: nat)
    requires GoodLog(log) && a <= b <= |log|
    ensures Ascending(Num, log[a..b])
    ensures Elements(log[a..b]) <= Elements(log)
  {
    var t := log[a..b];
    assert forall i | 0 <= i < |t| :: t[i] == log[a + i];
  }

  /** Merging a reply that starts no later than the held prefix ends gives the longer prefix. */
  lemma MergeExtends(log: seq<Line>, h: nat, a: nat, b: nat)
    requires GoodLog(log) && a <= h <= |log| && a <= b <= |log|
    ensures MergedLines(log[..h], log[a..b]) == log[..if h < b then b else h]
  {
    var x, y, z := log[0..h], log[a..b], log[0..if h < b then b else h];
    SliceAscending(log, 0, h);
    SliceAscending(log, a, b);
    SliceAscending(log, 0, if h < b then b else h);
    KeyedSubset(NumIdent, Num, Elements(x) + Elements(y), Elements(log));
    PrefixUnionSet(log, h, a, b);
    UnionDeterminesMerge(NumIdent, Num, x, y, z);
  }

  lemma PrefixUnionSet(log: seq<Line>, h: nat, a: nat, b: nat)
    requires a <= h <= |log| && a <= b <= |log|
    ensures Elements(log[0..if h < b then b else h]) == Elements(log[0..h]) + Elements(log[a..b])
  {
    forall z ensures z in log[0..if h < b then b else h] <==> z in log[0..h] || z in log[a..b] {
    }
  }

  // ---- Which replies keep a prefix ----

  lemma {:induction false} FreshIsUnseen(seen: set<int>, xs: seq<Line>, z: Line)
    ensures z in Fresh(NumIdent, seen, xs) ==> z in xs && z.num !in seen
    ensures z in xs ==> z.num in seen || exists y :: y in Fresh(NumIdent, seen, xs) && y.num == z.num
    decreases |xs|
  {
    if xs != [] {
      var k := xs[0].num;
      var seen' := if k in seen then seen else seen + {k};
      FreshIsUnseen(seen', xs[1..], z);
      assert xs == [xs[0]] + xs[1..];
      if k !in seen {
        assert xs[0] in Fresh(NumIdent, seen, xs);
        assert forall y | y in Fresh(NumIdent, seen', xs[1..]) :: y in Fresh(NumIdent, seen, xs);
      }
    }
  }

  lemma {:induction false} FreshAscending(seen: set<int>, xs: seq<Line>)
    requires Ascending(Num, xs)
    ensures Ascending(Num, Fresh(NumIdent, seen, xs))
    decreases |xs|
  {
    if xs != [] {
      var rest := xs[1..];
      var seen' := if xs[0].num in seen then seen else seen + {xs[0].num};
      assert Ascending(Num, rest);
      FreshAscending(seen', rest);
      var f := Fresh(NumIdent, seen', rest);
      forall i | 0 <= i < |f| ensures Num(xs[0]) < Num(f[i]) {
        FreshIsUnseen(seen', rest, f[i]);
        var j :| 0 <= j < |rest| && rest[j] == f[i];
        assert rest[j] == xs[j + 1];
      }
    }
  }

  lemma {:induction false} NothingSeen(seen: set<int>, xs: seq<Line>)
    requires Ascending(Num, xs) && forall i | 0 <= i < |xs| :: xs[i].num !in seen
    ensures Fresh(NumIdent, seen, xs) == xs
    decreases |xs|
  {
    if xs != [] {
      var rest := xs[1..];
      forall i | 0 <= i < |rest| ensures rest[i].num !in seen + {xs[0].num} {
        assert rest[i] == xs[i + 1] && Num(xs[0]) < Num(xs[i + 1]);
      }
      NothingSeen(seen + {xs[0].num}, rest);
      assert xs == [xs[0]] + rest;
    }
  }

  lemma SeenNums(xs: seq<Line>, k: int)
    ensures k in Idents(NumIdent, xs) <==> exists i | 0 <= i < |xs| :: xs[i].num == k
  {
    IdentsAre(NumIdent, xs, k);
    assert forall i | 0 <= i < |xs| :: NumIdent(xs[i]) == Some(xs[i].num);
  }

  /** Appending new lines that continue the log leaves nothing to sort. */
  lemma ContinuingAppends(log: seq<Line>, h: seq<Line>, f: seq<Line>)
    requires GoodLog(log) && h <= log && f <= log[|h|..]
    ensures SortBy(Num, h + f) == h + f == log[..|h| + |f|]
  {
    assert h + f == log[..|h| + |f|];
    SliceAscending(log, 0, |h| + |f|);
    assert log[0..|h| + |f|] == h + f;
    SortKeepsSorted(Num, h + f);
  }

  /** If appending and sorting gives a prefix of the log, the appended lines continue it. */
  lemma PrefixContinues(log: seq<Line>, h: seq<Line>, f: seq<Line>)
    requires GoodLog(log) && h <= log && Ascending(Num, f)
    requires forall i, j | 0 <= i < |h| && 0 <= j < |f| :: h[i].num != f[j].num
    requires SortBy(Num, h + f) <= log
    ensures f <= log[|h|..]
  {
    var m := SortBy(Num, h + f);
    SortCounts(Num, h + f);
    var rest := log[|h|..|m|];
    SliceAscending(log, |h|, |m|);
    forall z ensures z in f <==> z in rest {
      SortElements(Num, h + f, z);
      InPrefixRest(log, h, f, m, z);
    }
    AscendingUnique(Num, f, rest);
  }

  lemma InPrefixRest(log: seq<Line>, h: seq<Line>, f: seq<Line>, m: seq<Line>, z: Line)
    requires GoodLog(log) && h <= log && m <= log && |h| <= |m|
    requires forall i, j | 0 <= i < |h| && 0 <= j < |f| :: h[i].num != f[j].num
    requires z in m <==> z in h + f
    ensures z in f <==> z in log[|h|..|m|]
  {
    if z in f {
      var j :| 0 <= j < |f| && f[j] == z;
      var i :| 0 <= i < |m| && m[i] == z;
      forall k | 0 <= k < |h| ensures m[k] != z {
        assert m[k] == log[k] == h[k];
      }
      assert log[|h|..|m|][i - |h|] == z;
    }
    if z in log[|h|..|m|] {
      var i :| |h| <= i < |m| && log[i] == z;
      assert m[i] == z;
      forall k | 0 <= k < |h| ensures h[k] != z {
        assert h[k] == log[k] && Num(log[k]) < Num(log[i]);
      }
    }
  }

  lemma NewLinesFacts(held: Option<seq<Line>>, reply: seq<Line>)
    requires Ascending(Num, reply)
    ensures var h, f := LinesOf(held), NewLines(held, reply);
            && Ascending(Num, f)
            && (forall i, j | 0 <= i < |h| && 0 <= j < |f| :: h[i].num != f[j].num)
            && (held.None? ==> Received(held, reply) == f)
            && (held.Some? ==> Received(held, reply) == SortBy(Num, h + f))
  {
    var h, f := LinesOf(held), NewLines(held, reply);
    var seen := Idents(NumIdent, h);
    FreshAscending(seen, reply);
    forall i, j | 0 <= i < |h| && 0 <= j < |f| ensures h[i].num != f[j].num {
      FreshIsUnseen(seen, reply, f[j]);
      SeenNums(h, h[i].num);
    }
    if held.None? {
      NothingSeen({}, reply);
    }
  }

  /** Merging a reply keeps a prefix of the log exactly when its new lines continue the log. */
  lemma ReceivedPrefixExactly(log: seq<Line>, held: Option<seq<Line>>, reply: seq<Line>)
    requires GoodLog(log) && LinesOf(held) <= log && Ascending(Num, reply)
    ensures Received(held, reply) <= log <==> Continues(log, held, reply)
    ensures Continues(log, held, reply) ==>
              Received(held, reply) == log[..|LinesOf(held)| + |NewLines(held, reply)|]
  {
    var h, f := LinesOf(held), NewLines(held, reply);
    NewLinesFacts(held, reply);
    if f <= log[|h|..] {
      ContinuingAppends(log, h, f);
    } else if held.Some? && SortBy(Num, h + f) <= log {
      PrefixContinues(log, h, f);
    }
    assert log[0..] == log;
  }

  /** Every line of a continuing reply has the number of a line held afterwards. */
  lemma ContinuingNumber(log: seq<Line>, held: Option<seq<Line>>, reply: seq<Line>, z: Line) returns (i: nat)
    requires z in reply && Continues(log, held, reply)
    ensures i < |LinesOf(held)| + |NewLines(held, reply)| <= |log| && log[i].num == z.num
  {
    var h, f := LinesOf(held), NewLines(held, reply);
    var seen := Idents(NumIdent, h);
    FreshIsUnseen(seen, reply, z);
    if z.num in seen {
      SeenNums(h, z.num);
      i :| 0 <= i < |h| && h[i].num == z.num;
    } else {
      var y :| y in f && y.num == z.num;
      var j :| 0 <= j < |f| && f[j] == y;
      i := |h| + j;
      assert log[|h|..][j] == f[j];
    }
  }

  /** After a continuing reply its latest number is that of a held line, so the new cursor is covered. */
  lemma ContinuingCursor(log: seq<Line>, held: Option<seq<Line>>, reply: seq<Line>)
    requires GoodLog(log) && Continues(log, held, reply)
    ensures var c, n := LatestNum(reply), |LinesOf(held)| + |NewLines(held, reply)|;
            GoodCursor(log, c) && Upto(log, c) <= n
  {
    var c := LatestNum(reply);
    if c.Some? {
      var z :| z in reply && z.num == c.value;
      var i := ContinuingNumber(log, held, reply, z);
      LineCovers(log, i + 1);
    }
  }

  /** Lines of the log itself: they continue it exactly when they start no later than the held ones end. */
  lemma SliceContinuesExactly(log: seq<Line>, held: Option<seq<Line>>, u: nat, b: nat)
    requires GoodLog(log) && LinesOf(held) <= log && u <= b <= |log|
    ensures Continues(log, held, log[u..b]) <==> u == b || u <= |LinesOf(held)|
  {
    var h, reply := LinesOf(held), log[u..b];
    SliceAscending(log, u, b);
    ReceivedPrefixExactly(log, held, reply);
    if u == b {
      assert NewLines(held, reply) == [];
    } else if u <= |h| {
      assert h == log[..|h|];
      if held.Some? {
        MergeExtends(log, |h|, u, b);
      }
    } else {
      GapInSlice(log, h, u, b);
      assert NewLines(held, reply) == reply;
      assert reply[0] == log[u] && log[|h|..][0] == log[|h|];
      assert Num(log[|h|]) < Num(log[u]);
    }
  }

  /** Beyond the held lines every line of the log is new. */
  lemma GapInSlice(log: seq<Line>, h: seq<Line>, u: nat, b: nat)
    requires GoodLog(log) && h <= log && |h| < u <= b <= |log|
    ensures Fresh(NumIdent, Idents(NumIdent, h), log[u..b]) == log[u..b]
  {
    var reply, seen := log[u..b], Idents(NumIdent, h);
    SliceAscending(log, u, b);
    forall i | 0 <= i < |reply| ensures reply[i].num !in seen {
      SeenNums(h, reply[i].num);
      forall k | 0 <= k < |h| ensures h[k].num != reply[i].num {
        assert h[k] == log[k] && reply[i] == log[u + i] && Num(log[k]) < Num(log[u + i]);
      }
    }
    NothingSeen(seen, reply);
  }

  /** Every line of a reply has the number of a held line. */
  ghost predicate NumsHeld(held: Option<seq<Line>>, reply: seq<Line>) {
    forall z | z in reply :: exists k | 0 <= k < |LinesOf(held)| :: LinesOf(held)[k].num == z.num
  }

  /** Lines of a log that shares none with this one: they continue it exactly when all their numbers are held. */
  lemma ForeignContinuesExactly(log: seq<Line>, held: Option<seq<Line>>, reply: seq<Line>)
    requires LinesOf(held) <= log && forall z | z in reply :: z !in log
    ensures Continues(log, held, reply) <==> NumsHeld(held, reply)
  {
    var h, f := LinesOf(held), NewLines(held, reply);
    var seen := Idents(NumIdent, h);
    if f != [] {
      FreshIsUnseen(seen, reply, f[0]);
      SeenNums(h, f[0].num);
      assert f[0] in reply && f[0] !in log[|h|..];
    } else {
      forall z | z in reply
        ensures exists k | 0 <= k < |h| :: h[k].num == z.num
      {
        FreshIsUnseen(seen, reply, z);
        SeenNums(h, z.num);
      }
    }
  }
}
