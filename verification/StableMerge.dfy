/**
 What the three tail merges of the dashboard share: append what is new by identity, then sort stably by
 rank. `ident` is the identity used to drop repeats (none means never dropped), `rank` the sort key.
 */
module StableMerge {
  import opened Positions
  import opened Options

  ghost predicate Sorted<T>(rank: T -> int, xs: seq<T>) {
    forall i, j | 0 <= i < j < |xs| :: rank(xs[i]) <= rank(xs[j])
  }

  ghost predicate Ascending<T>(rank: T -> int, xs: seq<T>) {
    forall i, j | 0 <= i < j < |xs| :: rank(xs[i]) < rank(xs[j])
  }

  /** The elements of one rank, in order. */
  function OfRank<T>(rank: T -> int, xs: seq<T>, k: int): seq<T> {
    if xs == [] then []
    else if rank(xs[0]) == k then [xs[0]] + OfRank(rank, xs[1..], k)
    else OfRank(rank, xs[1..], k)
  }

  /** What a stable sort is: ordered, and every rank's elements keep their relative order. */
  ghost predicate IsStableSort<T>(rank: T -> int, xs: seq<T>, ys: seq<T>) {
    Sorted(rank, ys) && forall k :: OfRank(rank, ys, k) == OfRank(rank, xs, k)
  }

  function Insert<T>(rank: T -> int, x: T, ys: seq<T>): seq<T> {
    if ys == [] || rank(x) <= rank(ys[0]) then [x] + ys
    else [ys[0]] + Insert(rank, x, ys[1..])
  }

  function SortBy<T>(rank: T -> int, xs: seq<T>): seq<T> {
    if xs == [] then [] else Insert(rank, xs[0], SortBy(rank, xs[1..]))
  }

  lemma {:induction false} InsertElements<T>(rank: T -> int, x: T, ys: seq<T>, z: T)
    ensures z in Insert(rank, x, ys) <==> z == x || z in ys
  {
    if !(ys == [] || rank(x) <= rank(ys[0])) {
      InsertElements(rank, x, ys[1..], z);
      assert ys == [ys[0]] + ys[1..];
    }
  }

  lemma {:induction false} InsertSorted<T>(rank: T -> int, x: T, ys: seq<T>)
    requires Sorted(rank, ys)
    ensures Sorted(rank, Insert(rank, x, ys))
  {
    if !(ys == [] || rank(x) <= rank(ys[0])) {
      InsertSorted(rank, x, ys[1..]);
      var tail := Insert(rank, x, ys[1..]);
      forall j | 0 <= j < |tail| ensures rank(ys[0]) <= rank(tail[j]) {
        var y := tail[j];
        InsertElements(rank, x, ys[1..], y);
        if y in ys[1..] {
          assert y in ys;
        }
      }
    }
  }

  lemma {:induction false} InsertStable<T>(rank: T -> int, x: T, ys: seq<T>, k: int)
    ensures OfRank(rank, Insert(rank, x, ys), k) == OfRank(rank, [x] + ys, k)
  {
    if !(ys == [] || rank(x) <= rank(ys[0])) {
      InsertStable(rank, x, ys[1..], k);
    }
  }

  lemma {:induction false} SortByIsStable<T>(rank: T -> int, xs: seq<T>)
    ensures IsStableSort(rank, xs, SortBy(rank, xs))
  {
    if xs != [] {
      var rest := SortBy(rank, xs[1..]);
      SortByIsStable(rank, xs[1..]);
      InsertSorted(rank, xs[0], rest);
      forall k ensures OfRank(rank, SortBy(rank, xs), k) == OfRank(rank, xs, k) {
        InsertStable(rank, xs[0], rest, k);
      }
    }
  }

  lemma {:induction false} OfRankEmpty<T>(rank: T -> int, xs: seq<T>, k: int)
    requires forall i | 0 <= i < |xs| :: rank(xs[i]) > k
    ensures OfRank(rank, xs, k) == []
  {
    if xs != [] {
      OfRankEmpty(rank, xs[1..], k);
    }
  }

  lemma HeadHasRank<T>(rank: T -> int, xs: seq<T>, ys: seq<T>)
    requires Sorted(rank, ys) && xs != []
    requires forall k :: OfRank(rank, ys, k) == OfRank(rank, xs, k)
    ensures ys != [] && rank(ys[0]) <= rank(xs[0])
  {
    var k := rank(xs[0]);
    assert OfRank(rank, ys, k) != [];
    if ys != [] && rank(ys[0]) > k {
      OfRankEmpty(rank, ys, k);
    }
  }

  /** The stable sort of a list is unique, so whatever algorithm `sort` uses gives this result. */
  lemma {:induction false} StableSortUnique<T>(rank: T -> int, xs: seq<T>, ys: seq<T>)
    requires Sorted(rank, xs) && Sorted(rank, ys)
    requires forall k :: OfRank(rank, xs, k) == OfRank(rank, ys, k)
    ensures xs == ys
  {
    if xs == [] {
      if ys != [] {
        HeadHasRank(rank, ys, xs);
      }
    } else {
      HeadHasRank(rank, xs, ys);
      HeadHasRank(rank, ys, xs);
      var k0 := rank(xs[0]);
      assert OfRank(rank, xs, k0)[0] == xs[0] && OfRank(rank, ys, k0)[0] == ys[0];
      forall k ensures OfRank(rank, xs[1..], k) == OfRank(rank, ys[1..], k) {
        var a, b := OfRank(rank, xs, k), OfRank(rank, ys, k);
        assert rank(xs[0]) == k ==> a[1..] == OfRank(rank, xs[1..], k) && b[1..] == OfRank(rank, ys[1..], k);
      }
      StableSortUnique(rank, xs[1..], ys[1..]);
      assert xs == [xs[0]] + xs[1..] && ys == [ys[0]] + ys[1..];
    }
  }

  // ---- Dropping repeats ----

  /** The elements whose identity is not yet seen, each identity once. */
  function Fresh<T, K(==)>(ident: T -> Option<K>, seen: set<K>, xs: seq<T>): seq<T>
    decreases |xs|
  {
    if xs == [] then []
    else match ident(xs[0])
      case None => [xs[0]] + Fresh(ident, seen, xs[1..])
      case Some(k) =>
        if k in seen then Fresh(ident, seen, xs[1..])
        else [xs[0]] + Fresh(ident, seen + {k}, xs[1..])
  }

  function Idents<T, K(==)>(ident: T -> Option<K>, xs: seq<T>): set<K> {
    if xs == [] then {}
    else Idents(ident, xs[1..]) + (match ident(xs[0]) case None => {} case Some(k) => {k})
  }

  function Merge<T, K(==)>(ident: T -> Option<K>, rank: T -> int, existing: seq<T>, incoming: seq<T>): seq<T> {
    SortBy(rank, existing + Fresh(ident, Idents(ident, existing), incoming))
  }

  lemma {:induction false} IdentsAre<T, K>(ident: T -> Option<K>, xs: seq<T>, k: K)
    ensures k in Idents(ident, xs) <==> exists i | 0 <= i < |xs| :: ident(xs[i]) == Some(k)
  {
    if xs != [] {
      IdentsAre(ident, xs[1..], k);
      if i :| 0 <= i < |xs| && ident(xs[i]) == Some(k) {
        assert i == 0 || xs[1..][i - 1] == xs[i];
      }
    }
  }

  lemma {:induction false} IdentsConcat<T, K>(ident: T -> Option<K>, xs: seq<T>, x: T)
    ensures Idents(ident, xs + [x]) ==
            Idents(ident, xs) + (match ident(x) case None => {} case Some(k) => {k})
  {
    if xs == [] {
      assert [] + [x] == [x] && [x][1..] == [];
    } else {
      IdentsConcat(ident, xs[1..], x);
      assert (xs + [x])[1..] == xs[1..] + [x];
    }
  }

  /** A loop that has handled a prefix continues with what is seen so far. */
  lemma {:induction false} FreshConcat<T, K>(ident: T -> Option<K>, seen: set<K>, a: seq<T>, b: seq<T>)
    ensures Fresh(ident, seen, a + b) == Fresh(ident, seen, a) + Fresh(ident, seen + Idents(ident, a), b)
    decreases |a|
  {
    if a == [] {
      assert a + b == b && seen + Idents(ident, a) == seen;
    } else {
      assert (a + b)[1..] == a[1..] + b;
      match ident(a[0])
      case None =>
        FreshConcat(ident, seen, a[1..], b);
        assert Idents(ident, a) == Idents(ident, a[1..]);
        assert [a[0]] + (Fresh(ident, seen, a[1..]) + Fresh(ident, seen + Idents(ident, a), b)) ==
               Fresh(ident, seen, a) + Fresh(ident, seen + Idents(ident, a), b);
      case Some(k) =>
        var seen' := if k in seen then seen else seen + {k};
        FreshConcat(ident, seen', a[1..], b);
        assert seen' + Idents(ident, a[1..]) == seen + Idents(ident, a);
    }
  }

  lemma {:induction false} SortElements<T>(rank: T -> int, xs: seq<T>, z: T)
    ensures z in SortBy(rank, xs) <==> z in xs
  {
    if xs != [] {
      SortElements(rank, xs[1..], z);
      InsertElements(rank, xs[0], SortBy(rank, xs[1..]), z);
      assert xs == [xs[0]] + xs[1..];
    }
  }

  // ---- The merge as a join ----

  /** Equal identity or equal rank means the same element, and every element has an identity. */
  ghost predicate Keyed<T(!new), K(!new)>(ident: T -> Option<K>, rank: T -> int, s: iset<T>) {
    && (forall x | x in s :: ident(x).Some?)
    && (forall x, y | x in s && y in s && ident(x) == ident(y) :: x == y)
    && (forall x, y | x in s && y in s && rank(x) == rank(y) :: x == y)
  }

  ghost predicate Distinct<T>(rank: T -> int, xs: seq<T>) {
    forall i, j | 0 <= i < j < |xs| :: rank(xs[i]) != rank(xs[j])
  }

  lemma {:induction false} SortDistinct<T>(rank: T -> int, xs: seq<T>)
    requires Distinct(rank, xs)
    ensures Ascending(rank, SortBy(rank, xs))
  {
    if xs != [] {
      SortDistinct(rank, xs[1..]);
      forall y | y in SortBy(rank, xs[1..]) ensures rank(y) != rank(xs[0]) {
        SortElements(rank, xs[1..], y);
        var i :| 0 <= i < |xs[1..]| && xs[1..][i] == y;
        assert xs[i + 1] == y;
      }
      InsertAscending(rank, xs[0], SortBy(rank, xs[1..]));
    }
  }

  lemma {:induction false} InsertAscending<T>(rank: T -> int, x: T, ys: seq<T>)
    requires Ascending(rank, ys) && forall y | y in ys :: rank(y) != rank(x)
    ensures Ascending(rank, Insert(rank, x, ys))
  {
    if ys == [] || rank(x) <= rank(ys[0]) {
      assert forall i | 0 <= i < |ys| :: ys[i] in ys;
    } else {
      InsertAscending(rank, x, ys[1..]);
      var tail := Insert(rank, x, ys[1..]);
      forall j | 0 <= j < |tail| ensures rank(ys[0]) < rank(tail[j]) {
        var y := tail[j];
        InsertElements(rank, x, ys[1..], y);
        if y in ys[1..] {
          assert y in ys;
          TailElements(rank, ys, y);
        }
      }
    }
  }

  /** Two strictly ascending lists with the same elements are the same list. */
  lemma {:induction false} AscendingUnique<T>(rank: T -> int, xs: seq<T>, ys: seq<T>)
    requires Ascending(rank, xs) && Ascending(rank, ys)
    requires forall z :: z in xs <==> z in ys
    ensures xs == ys
  {
    if xs != [] {
      assert xs[0] in ys;
    }
    if ys != [] {
      assert ys[0] in xs;
      assert rank(xs[0]) == rank(ys[0]);
      assert xs[0] == ys[0];
      forall z ensures z in xs[1..] <==> z in ys[1..] {
        TailElements(rank, xs, z);
        TailElements(rank, ys, z);
      }
      AscendingUnique(rank, xs[1..], ys[1..]);
      assert xs == [xs[0]] + xs[1..] && ys == [ys[0]] + ys[1..];
    }
  }

  lemma TailElements<T>(rank: T -> int, xs: seq<T>, z: T)
    requires xs != [] && Ascending(rank, xs)
    ensures z in xs[1..] <==> z in xs && rank(z) != rank(xs[0])
  {
    assert xs == [xs[0]] + xs[1..];
    if z in xs[1..] {
      var i :| 0 <= i < |xs[1..]| && xs[1..][i] == z;
      assert xs[i + 1] == z;
    }
  }

  ghost function Elements<T>(xs: seq<T>): iset<T> {
    iset z | z in xs
  }

  lemma {:induction false} FreshElements<T(!new), K(!new)>(
      ident: T -> Option<K>, rank: T -> int, seen: set<K>, xs: seq<T>)
    requires Keyed(ident, rank, Elements(xs)) && Distinct(rank, xs)
    ensures forall z :: z in Fresh(ident, seen, xs) <==> z in xs && ident(z).value !in seen
    ensures Distinct(rank, Fresh(ident, seen, xs))
    decreases |xs|
  {
    if xs != [] {
      var x, rest := xs[0], xs[1..];
      assert xs == [x] + rest;
      var k := ident(x).value;
      var seen' := if k in seen then seen else seen + {k};
      FreshElements(ident, rank, seen', rest);
      var f := Fresh(ident, seen', rest);
      assert forall j | 0 <= j < |f| :: f[j] in rest;
    }
  }

  /** Merging strictly ascending, key-consistent lists is their ordered union. */
  lemma MergeIsUnion<T(!new), K(!new)>(ident: T -> Option<K>, rank: T -> int, a: seq<T>, b: seq<T>)
    requires Ascending(rank, a) && Ascending(rank, b)
    requires Keyed(ident, rank, Elements(a) + Elements(b))
    ensures Ascending(rank, Merge(ident, rank, a, b))
    ensures Elements(Merge(ident, rank, a, b)) == Elements(a) + Elements(b)
  {
    var seen := Idents(ident, a);
    var news := Fresh(ident, seen, b);
    FreshElements(ident, rank, seen, b);
    forall z | z in b ensures ident(z).value in seen <==> z in a {
      IdentsAre(ident, a, ident(z).value);
      assert z in Elements(b);
      if i :| 0 <= i < |a| && ident(a[i]) == ident(z) {
        assert a[i] in Elements(a);
      }
    }
    forall i, j | 0 <= i < |a| && 0 <= j < |news| ensures rank(a[i]) != rank(news[j]) {
      assert news[j] in b && news[j] !in a;
      assert a[i] in Elements(a) && news[j] in Elements(b);
    }
    SortDistinct(rank, a + news);
    var m := Merge(ident, rank, a, b);
    forall z ensures z in Elements(m) <==> z in Elements(a) + Elements(b) {
      SortElements(rank, a + news, z);
    }
  }

  lemma UnionDeterminesMerge<T(!new), K(!new)>(
      ident: T -> Option<K>, rank: T -> int, a: seq<T>, b: seq<T>, c: seq<T>)
    requires Ascending(rank, a) && Ascending(rank, b) && Ascending(rank, c)
    requires Keyed(ident, rank, Elements(a) + Elements(b))
    requires Elements(c) == Elements(a) + Elements(b)
    ensures Merge(ident, rank, a, b) == c
  {
    MergeIsUnion(ident, rank, a, b);
    var m := Merge(ident, rank, a, b);
    forall z ensures z in m <==> z in c {
      assert z in Elements(m) <==> z in Elements(c);
    }
    AscendingUnique(rank, m, c);
  }

  lemma MergeCommutes<T(!new), K(!new)>(ident: T -> Option<K>, rank: T -> int, a: seq<T>, b: seq<T>)
    requires Ascending(rank, a) && Ascending(rank, b)
    requires Keyed(ident, rank, Elements(a) + Elements(b))
    ensures Merge(ident, rank, a, b) == Merge(ident, rank, b, a)
  {
    MergeIsUnion(ident, rank, a, b);
    assert Elements(b) + Elements(a) == Elements(a) + Elements(b);
    UnionDeterminesMerge(ident, rank, b, a, Merge(ident, rank, a, b));
  }

  lemma KeyedSubset<T(!new), K(!new)>(ident: T -> Option<K>, rank: T -> int, s: iset<T>, t: iset<T>)
    requires Keyed(ident, rank, t) && s <= t
    ensures Keyed(ident, rank, s)
  {
  }

  // ---- Laws on every list ----

  /** The rank is a function of the identity, so elements of one identity keep their order when sorted. */
  ghost predicate RankByIdent<T(!new), K(!new)>(ident: T -> Option<K>, rank: T -> int) {
    forall x, y :: ident(x) == ident(y) ==> rank(x) == rank(y)
  }

  lemma {:induction false} OfRankConcat<T>(rank: T -> int, a: seq<T>, b: seq<T>, k: int)
    ensures OfRank(rank, a + b, k) == OfRank(rank, a, k) + OfRank(rank, b, k)
  {
    if a == [] {
      assert a + b == b;
    } else {
      assert (a + b)[1..] == a[1..] + b;
      OfRankConcat(rank, a[1..], b, k);
    }
  }

  lemma {:induction false} OfRankMembers<T>(rank: T -> int, xs: seq<T>, k: int, x: T)
    ensures x in OfRank(rank, xs, k) ==> rank(x) == k
  {
    if xs != [] {
      OfRankMembers(rank, xs[1..], k, x);
    }
  }

  lemma {:induction false} IdentsAppend<T, K>(ident: T -> Option<K>, a: seq<T>, b: seq<T>)
    ensures Idents(ident, a + b) == Idents(ident, a) + Idents(ident, b)
  {
    if a == [] {
      assert a + b == b;
    } else {
      assert (a + b)[1..] == a[1..] + b;
      IdentsAppend(ident, a[1..], b);
    }
  }

  lemma {:induction false} IdentsOfInsert<T, K>(ident: T -> Option<K>, rank: T -> int, x: T, ys: seq<T>)
    ensures Idents(ident, Insert(rank, x, ys)) == Idents(ident, [x] + ys)
  {
    if !(ys == [] || rank(x) <= rank(ys[0])) {
      IdentsOfInsert(ident, rank, x, ys[1..]);
      assert ys == [ys[0]] + ys[1..];
      IdentsAppend(ident, [ys[0]], Insert(rank, x, ys[1..]));
      IdentsAppend(ident, [x], ys[1..]);
      IdentsAppend(ident, [ys[0]], ys[1..]);
      IdentsAppend(ident, [x], ys);
    }
  }

  lemma {:induction false} IdentsOfSort<T, K>(ident: T -> Option<K>, rank: T -> int, xs: seq<T>)
    ensures Idents(ident, SortBy(rank, xs)) == Idents(ident, xs)
  {
    if xs != [] {
      var rest := SortBy(rank, xs[1..]);
      IdentsOfSort(ident, rank, xs[1..]);
      IdentsOfInsert(ident, rank, xs[0], rest);
      assert ([xs[0]] + rest)[1..] == rest;
    }
  }

  lemma {:induction false} IdentsOfFresh<T, K>(ident: T -> Option<K>, seen: set<K>, xs: seq<T>)
    ensures seen + Idents(ident, Fresh(ident, seen, xs)) == seen + Idents(ident, xs)
    decreases |xs|
  {
    if xs != [] {
      match ident(xs[0])
      case None =>
        IdentsOfFresh(ident, seen, xs[1..]);
        assert ([xs[0]] + Fresh(ident, seen, xs[1..]))[1..] == Fresh(ident, seen, xs[1..]);
      case Some(k) =>
        var seen' := if k in seen then seen else seen + {k};
        var f := Fresh(ident, seen', xs[1..]);
        IdentsOfFresh(ident, seen', xs[1..]);
        assert ([xs[0]] + f)[1..] == f;
    }
  }

  lemma IdentsOfMerge<T, K>(ident: T -> Option<K>, rank: T -> int, a: seq<T>, b: seq<T>)
    ensures Idents(ident, Merge(ident, rank, a, b)) == Idents(ident, a) + Idents(ident, b)
  {
    var f := Fresh(ident, Idents(ident, a), b);
    IdentsOfSort(ident, rank, a + f);
    IdentsAppend(ident, a, f);
    IdentsOfFresh(ident, Idents(ident, a), b);
  }

  /** An identity that does not occur may be seen or not. */
  lemma {:induction false} FreshIgnores<T, K>(ident: T -> Option<K>, seen: set<K>, k: K, xs: seq<T>)
    requires forall i | 0 <= i < |xs| :: ident(xs[i]) != Some(k)
    ensures Fresh(ident, seen + {k}, xs) == Fresh(ident, seen, xs)
    decreases |xs|
  {
    if xs != [] {
      match ident(xs[0])
      case None => FreshIgnores(ident, seen, k, xs[1..]);
      case Some(j) =>
        if j in seen {
          FreshIgnores(ident, seen, k, xs[1..]);
        } else {
          assert seen + {k} + {j} == seen + {j} + {k};
          FreshIgnores(ident, seen + {j}, k, xs[1..]);
        }
    }
  }

  /** Dropping repeats within one rank is dropping repeats and taking that rank. */
  lemma {:induction false} FreshOfRank<T(!new), K(!new)>(
      ident: T -> Option<K>, rank: T -> int, seen: set<K>, xs: seq<T>, r: int)
    requires RankByIdent(ident, rank)
    ensures Fresh(ident, seen, OfRank(rank, xs, r)) == OfRank(rank, Fresh(ident, seen, xs), r)
    decreases |xs|
  {
    if xs != [] {
      var x, rest := xs[0], xs[1..];
      var seen' := match ident(x) case None => seen case Some(k) => seen + {k};
      FreshOfRank(ident, rank, seen, rest, r);
      FreshOfRank(ident, rank, seen', rest, r);
      if rank(x) == r {
        assert ([x] + OfRank(rank, rest, r))[1..] == OfRank(rank, rest, r);
      } else if ident(x).Some? {
        var same := OfRank(rank, rest, r);
        forall i | 0 <= i < |same| ensures ident(same[i]) != ident(x) {
          OfRankMembers(rank, rest, r, same[i]);
        }
        FreshIgnores(ident, seen, ident(x).value, same);
      }
    }
  }

  /** Dropping repeats after sorting keeps, in every rank, what dropping them before sorting keeps. */
  lemma FreshOfSort<T(!new), K(!new)>(
      ident: T -> Option<K>, rank: T -> int, seen: set<K>, xs: seq<T>, r: int)
    requires RankByIdent(ident, rank)
    ensures OfRank(rank, Fresh(ident, seen, SortBy(rank, xs)), r) == OfRank(rank, Fresh(ident, seen, xs), r)
  {
    SortByIsStable(rank, xs);
    FreshOfRank(ident, rank, seen, SortBy(rank, xs), r);
    FreshOfRank(ident, rank, seen, xs, r);
  }

  /** What was dropped once need not be dropped again. */
  lemma {:induction false} FreshTwice<T, K>(ident: T -> Option<K>, seen: set<K>, less: set<K>, xs: seq<T>)
    requires less <= seen
    ensures Fresh(ident, seen, Fresh(ident, less, xs)) == Fresh(ident, seen, xs)
    decreases |xs|
  {
    if xs != [] {
      var x, rest := xs[0], xs[1..];
      match ident(x)
      case None =>
        FreshTwice(ident, seen, less, rest);
        assert ([x] + Fresh(ident, less, rest))[1..] == Fresh(ident, less, rest);
      case Some(k) =>
        var less' := if k in less then less else less + {k};
        FreshTwice(ident, if k in seen then seen else seen + {k}, less', rest);
        assert ([x] + Fresh(ident, less', rest))[1..] == Fresh(ident, less', rest);
    }
  }

  /** One rank of a merge: the held elements of that rank, then the new ones. */
  lemma MergeOfRank<T, K>(ident: T -> Option<K>, rank: T -> int, a: seq<T>, b: seq<T>, r: int)
    ensures OfRank(rank, Merge(ident, rank, a, b), r) ==
            OfRank(rank, a, r) + OfRank(rank, Fresh(ident, Idents(ident, a), b), r)
    ensures Sorted(rank, Merge(ident, rank, a, b))
  {
    var f := Fresh(ident, Idents(ident, a), b);
    SortByIsStable(rank, a + f);
    OfRankConcat(rank, a, f, r);
  }

  /** What a right-nested merge adds behind the held elements of one rank. */
  lemma FreshOfMerge<T(!new), K(!new)>(
      ident: T -> Option<K>, rank: T -> int, ia: set<K>, b: seq<T>, c: seq<T>, r: int)
    requires RankByIdent(ident, rank)
    ensures OfRank(rank, Fresh(ident, ia, Merge(ident, rank, b, c)), r) ==
            OfRank(rank, Fresh(ident, ia, b), r) + OfRank(rank, Fresh(ident, ia + Idents(ident, b), c), r)
  {
    var ib := Idents(ident, b);
    FreshOfSort(ident, rank, ia, b + Fresh(ident, ib, c), r);
    FreshConcat(ident, ia, b, Fresh(ident, ib, c));
    FreshTwice(ident, ia + ib, ib, c);
    OfRankConcat(rank, Fresh(ident, ia, b), Fresh(ident, ia + ib, c), r);
  }

  lemma MergeAssociatesAt<T(!new), K(!new)>(
      ident: T -> Option<K>, rank: T -> int, a: seq<T>, b: seq<T>, c: seq<T>, r: int)
    requires RankByIdent(ident, rank)
    ensures OfRank(rank, Merge(ident, rank, Merge(ident, rank, a, b), c), r) ==
            OfRank(rank, Merge(ident, rank, a, Merge(ident, rank, b, c)), r)
  {
    var ab, bc, ia := Merge(ident, rank, a, b), Merge(ident, rank, b, c), Idents(ident, a);
    MergeOfRank(ident, rank, ab, c, r);
    MergeOfRank(ident, rank, a, b, r);
    IdentsOfMerge(ident, rank, a, b);
    MergeOfRank(ident, rank, a, bc, r);
    FreshOfMerge(ident, rank, ia, b, c, r);
    Regroup(
      OfRank(rank, a, r), OfRank(rank, Fresh(ident, ia, b), r),
      OfRank(rank, Fresh(ident, Idents(ident, ab), c), r));
  }

  lemma Regroup<T>(a: seq<T>, b: seq<T>, c: seq<T>)
    ensures (a + b) + c == a + (b + c)
  {
  }

  /** The merge is associative on all lists, in whatever order and with whatever repeats they come. */
  lemma MergeAssociates<T(!new), K(!new)>(
      ident: T -> Option<K>, rank: T -> int, a: seq<T>, b: seq<T>, c: seq<T>)
    requires RankByIdent(ident, rank)
    ensures Merge(ident, rank, Merge(ident, rank, a, b), c) == Merge(ident, rank, a, Merge(ident, rank, b, c))
  {
    var left := Merge(ident, rank, Merge(ident, rank, a, b), c);
    var right := Merge(ident, rank, a, Merge(ident, rank, b, c));
    MergeOfRank(ident, rank, Merge(ident, rank, a, b), c, 0);
    MergeOfRank(ident, rank, a, Merge(ident, rank, b, c), 0);
    forall r ensures OfRank(rank, left, r) == OfRank(rank, right, r) {
      MergeAssociatesAt(ident, rank, a, b, c, r);
    }
    StableSortUnique(rank, left, right);
  }

  lemma {:induction false} SortKeepsSorted<T>(rank: T -> int, xs: seq<T>)
    ensures SortBy(rank, xs) == xs <==> Sorted(rank, xs)
  {
    SortByIsStable(rank, xs);
    if Sorted(rank, xs) {
      StableSortUnique(rank, SortBy(rank, xs), xs);
    }
  }

  lemma {:induction false} InsertCounts<T>(rank: T -> int, x: T, ys: seq<T>)
    ensures multiset(Insert(rank, x, ys)) == multiset{x} + multiset(ys)
  {
    if !(ys == [] || rank(x) <= rank(ys[0])) {
      InsertCounts(rank, x, ys[1..]);
      assert ys == [ys[0]] + ys[1..];
    }
  }

  /** Sorting permutes. */
  lemma {:induction false} SortCounts<T>(rank: T -> int, xs: seq<T>)
    ensures multiset(SortBy(rank, xs)) == multiset(xs)
    ensures |SortBy(rank, xs)| == |xs|
  {
    if xs != [] {
      SortCounts(rank, xs[1..]);
      InsertCounts(rank, xs[0], SortBy(rank, xs[1..]));
      assert xs == [xs[0]] + xs[1..];
    }
    assert |multiset(SortBy(rank, xs))| == |multiset(xs)|;
  }

  ghost predicate AllIdentified<T, K>(ident: T -> Option<K>, xs: seq<T>) {
    forall i | 0 <= i < |xs| :: ident(xs[i]).Some?
  }

  lemma {:induction false} FreshOfKnown<T, K>(ident: T -> Option<K>, seen: set<K>, xs: seq<T>)
    requires Idents(ident, xs) <= seen
    ensures Fresh(ident, seen, xs) == [] <==> AllIdentified(ident, xs)
    decreases |xs|
  {
    if xs != [] {
      FreshOfKnown(ident, seen, xs[1..]);
      if AllIdentified(ident, xs[1..]) && ident(xs[0]).Some? {
        assert forall i | 1 <= i < |xs| :: xs[i] == xs[1..][i - 1];
      }
      if AllIdentified(ident, xs) {
        assert forall i | 0 <= i < |xs[1..]| :: xs[1..][i] == xs[i + 1];
      }
    }
  }

  /** Merging a list into itself gives it back exactly when it is sorted and holds nothing without an identity. */
  lemma MergeIdempotentExactly<T, K>(ident: T -> Option<K>, rank: T -> int, a: seq<T>)
    ensures Merge(ident, rank, a, a) == a <==> Sorted(rank, a) && AllIdentified(ident, a)
  {
    var f := Fresh(ident, Idents(ident, a), a);
    FreshOfKnown(ident, Idents(ident, a), a);
    SortCounts(rank, a + f);
    if f == [] {
      assert a + f == a;
      SortKeepsSorted(rank, a);
    } else {
      assert |Merge(ident, rank, a, a)| > |a|;
    }
  }

  // ---- The transcript tails: an empty reply keeps the held list as it is ----

  function TailMerge<T, K(==)>(ident: T -> Option<K>, rank: T -> int, held: seq<T>, tail: seq<T>): seq<T> {
    if tail == [] then held else Merge(ident, rank, held, tail)
  }

  lemma MergeIntoSorted<T(!new), K(!new)>(ident: T -> Option<K>, rank: T -> int, a: seq<T>, c: seq<T>)
    ensures Merge(ident, rank, SortBy(rank, a), c) == Merge(ident, rank, a, c)
  {
    var s := SortBy(rank, a);
    IdentsOfSort(ident, rank, a);
    SortByIsStable(rank, a);
    var left, right := Merge(ident, rank, s, c), Merge(ident, rank, a, c);
    MergeOfRank(ident, rank, s, c, 0);
    MergeOfRank(ident, rank, a, c, 0);
    forall r ensures OfRank(rank, left, r) == OfRank(rank, right, r) {
      MergeOfRank(ident, rank, s, c, r);
      MergeOfRank(ident, rank, a, c, r);
    }
    StableSortUnique(rank, left, right);
  }

  /** With the early return too, merging tails is associative on all lists. */
  lemma TailMergeAssociates<T(!new), K(!new)>(
      ident: T -> Option<K>, rank: T -> int, a: seq<T>, b: seq<T>, c: seq<T>)
    requires RankByIdent(ident, rank)
    ensures TailMerge(ident, rank, TailMerge(ident, rank, a, b), c) ==
            TailMerge(ident, rank, a, TailMerge(ident, rank, b, c))
  {
    if c != [] {
      MergeAssociates(ident, rank, a, b, c);
      if b == [] {
        assert a + Fresh(ident, Idents(ident, a), b) == a;
        MergeIntoSorted(ident, rank, a, c);
      }
    }
  }

  lemma TailMergeIdempotentExactly<T, K>(ident: T -> Option<K>, rank: T -> int, a: seq<T>)
    ensures TailMerge(ident, rank, a, a) == a <==> Sorted(rank, a) && AllIdentified(ident, a)
  {
    MergeIdempotentExactly(ident, rank, a);
  }

  lemma MergeNothing<T, K>(ident: T -> Option<K>, rank: T -> int, a: seq<T>)
    requires Sorted(rank, a)
    ensures Merge(ident, rank, a, []) == a
  {
    assert a + Fresh(ident, Idents(ident, a), []) == a;
    SortKeepsSorted(rank, a);
  }

  lemma TailMergeCommutes<T(!new), K(!new)>(ident: T -> Option<K>, rank: T -> int, a: seq<T>, b: seq<T>)
    requires Ascending(rank, a) && Ascending(rank, b)
    requires Keyed(ident, rank, Elements(a) + Elements(b))
    ensures TailMerge(ident, rank, a, b) == TailMerge(ident, rank, b, a)
  {
    MergeNothing(ident, rank, a);
    MergeNothing(ident, rank, b);
    MergeCommutes(ident, rank, a, b);
  }

  // ---- Elements without a rank of their own go last ----

  function Below<T>(rank: T -> int, top: int, xs: seq<T>): seq<T> {
    if xs == [] then []
    else if rank(xs[0]) < top then [xs[0]] + Below(rank, top, xs[1..])
    else Below(rank, top, xs[1..])
  }

  lemma {:induction false} InsertBelow<T>(rank: T -> int, x: T, ys: seq<T>, zs: seq<T>)
    requires forall z | z in zs :: rank(x) < rank(z)
    ensures Insert(rank, x, ys + zs) == Insert(rank, x, ys) + zs
  {
    if ys == [] {
      assert ys + zs == zs;
    } else {
      var y, rest := ys[0], ys[1..];
      assert (ys + zs)[0] == y && (ys + zs)[1..] == rest + zs;
      if rank(x) <= rank(y) {
        Regroup([x], ys, zs);
      } else {
        InsertBelow(rank, x, rest, zs);
        Regroup([y], Insert(rank, x, rest), zs);
      }
    }
  }

  lemma {:induction false} InsertAtTop<T>(rank: T -> int, x: T, ys: seq<T>, zs: seq<T>)
    requires forall y | y in ys :: rank(y) < rank(x)
    requires forall z | z in zs :: rank(x) <= rank(z)
    ensures Insert(rank, x, ys + zs) == ys + ([x] + zs)
  {
    if ys == [] {
      assert ys + zs == zs;
    } else {
      assert (ys + zs)[0] == ys[0] && (ys + zs)[1..] == ys[1..] + zs;
      InsertAtTop(rank, x, ys[1..], zs);
      Regroup([ys[0]], ys[1..], [x] + zs);
      assert ys == [ys[0]] + ys[1..];
    }
  }

  lemma {:induction false} BelowElements<T>(rank: T -> int, top: int, xs: seq<T>)
    ensures forall x | x in Below(rank, top, xs) :: rank(x) < top
    ensures forall x | x in OfRank(rank, xs, top) :: rank(x) == top
  {
    if xs != [] {
      BelowElements(rank, top, xs[1..]);
    }
  }

  /** With no rank above `top`, the elements of rank `top` keep their order behind all the others. */
  lemma {:induction false} TopGoesLast<T>(rank: T -> int, top: int, xs: seq<T>)
    requires forall x | x in xs :: rank(x) <= top
    ensures SortBy(rank, xs) == SortBy(rank, Below(rank, top, xs)) + OfRank(rank, xs, top)
  {
    if xs != [] {
      var rest := xs[1..];
      TopGoesLast(rank, top, rest);
      var low, high := SortBy(rank, Below(rank, top, rest)), OfRank(rank, rest, top);
      BelowElements(rank, top, rest);
      forall y | y in low ensures rank(y) < top {
        SortElements(rank, Below(rank, top, rest), y);
      }
      if rank(xs[0]) == top {
        InsertAtTop(rank, xs[0], low, high);
      } else {
        InsertBelow(rank, xs[0], low, high);
        assert ([xs[0]] + Below(rank, top, rest))[1..] == Below(rank, top, rest);
      }
    }
  }

  /** Dropping repeats adds nothing. */
  lemma {:induction false} FreshListed<T, K>(ident: T -> Option<K>, seen: set<K>, xs: seq<T>, z: T)
    ensures z in Fresh(ident, seen, xs) ==> z in xs
    decreases |xs|
  {
    if xs != [] {
      assert xs == [xs[0]] + xs[1..];
      match ident(xs[0])
      case None => FreshListed(ident, seen, xs[1..], z);
      case Some(k) => FreshListed(ident, if k in seen then seen else seen + {k}, xs[1..], z);
    }
  }

  // ---- The merge, said outright ----

  /** Of the first `h` elements all are kept; of the others those without an identity or with a new one. */
  ghost predicate KeptHere<T, K>(ident: T -> Option<K>, all: seq<T>, h: nat, p: int) {
    && 0 <= p < |all|
    && (p < h || ident(all[p]).None? || forall q | 0 <= q < p :: ident(all[q]) != ident(all[p]))
  }

  lemma KeptExactly<T, K>(ident: T -> Option<K>, all: seq<T>, h: nat, p: nat)
    requires h <= p < |all|
    ensures KeptHere(ident, all, h, p) <==> ident(all[p]).None? || ident(all[p]).value !in Idents(ident, all[..p])
  {
    if ident(all[p]).Some? {
      IdentsAre(ident, all[..p], ident(all[p]).value);
      assert forall q | 0 <= q < p :: all[..p][q] == all[q];
    }
  }

  lemma SeenNext<T, K>(ident: T -> Option<K>, all: seq<T>, p: nat)
    requires p < |all|
    ensures Idents(ident, all[..p + 1]) ==
            Idents(ident, all[..p]) + (match ident(all[p]) case None => {} case Some(k) => {k})
  {
    assert all[..p + 1] == all[..p] + [all[p]];
    IdentsConcat(ident, all[..p], all[p]);
  }

  /** One step of dropping repeats. */
  lemma FreshNext<T, K>(ident: T -> Option<K>, all: seq<T>, p: nat)
    requires p < |all|
    ensures var rest := Fresh(ident, Idents(ident, all[..p + 1]), all[p + 1..]);
            var keeps := ident(all[p]).None? || ident(all[p]).value !in Idents(ident, all[..p]);
            Fresh(ident, Idents(ident, all[..p]), all[p..]) == if keeps then [all[p]] + rest else rest
  {
    var seen := Idents(ident, all[..p]);
    SeenNext(ident, all, p);
    assert all[p..][0] == all[p] && all[p..][1..] == all[p + 1..];
    if ident(all[p]).None? {
      assert Idents(ident, all[..p + 1]) == seen;
    } else if ident(all[p]).value in seen {
      assert Idents(ident, all[..p + 1]) == seen;
    }
  }

  lemma {:induction false} FreshFrom<T(!new), K(!new)>(
      ident: T -> Option<K>, all: seq<T>, h: nat, of: nat -> bool, p: nat) returns (index: seq<nat>)
    requires h <= p <= |all| && forall i: nat :: of(i) <==> KeptHere(ident, all, h, i)
    ensures Lists(index, p, of) && Reads(all, index, Fresh(ident, Idents(ident, all[..p]), all[p..]))
    decreases |all| - p
  {
    if p == |all| {
      index := [];
    } else {
      var tail := FreshFrom(ident, all, h, of, p + 1);
      KeptExactly(ident, all, h, p);
      FreshNext(ident, all, p);
      ListsNext(tail, p, of);
      ReadsNext(all, tail, Fresh(ident, Idents(ident, all[..p + 1]), all[p + 1..]), p);
      index := if of(p) then [p] + tail else tail;
    }
  }

  lemma {:induction false} HeldFrom<T(!new)>(
      all: seq<T>, h: nat, f: seq<T>, of: nat -> bool, tail: seq<nat>, p: nat) returns (index: seq<nat>)
    requires p <= h <= |all| && forall i: nat | i < h :: of(i)
    requires Lists(tail, h, of) && Reads(all, tail, f)
    ensures Lists(index, p, of) && Reads(all, index, all[p..h] + f)
    decreases h - p
  {
    if p == h {
      index := tail;
      assert all[p..h] + f == f;
    } else {
      var later := HeldFrom(all, h, f, of, tail, p + 1);
      assert of(p);
      ListsNext(later, p, of);
      ReadsNext(all, later, all[p + 1..h] + f, p);
      index := [p] + later;
      SliceFirst(all, p, h, f);
    }
  }

  lemma SliceFirst<T>(all: seq<T>, p: nat, h: nat, f: seq<T>)
    requires p < h <= |all|
    ensures all[p..h] + f == [all[p]] + (all[p + 1..h] + f)
  {
    assert all[p..h] == [all[p]] + all[p + 1..h];
  }

  /** A merge is the stable sort of exactly the kept elements, in the order in which they were held and came. */
  lemma MergeMeans<T(!new), K(!new)>(ident: T -> Option<K>, rank: T -> int, a: seq<T>, b: seq<T>)
      returns (index: seq<nat>, kept: seq<T>)
    ensures Lists(index, 0, p => KeptHere(ident, a + b, |a|, p)) && Reads(a + b, index, kept)
    ensures IsStableSort(rank, kept, Merge(ident, rank, a, b))
  {
    var all := a + b;
    var of: nat -> bool := p => KeptHere(ident, all, |a|, p);
    assert all[..|a|] == a && all[|a|..] == b && all[0..|a|] == a;
    var tail := FreshFrom(ident, all, |a|, of, |a|);
    var f := Fresh(ident, Idents(ident, a), b);
    index := HeldFrom(all, |a|, f, of, tail, 0);
    kept := a + f;
    SortByIsStable(rank, kept);
  }
}
