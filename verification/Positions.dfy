/** Sets and lists of positions. */
module Positions {

  /** A set that gains one position, or none. */
  lemma AddOne(before: set<nat>, now: set<nat>, n: nat, added: bool)
    requires n !in before && forall i: nat :: i in now <==> i in before || (added && i == n)
    ensures |now| == |before| + if added then 1 else 0
  {
    assert now == if added then before + {n} else before;
  }

  /** The positions from `i` on that pass a test, each once and in order. */
  ghost predicate Lists(index: seq<nat>, i: nat, of: nat -> bool) {
    && (forall j, k | 0 <= j < k < |index| :: index[j] < index[k])
    && (forall p: nat :: p in index <==> p >= i && of(p))
  }

  lemma ListsNext(index: seq<nat>, i: nat, of: nat -> bool)
    requires Lists(index, i + 1, of)
    ensures Lists(if of(i) then [i] + index else index, i, of)
  {
    assert forall j | 0 <= j < |index| :: index[j] in index;
  }

  /** What stands at listed positions. */
  ghost predicate Reads<T>(xs: seq<T>, index: seq<nat>, ys: seq<T>) {
    |ys| == |index| && forall j | 0 <= j < |index| :: index[j] < |xs| && ys[j] == xs[index[j]]
  }

  lemma ReadsNext<T>(xs: seq<T>, index: seq<nat>, ys: seq<T>, i: nat)
    requires Reads(xs, index, ys) && i < |xs|
    ensures Reads(xs, [i] + index, [xs[i]] + ys)
  {
  }

  /** The positions below `n` that pass a test, each once and in order. */
  ghost predicate ListsBelow(index: seq<nat>, n: nat, of: nat -> bool) {
    && (forall j, k | 0 <= j < k < |index| :: index[j] < index[k])
    && (forall p: nat :: p in index <==> p < n && of(p))
  }

  lemma BelowNext(index: seq<nat>, n: nat, of: nat -> bool)
    requires ListsBelow(index, n, of)
    ensures ListsBelow(if of(n) then index + [n] else index, n + 1, of)
  {
    assert forall j | 0 <= j < |index| :: index[j] in index;
  }

  // ---- Filters ----

  function Filtered<T>(keep: T -> bool, xs: seq<T>): seq<T> {
    if xs == [] then [] else (if keep(xs[0]) then [xs[0]] else []) + Filtered(keep, xs[1..])
  }

  lemma {:induction false} FilteredCounts<T>(keep: T -> bool, xs: seq<T>, x: T)
    ensures multiset(Filtered(keep, xs))[x] == if keep(x) then multiset(xs)[x] else 0
  {
    if xs != [] {
      FilteredCounts(keep, xs[1..], x);
      assert xs == [xs[0]] + xs[1..];
    }
  }

  lemma {:induction false} FilteredMembers<T>(keep: T -> bool, xs: seq<T>, x: T)
    ensures x in Filtered(keep, xs) <==> x in xs && keep(x)
  {
    FilteredCounts(keep, xs, x);
    assert x in Filtered(keep, xs) <==> multiset(Filtered(keep, xs))[x] > 0;
  }

  lemma {:induction false} FilteredSame<T>(f: T -> bool, g: T -> bool, xs: seq<T>)
    requires forall x | x in xs :: f(x) == g(x)
    ensures Filtered(f, xs) == Filtered(g, xs)
  {
    if xs != [] {
      assert xs[0] in xs && forall x | x in xs[1..] :: x in xs;
      FilteredSame(f, g, xs[1..]);
    }
  }

  lemma FilteredNext<T>(keep: T -> bool, xs: seq<T>, p: nat)
    requires p < |xs|
    ensures Filtered(keep, xs[p..]) ==
            if keep(xs[p]) then [xs[p]] + Filtered(keep, xs[p + 1..]) else Filtered(keep, xs[p + 1..])
  {
    assert xs[p..][0] == xs[p] && xs[p..][1..] == xs[p + 1..];
    assert [] + Filtered(keep, xs[p + 1..]) == Filtered(keep, xs[p + 1..]);
  }

  predicate KeptAt<T>(keep: T -> bool, xs: seq<T>, p: nat) {
    p < |xs| && keep(xs[p])
  }

  /** What is kept stands in the order of the list, at exactly the positions that pass. */
  lemma {:induction false} FilteredInOrder<T(!new)>(keep: T -> bool, xs: seq<T>, p: nat) returns (index: seq<nat>)
    requires p <= |xs|
    ensures Lists(index, p, (i: nat) => KeptAt(keep, xs, i)) && Reads(xs, index, Filtered(keep, xs[p..]))
    decreases |xs| - p
  {
    if p == |xs| {
      index := [];
    } else {
      var later := FilteredInOrder(keep, xs, p + 1);
      ListsNext(later, p, (i: nat) => KeptAt(keep, xs, i));
      ReadsNext(xs, later, Filtered(keep, xs[p + 1..]), p);
      FilteredNext(keep, xs, p);
      index := if keep(xs[p]) then [p] + later else later;
    }
  }
}
