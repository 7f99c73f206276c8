/** Reachability over child-to-parent edges, and what redirecting one node's edge does to cycles. */
module Graph {

  type Edges = set<(string, string)>

  ghost predicate IsPath(e: Edges, p: seq<string>) {
    |p| >= 1 && forall i | 0 <= i < |p| - 1 :: (p[i], p[i + 1]) in e
  }

  ghost predicate PathBetween(e: Edges, p: seq<string>, x: string, y: string) {
    IsPath(e, p) && |p| >= 2 && p[0] == x && p[|p| - 1] == y
  }

  /** `y` is reached from `x` by one or more edges. */
  ghost predicate Reaches(e: Edges, x: string, y: string) {
    exists p :: PathBetween(e, p, x, y)
  }

  ghost predicate Acyclic(e: Edges) {
    forall x :: !Reaches(e, x, x)
  }

  lemma EdgeReaches(e: Edges, x: string, y: string)
    requires (x, y) in e
    ensures Reaches(e, x, y)
  {
    assert PathBetween(e, [x, y], x, y);
  }

  lemma ReachesTrans(e: Edges, x: string, y: string, z: string)
    requires Reaches(e, x, y) && Reaches(e, y, z)
    ensures Reaches(e, x, z)
  {
    var p :| PathBetween(e, p, x, y);
    var q :| PathBetween(e, q, y, z);
    var r := p + q[1..];
    forall i | 0 <= i < |r| - 1 ensures (r[i], r[i + 1]) in e {
      if i >= |p| - 1 {
        var j := i - |p| + 1;
        assert r[i] == q[j] && r[i + 1] == q[j + 1];
      }
    }
    assert PathBetween(e, r, x, z);
  }

  /** Every edge out of `s` replaced by one to `m`. */
  function Redirect(e: Edges, s: string, m: string): Edges {
    (set d | d in e && d.0 != s) + {(s, m)}
  }

  /** `x` is `m` or above it. */
  ghost predicate AtOrAbove(e: Edges, m: string, x: string) {
    x == m || Reaches(e, m, x)
  }

  /** A path of the new graph that starts at or above `m` never meets `s`, so it is an old path. */
  lemma {:induction false} StaysAbove(e: Edges, s: string, m: string, p: seq<string>)
    requires IsPath(Redirect(e, s, m), p) && AtOrAbove(e, m, p[0])
    requires m != s && !Reaches(e, m, s)
    ensures forall i | 0 <= i < |p| :: p[i] != s
    ensures IsPath(e, p)
    decreases |p|
  {
    if |p| > 1 {
      EdgeReaches(e, p[0], p[1]);
      if p[0] != m {
        ReachesTrans(e, m, p[0], p[1]);
      }
      var q := p[1..];
      assert forall i | 0 <= i < |q| :: q[i] == p[i + 1];
      assert forall i | 0 <= i < |q| - 1 :: (q[i], q[i + 1]) == (p[i + 1], p[i + 2]);
      StaysAbove(e, s, m, q);
      assert forall i | 1 <= i < |p| :: p[i] == q[i - 1];
    }
  }

  /** If `m` does not lead to `s`, a cycle of the new graph is an old one: it cannot pass `s`. */
  lemma CycleIsOld(e: Edges, s: string, m: string, x: string)
    requires Reaches(Redirect(e, s, m), x, x) && m != s && !Reaches(e, m, s)
    ensures Reaches(e, x, x)
  {
    var e' := Redirect(e, s, m);
    var p :| PathBetween(e', p, x, x);
    if i :| 0 <= i < |p| - 1 && p[i] == s {
      assert (p[i], p[i + 1]) in e' && p[i + 1] == m;
      BackTo(e', p, i, s, m);
      var q :| IsPath(e', q) && q[0] == m && q[|q| - 1] == s;
      StaysAbove(e, s, m, q);
    } else {
      assert forall i | 0 <= i < |p| - 1 :: (p[i], p[i + 1]) in e' && p[i] != s;
      assert PathBetween(e, p, x, x);
    }
  }

  /** Around a cycle through the edge `s` to `m`, a path leads from `m` back to `s`. */
  lemma BackTo(e: Edges, p: seq<string>, i: nat, s: string, m: string)
    requires IsPath(e, p) && p[0] == p[|p| - 1]
    requires i < |p| - 1 && p[i] == s && p[i + 1] == m
    ensures exists q :: IsPath(e, q) && q[0] == m && q[|q| - 1] == s
  {
    var a, b := p[i + 1..], p[1..i + 1];
    var q := a + b;
    assert forall k | 0 <= k < |a| :: a[k] == p[i + 1 + k];
    assert forall k | 0 <= k < |b| :: b[k] == p[1 + k];
    forall k | 0 <= k < |q| - 1 ensures (q[k], q[k + 1]) in e {
      if k < |a| - 1 {
        assert (q[k], q[k + 1]) == (p[i + 1 + k], p[i + 2 + k]);
      } else if k == |a| - 1 {
        assert (q[k], q[k + 1]) == (p[0], p[1]);
      } else {
        var j := k - |a|;
        assert (q[k], q[k + 1]) == (p[1 + j], p[2 + j]);
      }
    }
    assert IsPath(e, q);
  }

  /** The first index at which a path meets `s`. */
  function FirstAt(p: seq<string>, s: string, i: nat): (j: nat)
    requires i < |p| && p[|p| - 1] == s
    ensures i <= j < |p| && p[j] == s && forall k | i <= k < j :: p[k] != s
    decreases |p| - i
  {
    if p[i] == s then i else FirstAt(p, s, i + 1)
  }

  lemma NewCycle(e: Edges, s: string, m: string)
    requires m == s || Reaches(e, m, s)
    ensures Reaches(Redirect(e, s, m), s, s)
  {
    var e' := Redirect(e, s, m);
    EdgeReaches(e', s, m);
    if m != s {
      var p :| PathBetween(e, p, m, s);
      var q := p[..FirstAt(p, s, 0) + 1];
      assert forall k | 0 <= k < |q| - 1 :: (q[k], q[k + 1]) == (p[k], p[k + 1]) && q[k] != s;
      assert PathBetween(e', q, m, s);
      ReachesTrans(e', s, m, s);
    }
  }

  /** Redirecting `s` to `m` keeps an acyclic graph acyclic exactly when `m` is not `s` and does not lead to it. */
  lemma RedirectExactly(e: Edges, s: string, m: string)
    requires Acyclic(e)
    ensures Acyclic(Redirect(e, s, m)) <==> m != s && !Reaches(e, m, s)
  {
    if m != s && !Reaches(e, m, s) {
      forall x | Reaches(Redirect(e, s, m), x, x) ensures Reaches(e, x, x) {
        CycleIsOld(e, s, m, x);
      }
    } else {
      NewCycle(e, s, m);
    }
  }

  /** A set that holds every child of `root` and of its own members holds everything that reaches `root`. */
  lemma {:induction false} ClosedHoldsAll(e: Edges, root: string, out: set<string>, p: seq<string>)
    requires IsPath(e, p) && |p| >= 2 && p[|p| - 1] == root
    requires forall d | d in e && (d.1 == root || d.1 in out) :: d.0 in out
    ensures p[0] in out
    decreases |p|
  {
    assert (p[0], p[1]) in e;
    if |p| > 2 {
      var q := p[1..];
      assert forall i | 0 <= i < |q| - 1 :: (q[i], q[i + 1]) == (p[i + 1], p[i + 2]);
      ClosedHoldsAll(e, root, out, q);
    }
  }
}
