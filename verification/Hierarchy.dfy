/**
 The crew's chain of command: apps/dashboard/src/hierarchy.ts and the walk of
 apps/dashboard/src/governance.ts. Both search the roster downwards with a stack.
 */
module Hierarchy {
  import opened Options
  import opened Graph
  import opened Positions

  datatype Agent = Agent(id: string, name: string, reportsTo: Option<string>)

  /** An empty lead counts as none. */
  predicate HasLead(a: Agent) {
    a.reportsTo.Some? && a.reportsTo.value != ""
  }

  function EdgesOf(agents: seq<Agent>): Edges {
    set i | 0 <= i < |agents| && HasLead(agents[i]) :: (agents[i].id, agents[i].reportsTo.value)
  }

  function IdsOf(agents: seq<Agent>): set<string> {
    set i | 0 <= i < |agents| :: agents[i].id
  }

  function Listed(m: map<string, seq<string>>, id: string): seq<string> {
    if id in m then m[id] else []
  }

  /** The direct reports of an id in roster order. */
  function ReportsOf(agents: seq<Agent>, id: string): seq<string> {
    if agents == [] then []
    else
      var a := agents[|agents| - 1];
      ReportsOf(agents[..|agents| - 1], id) +
      if HasLead(a) && a.reportsTo.value == id then [a.id] else []
  }

  lemma {:induction false} ReportsAreEdges(agents: seq<Agent>, id: string, c: string)
    ensures c in ReportsOf(agents, id) <==> (c, id) in EdgesOf(agents)
  {
    if agents != [] {
      var n := |agents| - 1;
      var front, a := agents[..n], agents[n];
      ReportsAreEdges(front, id, c);
      assert (c, id) in EdgesOf(agents) <==>
             (c, id) in EdgesOf(front) || (HasLead(a) && a.id == c && a.reportsTo.value == id) by {
        if i :| 0 <= i < |agents| && HasLead(agents[i]) && (agents[i].id, agents[i].reportsTo.value) == (c, id) {
          assert i < n ==> front[i] == agents[i];
        }
        if i :| 0 <= i < n && HasLead(front[i]) && (front[i].id, front[i].reportsTo.value) == (c, id) {
          assert agents[i] == front[i];
        }
      }
    }
  }

  /** The record names the id as its lead. */
  predicate NamesLead(agents: seq<Agent>, id: string, p: nat) {
    p < |agents| && agents[p].reportsTo == Some(id) && id != ""
  }

  lemma ReportsNext(agents: seq<Agent>, id: string, n: nat)
    requires n < |agents|
    ensures ReportsOf(agents[..n + 1], id) ==
            ReportsOf(agents[..n], id) + if NamesLead(agents, id, n) then [agents[n].id] else []
  {
    assert agents[..n + 1][..n] == agents[..n] && agents[..n + 1][n] == agents[n];
  }

  function Ids(agents: seq<Agent>): (ids: seq<string>)
    ensures |ids| == |agents|
  {
    seq(|agents|, i requires 0 <= i < |agents| => agents[i].id)
  }

  /** The direct reports of an id stand in roster order, each record that names it as lead once. */
  lemma {:induction false} ReportsInOrder(agents: seq<Agent>, id: string, n: nat) returns (index: seq<nat>)
    requires n <= |agents|
    ensures ListsBelow(index, n, (p: nat) => NamesLead(agents, id, p))
    ensures Reads(Ids(agents), index, ReportsOf(agents[..n], id))
  {
    if n == 0 {
      index := [];
    } else {
      var before := ReportsInOrder(agents, id, n - 1);
      BelowNext(before, n - 1, (p: nat) => NamesLead(agents, id, p));
      ReportsNext(agents, id, n - 1);
      index := if NamesLead(agents, id, n - 1) then before + [n - 1] else before;
    }
  }

  /** The first loop: every lead's direct reports, in roster order. */
  method BuildReports(agents: seq<Agent>) returns (m: map<string, seq<string>>)
    ensures forall id :: Listed(m, id) == ReportsOf(agents, id)
  {
    m := map[];
    for i := 0 to |agents|
      invariant forall id :: Listed(m, id) == ReportsOf(agents[..i], id)
    {
      var a := agents[i];
      assert agents[..i + 1][..i] == agents[..i] && agents[..i + 1][i] == a;
      if HasLead(a) {
        m := m[a.reportsTo.value := Listed(m, a.reportsTo.value) + [a.id]];
      }
    }
    assert agents[..|agents|] == agents;
  }

  /** The search has collected or still holds every child of the root and of a collected id. */
  ghost predicate Frontier(e: Edges, root: string, out: set<string>, stack: seq<string>) {
    forall d | d in e && (d.1 == root || d.1 in out) :: d.0 in out || d.0 in stack
  }

  ghost predicate AllBelow(e: Edges, root: string, ids: set<string>) {
    forall x | x in ids :: Reaches(e, x, root)
  }

  function Members(xs: seq<string>): set<string> {
    set x | x in xs
  }

  /** Popping an id and pushing its reports keeps both halves of the search invariant. */
  lemma Visit(agents: seq<Agent>, root: string, out: set<string>, stack: seq<string>)
    requires stack != []
    requires var e := EdgesOf(agents);
             Frontier(e, root, out, stack) && AllBelow(e, root, out) && AllBelow(e, root, Members(stack))
    ensures var e, id, rest := EdgesOf(agents), stack[|stack| - 1], stack[..|stack| - 1];
            var stack' := if id in out then rest else rest + ReportsOf(agents, id);
            Frontier(e, root, out + {id}, stack') &&
            AllBelow(e, root, out + {id}) && AllBelow(e, root, Members(stack'))
  {
    var e, id, rest := EdgesOf(agents), stack[|stack| - 1], stack[..|stack| - 1];
    assert stack == rest + [id];
    assert id in Members(stack);
    forall x | x in rest ensures Reaches(e, x, root) {
      assert x in Members(stack);
    }
    forall c ensures c in ReportsOf(agents, id) <==> (c, id) in e {
      ReportsAreEdges(agents, id, c);
    }
    forall c | c in ReportsOf(agents, id) ensures Reaches(e, c, root) {
      EdgeReaches(e, c, id);
      ReachesTrans(e, c, id, root);
    }
  }

  lemma SearchDone(e: Edges, root: string, out: set<string>, x: string)
    requires Frontier(e, root, out, []) && AllBelow(e, root, out)
    ensures x in out <==> Reaches(e, x, root)
  {
    if Reaches(e, x, root) {
      var p :| PathBetween(e, p, x, root);
      ClosedHoldsAll(e, root, out, p);
    }
  }

  lemma ReportsInRoster(agents: seq<Agent>, id: string)
    ensures Members(ReportsOf(agents, id)) <= IdsOf(agents)
  {
    forall c | c in ReportsOf(agents, id) ensures c in IdsOf(agents) {
      ReportsAreEdges(agents, id, c);
    }
  }

  /**
   The downward search terminates on every roster, cycles included, and collects exactly the ids that
   reach the root by one or more lead edges. The root itself is among them exactly when it lies on a cycle.
   */
  method DescendantIds(agents: seq<Agent>, root: string) returns (out: set<string>)
    ensures forall x :: x in out <==> Reaches(EdgesOf(agents), x, root)
    ensures root in out <==> Reaches(EdgesOf(agents), root, root)
    ensures Acyclic(EdgesOf(agents)) ==> root !in out
  {
    var reports := BuildReports(agents);
    ghost var e := EdgesOf(agents);
    out := {};
    var stack := Listed(reports, root);
    RootPushed(agents, root);
    while stack != []
      invariant Frontier(e, root, out, stack) && AllBelow(e, root, out) && AllBelow(e, root, Members(stack))
      invariant Members(stack) <= IdsOf(agents)
      decreases IdsOf(agents) - out, |stack|
    {
      var id := stack[|stack| - 1];
      Visit(agents, root, out, stack);
      assert id in Members(stack);
      assert Members(stack[..|stack| - 1]) <= Members(stack);
      stack := stack[..|stack| - 1];
      if id in out {
        assert out + {id} == out;
        continue;
      }
      out := out + {id};
      ReportsInRoster(agents, id);
      stack := stack + Listed(reports, id);
    }
    forall x ensures x in out <==> Reaches(e, x, root) {
      SearchDone(e, root, out, x);
    }
  }

  lemma RootPushed(agents: seq<Agent>, root: string)
    ensures var e, stack := EdgesOf(agents), ReportsOf(agents, root);
            Frontier(e, root, {}, stack) && AllBelow(e, root, Members(stack)) &&
            Members(stack) <= IdsOf(agents)
  {
    var e := EdgesOf(agents);
    forall c
      ensures c in ReportsOf(agents, root) <==> (c, root) in e
      ensures (c, root) in e ==> Reaches(e, c, root)
    {
      ReportsAreEdges(agents, root, c);
      if (c, root) in e {
        EdgeReaches(e, c, root);
      }
    }
    ReportsInRoster(agents, root);
  }

  ghost predicate NoRepeats(xs: seq<string>) {
    forall i, j | 0 <= i < j < |xs| :: xs[i] != xs[j]
  }

  /** The governance walk lists the same ids, each once. */
  method SubordinateIds(root: string, roster: seq<Agent>) returns (out: seq<string>)
    ensures forall x :: x in out <==> Reaches(EdgesOf(roster), x, root)
    ensures NoRepeats(out)
    ensures root in out <==> Reaches(EdgesOf(roster), root, root)
  {
    var reports := BuildReports(roster);
    ghost var e := EdgesOf(roster);
    out := [];
    var seen: set<string> := {};
    var stack := Listed(reports, root);
    RootPushed(roster, root);
    while stack != []
      invariant Frontier(e, root, seen, stack) && AllBelow(e, root, seen) && AllBelow(e, root, Members(stack))
      invariant Members(stack) <= IdsOf(roster)
      invariant seen == Members(out) && NoRepeats(out)
      decreases IdsOf(roster) - seen, |stack|
    {
      var id := stack[|stack| - 1];
      Visit(roster, root, seen, stack);
      assert id in Members(stack);
      assert Members(stack[..|stack| - 1]) <= Members(stack);
      stack := stack[..|stack| - 1];
      if id in seen {
        assert seen + {id} == seen;
        continue;
      }
      seen := seen + {id};
      out := out + [id];
      ReportsInRoster(roster, id);
      stack := stack + Listed(reports, id);
    }
    forall x ensures x in out <==> Reaches(e, x, root) {
      SearchDone(e, root, seen, x);
      assert x in out <==> x in Members(out);
    }
  }

  // ---- Offered leads ----

  /** The ids a lead picker leaves out for an existing operative: itself and its branch. */
  ghost predicate IsBlocked(agents: seq<Agent>, self: string, id: string) {
    id == self || Reaches(EdgesOf(agents), id, self)
  }

  ghost predicate IsOffered(agents: seq<Agent>, self: string, p: nat) {
    p < |agents| && !IsBlocked(agents, self, agents[p].id)
  }

  /** Without a self everyone is offered; otherwise everyone but self and its branch, in roster order. */
  method ManagerOptions(agents: seq<Agent>, self: string) returns (options: seq<Agent>)
    ensures self == "" ==> options == agents
    ensures self != "" ==> exists index ::
              Lists(index, 0, (p: nat) => IsOffered(agents, self, p)) && Reads(agents, index, options)
    ensures self != "" ==> forall a :: a in options <==> a in agents && !IsBlocked(agents, self, a.id)
  {
    if self == "" {
      return agents;
    }
    var blocked := DescendantIds(agents, self);
    blocked := blocked + {self};
    var keep := (a: Agent) => a.id !in blocked;
    options := Filtered(keep, agents);
    forall a ensures a in options <==> a in agents && !IsBlocked(agents, self, a.id) {
      FilteredMembers(keep, agents, a);
    }
    ghost var index := FilteredInOrder(keep, agents, 0);
    assert agents[0..] == agents;
    forall p: nat ensures KeptAt(keep, agents, p) <==> IsOffered(agents, self, p) {
    }
    assert Lists(index, 0, (p: nat) => IsOffered(agents, self, p));
  }

  /** Making `m` the lead of every record with id `self`. */
  function SetLead(agents: seq<Agent>, self: string, m: string): seq<Agent> {
    seq(|agents|, i requires 0 <= i < |agents| =>
      if agents[i].id == self then agents[i].(reportsTo := Some(m)) else agents[i])
  }

  lemma SetLeadRedirects(agents: seq<Agent>, self: string, m: string)
    requires self in IdsOf(agents) && m != ""
    ensures EdgesOf(SetLead(agents, self, m)) == Redirect(EdgesOf(agents), self, m)
  {
    var now := SetLead(agents, self, m);
    var e, e' := EdgesOf(now), Redirect(EdgesOf(agents), self, m);
    forall d ensures d in e <==> d in e' {
      if d in e {
        var i :| 0 <= i < |now| && HasLead(now[i]) && (now[i].id, now[i].reportsTo.value) == d;
        assert agents[i].id == now[i].id;
      }
      if d in e' {
        if d == (self, m) {
          var i :| 0 <= i < |agents| && agents[i].id == self;
          assert HasLead(now[i]);
        } else {
          var i :| 0 <= i < |agents| && HasLead(agents[i]) && (agents[i].id, agents[i].reportsTo.value) == d;
          assert now[i] == agents[i];
        }
      }
    }
  }

  /** On an acyclic roster a crew member is offered as lead exactly when choosing it closes no cycle. */
  lemma ManagerOptionsExact(agents: seq<Agent>, self: string, m: Agent)
    requires Acyclic(EdgesOf(agents)) && self in IdsOf(agents)
    requires m in agents && m.id != ""
    ensures Acyclic(EdgesOf(SetLead(agents, self, m.id))) <==> !IsBlocked(agents, self, m.id)
  {
    SetLeadRedirects(agents, self, m.id);
    RedirectExactly(EdgesOf(agents), self, m.id);
  }

  /** Two crew members that lead each other: each is among its own descendants. */
  lemma RootInsideCycle(a: Agent, b: Agent)
    requires a.reportsTo == Some(b.id) && b.reportsTo == Some(a.id) && a.id != "" && b.id != ""
    ensures Reaches(EdgesOf([a, b]), a.id, a.id)
  {
    var e, agents := EdgesOf([a, b]), [a, b];
    assert HasLead(agents[0]) && HasLead(agents[1]);
    assert (agents[0].id, agents[0].reportsTo.value) in e && (agents[1].id, agents[1].reportsTo.value) in e;
    EdgeReaches(e, a.id, b.id);
    EdgeReaches(e, b.id, a.id);
    ReachesTrans(e, a.id, b.id, a.id);
  }
}
