/**
 Moving tasks between parents: apps/dashboard/src/reparent.ts, whose upward walk stops after 64 edges.
 `collate` stands for the locale's collation as a numeric sort key.
 */
module Reparent {
  import opened Options
  import opened Graph
  import opened Positions
  import opened StableMerge

  const MAX_TASK_DEPTH: nat := 64

  datatype Task = Task(id: string, parent: Option<string>, namespace: string)

  /** An empty parent counts as none. */
  predicate HasParent(t: Task) {
    t.parent.Some? && t.parent.value != ""
  }

  function ParentMap(tasks: seq<Task>): map<string, string> {
    if tasks == [] then map[]
    else
      var t := tasks[|tasks| - 1];
      var m := ParentMap(tasks[..|tasks| - 1]);
      if HasParent(t) then m[t.id := t.parent.value] else m
  }

  /** The map's parent of an id is that of the last record with the id that has one. */
  lemma {:induction false} ParentMapMeans(tasks: seq<Task>, id: string, p: string)
    ensures id in ParentMap(tasks) && ParentMap(tasks)[id] == p <==>
              exists i :: 0 <= i < |tasks| && LastParent(tasks, id, i) && tasks[i].parent == Some(p)
  {
    if tasks != [] {
      var n := |tasks| - 1;
      var front := tasks[..n];
      ParentMapMeans(front, id, p);
      forall i | 0 <= i < n ensures LastParent(tasks, id, i) <==> LastParent(front, id, i) && !(tasks[n].id == id && HasParent(tasks[n])) {
      }
      if tasks[n].id == id && HasParent(tasks[n]) {
        assert LastParent(tasks, id, n);
      }
    }
  }

  /** The last record with the id that names a parent. */
  ghost predicate LastParent(tasks: seq<Task>, id: string, i: int) {
    && 0 <= i < |tasks| && tasks[i].id == id && tasks[i].parent.Some? && tasks[i].parent.value != ""
    && forall k | i < k < |tasks| && tasks[k].id == id :: tasks[k].parent.None? || tasks[k].parent.value == ""
  }

  method ParentOf(tasks: seq<Task>) returns (m: map<string, string>)
    ensures m == ParentMap(tasks)
  {
    m := map[];
    for i := 0 to |tasks|
      invariant m == ParentMap(tasks[..i])
    {
      assert tasks[..i + 1][..i] == tasks[..i] && tasks[..i + 1][i] == tasks[i];
      if HasParent(tasks[i]) {
        m := m[tasks[i].id := tasks[i].parent.value];
      }
    }
    assert tasks[..|tasks|] == tasks;
  }

  // ---- Walking up ----

  /** The ancestor `n` edges up, none when the chain ends before. */
  function Up(m: map<string, string>, x: string, n: nat): Option<string> {
    if n == 0 then Some(x)
    else
      var below := Up(m, x, n - 1);
      if below.Some? && below.value in m then Some(m[below.value]) else None
  }

  /** `y` is between 1 and `cap` edges up from `x`. */
  ghost predicate Within(m: map<string, string>, x: string, y: string, cap: nat) {
    exists n: nat | 1 <= n <= cap :: Up(m, x, n) == Some(y)
  }

  lemma {:induction false} UpStaysNone(m: map<string, string>, x: string, i: nat, n: nat)
    requires Up(m, x, i) == None && i <= n
    ensures Up(m, x, n) == None
    decreases n
  {
    if i < n {
      UpStaysNone(m, x, i, n - 1);
    }
  }

  /** A chain that has come back to a node it met never leaves the nodes it met. */
  lemma {:induction false} UpStaysInside(m: map<string, string>, x: string, seen: set<string>, i: nat, n: nat)
    requires forall y | y in seen && y in m :: m[y] in seen
    requires Up(m, x, i).Some? && Up(m, x, i).value in seen && i <= n
    ensures Up(m, x, n).Some? ==> Up(m, x, n).value in seen
    decreases n
  {
    if i < n {
      UpStaysInside(m, x, seen, i, n - 1);
    }
  }

  /** The bounded, cycle-guarded walk finds `task` exactly when it is at most 64 edges up. */
  method IsDescendantOf(task: string, candidate: string, m: map<string, string>) returns (r: bool)
    ensures r <==> task != candidate && Within(m, candidate, task, MAX_TASK_DEPTH)
  {
    if task == candidate {
      return false;
    }
    var seen := {candidate};
    var current := candidate;
    for i := 0 to MAX_TASK_DEPTH
      invariant Up(m, candidate, i) == Some(current)
      invariant current in seen && task !in seen
      invariant forall n: nat | n <= i :: Up(m, candidate, n).Some? && Up(m, candidate, n).value in seen
      invariant forall y | y in seen && y != current :: y in m && m[y] in seen
    {
      if current !in m {
        forall n: nat | i < n ensures Up(m, candidate, n) == None {
          UpStaysNone(m, candidate, i + 1, n);
        }
        return false;
      }
      var next := m[current];
      if next in seen {
        forall n: nat | i <= n ensures Up(m, candidate, n) != Some(task) {
          UpStaysInside(m, candidate, seen, i, n);
        }
        return false;
      }
      assert Up(m, candidate, i + 1) == Some(next);
      if next == task {
        return true;
      }
      seen := seen + {next};
      current := next;
    }
    return false;
  }

  /** The tasks whose chain passes through `task` within 64 edges. */
  method TaskDescendants(tasks: seq<Task>, task: string) returns (out: set<string>)
    ensures forall x :: x in out <==>
              x != task && (exists i | 0 <= i < |tasks| :: tasks[i].id == x) &&
              Within(ParentMap(tasks), x, task, MAX_TASK_DEPTH)
  {
    var m := ParentOf(tasks);
    out := {};
    for k := 0 to |tasks|
      invariant forall x :: x in out <==>
                  x != task && (exists i | 0 <= i < k :: tasks[i].id == x) &&
                  Within(m, x, task, MAX_TASK_DEPTH)
    {
      var below := IsDescendantOf(task, tasks[k].id, m);
      if tasks[k].id != task && below {
        out := out + {tasks[k].id};
      }
    }
  }

  /** The first task with an id. */
  function Find(tasks: seq<Task>, id: string): (r: Option<Task>)
    ensures r.Some? ==> r.value in tasks && r.value.id == id
    ensures r.Some? ==> exists i :: 0 <= i < |tasks| && tasks[i] == r.value && forall k | 0 <= k < i :: tasks[k].id != id
    ensures r.None? ==> forall t | t in tasks :: t.id != id
  {
    if tasks == [] then None
    else if tasks[0].id == id then Some(tasks[0])
    else
      assert tasks == [tasks[0]] + tasks[1..];
      Find(tasks[1..], id)
  }

  predicate Qualifies(t: Task, self: Task, descendants: set<string>) {
    && t.id != self.id && t.id !in descendants && t.namespace == self.namespace
    && Some(t.id) != self.parent
  }

  /** The tasks the board offers as a new parent. */
  ghost predicate Offered(tasks: seq<Task>, task: string, t: Task) {
    var self := Find(tasks, task);
    && self.Some? && t in tasks && t.id != task
    && !Within(ParentMap(tasks), t.id, task, MAX_TASK_DEPTH)
    && t.namespace == self.value.namespace && Some(t.id) != self.value.parent
  }

  ghost predicate OfferedAt(board: seq<Task>, task: string, p: nat) {
    p < |board| && Offered(board, task, board[p])
  }

  /** `le` compares any two ids, and compares them consistently: what a collation does. */
  ghost predicate IsCollation(le: (string, string) -> bool) {
    && (forall a, b :: le(a, b) || le(b, a))
    && (forall a, b, c :: le(a, b) && le(b, c) ==> le(a, c))
  }

  /** The ids of a set that come before `a`. */
  function Earlier(le: (string, string) -> bool, ids: set<string>, a: string): set<string> {
    set c | c in ids && !le(a, c)
  }

  /** On the ids of one board every collation is a numeric key. */
  lemma CollationIsKey(le: (string, string) -> bool, ids: set<string>, a: string, b: string)
    requires IsCollation(le) && a in ids && b in ids
    ensures le(a, b) <==> |Earlier(le, ids, a)| <= |Earlier(le, ids, b)|
  {
    var ea, eb := Earlier(le, ids, a), Earlier(le, ids, b);
    if le(a, b) {
      assert ea <= eb;
      SubsetSize(ea, eb);
    } else {
      assert eb <= ea && b in ea && b !in eb;
      SubsetSize(eb, ea - {b});
    }
  }

  lemma {:induction false} SubsetSize(a: set<string>, b: set<string>)
    requires a <= b
    ensures |a| <= |b|
  {
    assert b == a + (b - a);
  }

  /**
   The picker lists exactly the offered tasks, each as often as the board has it, in collation order; tasks
   that collate alike stay in the order of the board.
   */
  method CandidateParents(tasks: seq<Task>, task: string, collate: string -> int) returns (options: seq<Task>)
    ensures forall t :: multiset(options)[t] == if Offered(tasks, task, t) then multiset(tasks)[t] else 0
    ensures exists index, offered ::
              Lists(index, 0, (p: nat) => OfferedAt(tasks, task, p)) && Reads(tasks, index, offered) &&
              IsStableSort((t: Task) => collate(t.id), offered, options)
    ensures Find(tasks, task) == None ==> options == []
  {
    var self := Find(tasks, task);
    var key := (t: Task) => collate(t.id);
    if self.None? {
      options := [];
      NoneOffered(tasks, task, key);
      return;
    }
    var descendants := TaskDescendants(tasks, task);
    var keep := (t: Task) => Qualifies(t, self.value, descendants);
    var kept := Filtered(keep, tasks);
    options := SortBy(key, kept);
    SortByIsStable(key, kept);
    SortCounts(key, kept);
    forall t | t in tasks ensures keep(t) <==> Offered(tasks, task, t) {
    }
    forall t ensures multiset(options)[t] == if Offered(tasks, task, t) then multiset(tasks)[t] else 0 {
      FilteredCounts(keep, tasks, t);
    }
    ghost var index := FilteredInOrder(keep, tasks, 0);
    assert tasks[0..] == tasks;
    SameLists(index, (p: nat) => KeptAt(keep, tasks, p), (p: nat) => OfferedAt(tasks, task, p));
  }

  lemma SameLists(index: seq<nat>, f: nat -> bool, g: nat -> bool)
    requires Lists(index, 0, f) && forall p: nat :: f(p) == g(p)
    ensures Lists(index, 0, g)
  {
  }

  lemma NoneOffered(board: seq<Task>, task: string, key: Task -> int)
    requires Find(board, task) == None
    ensures exists index, offered ::
              Lists(index, 0, (p: nat) => OfferedAt(board, task, p)) && Reads(board, index, offered) &&
              IsStableSort(key, offered, [])
  {
    assert Reads(board, [], []) && IsStableSort(key, [], []);
  }

  // ---- Walks and paths ----

  function EdgesOf(m: map<string, string>): Edges {
    set c | c in m :: (c, m[c])
  }

  lemma {:induction false} UpIsPath(m: map<string, string>, x: string, n: nat)
    requires n >= 1 && Up(m, x, n).Some?
    ensures Reaches(EdgesOf(m), x, Up(m, x, n).value)
  {
    var e := EdgesOf(m);
    var below := Up(m, x, n - 1).value;
    assert (below, m[below]) in e;
    EdgeReaches(e, below, m[below]);
    if n > 1 {
      UpIsPath(m, x, n - 1);
      ReachesTrans(e, x, below, m[below]);
    }
  }

  lemma {:induction false} PathIsUp(m: map<string, string>, p: seq<string>, n: nat)
    requires IsPath(EdgesOf(m), p) && n < |p|
    ensures Up(m, p[0], n) == Some(p[n])
  {
    if n > 0 {
      PathIsUp(m, p, n - 1);
      assert (p[n - 1], p[n]) in EdgesOf(m);
    }
  }

  /** Reaching is walking up some number of edges. */
  lemma ReachesIsUp(m: map<string, string>, x: string, y: string)
    ensures Reaches(EdgesOf(m), x, y) <==> exists n: nat :: n >= 1 && Up(m, x, n) == Some(y)
  {
    if Reaches(EdgesOf(m), x, y) {
      var p :| PathBetween(EdgesOf(m), p, x, y);
      PathIsUp(m, p, |p| - 1);
    }
    if n: nat :| n >= 1 && Up(m, x, n) == Some(y) {
      UpIsPath(m, x, n);
    }
  }

  /** `x` sits below `y`, but deeper than the walk looks. */
  ghost predicate TooDeep(m: map<string, string>, x: string, y: string) {
    Reaches(EdgesOf(m), x, y) && !Within(m, x, y, MAX_TASK_DEPTH)
  }

  /** The chain above `x` has at most 64 edges. */
  ghost predicate ChainFits(m: map<string, string>, x: string) {
    Up(m, x, MAX_TASK_DEPTH + 1) == None
  }

  /** From a task whose chain fits, the capped walk finds every transitive ancestor. */
  lemma FitsIsExact(m: map<string, string>, x: string, y: string)
    requires ChainFits(m, x)
    ensures Within(m, x, y, MAX_TASK_DEPTH) <==> Reaches(EdgesOf(m), x, y)
    ensures !TooDeep(m, x, y)
  {
    ReachesIsUp(m, x, y);
    if Reaches(EdgesOf(m), x, y) {
      var n: nat :| n >= 1 && Up(m, x, n) == Some(y);
      if n > MAX_TASK_DEPTH {
        UpStaysNone(m, x, MAX_TASK_DEPTH + 1, n);
      }
      assert Within(m, x, y, MAX_TASK_DEPTH);
    }
    if Within(m, x, y, MAX_TASK_DEPTH) {
      var n: nat :| 1 <= n <= MAX_TASK_DEPTH && Up(m, x, n) == Some(y);
      UpIsPath(m, x, n);
    }
  }

  lemma {:induction false} AroundAgain(m: map<string, string>, x: string, n: nat, k: nat)
    requires Up(m, x, n) == Some(x)
    ensures Up(m, x, n + k) == Up(m, x, k)
  {
    if k > 0 {
      AroundAgain(m, x, n, k - 1);
    }
  }

  /** A chain that comes back to its start never ends. */
  lemma {:induction false} CycleNeverEnds(m: map<string, string>, x: string, n: nat, k: nat)
    requires n >= 1 && Up(m, x, n) == Some(x)
    ensures Up(m, x, k).Some?
    decreases k
  {
    if k < n {
      if Up(m, x, k) == None {
        UpStaysNone(m, x, k, n);
      }
    } else {
      AroundAgain(m, x, n, k - n);
      CycleNeverEnds(m, x, n, k - n);
    }
  }

  lemma {:induction false} InMapIsListed(tasks: seq<Task>, x: string)
    requires x in ParentMap(tasks)
    ensures exists i | 0 <= i < |tasks| :: tasks[i].id == x
  {
    var n := |tasks| - 1;
    if tasks[n].id != x {
      InMapIsListed(tasks[..n], x);
      var i :| 0 <= i < n && tasks[..n][i].id == x;
      assert tasks[i].id == x;
    }
  }

  /**
   Where the chain above `x` fits the cap, `x` is among the descendants the board computes exactly when it
   reaches the root, which is what the downward search of Hierarchy.dfy decides on the same edges.
   */
  lemma TaskDescendantsExact(tasks: seq<Task>, task: string, x: string)
    requires ChainFits(ParentMap(tasks), x)
    ensures (x != task && (exists i | 0 <= i < |tasks| :: tasks[i].id == x) &&
             Within(ParentMap(tasks), x, task, MAX_TASK_DEPTH)) <==>
            Reaches(EdgesOf(ParentMap(tasks)), x, task)
  {
    var m := ParentMap(tasks);
    FitsIsExact(m, x, task);
    if Reaches(EdgesOf(m), x, task) {
      var p :| PathBetween(EdgesOf(m), p, x, task);
      assert (p[0], p[1]) in EdgesOf(m);
      InMapIsListed(tasks, x);
      ReachesIsUp(m, x, task);
      var n: nat :| n >= 1 && Up(m, x, n) == Some(task);
      if x == task {
        CycleNeverEnds(m, x, n, MAX_TASK_DEPTH + 1);
      }
    }
  }

  // ---- Moves ----

  /** Making `p` the parent of every record with id `task`. */
  function Move(tasks: seq<Task>, task: string, p: string): (moved: seq<Task>)
    ensures |moved| == |tasks|
  {
    seq(|tasks|, i requires 0 <= i < |tasks| =>
      if tasks[i].id == task then tasks[i].(parent := Some(p)) else tasks[i])
  }

  lemma {:induction false} MoveUpdatesMap(tasks: seq<Task>, task: string, p: string)
    requires p != ""
    ensures ParentMap(Move(tasks, task, p)) ==
            if exists t | t in tasks :: t.id == task then ParentMap(tasks)[task := p] else ParentMap(tasks)
  {
    if tasks != [] {
      var n := |tasks| - 1;
      var front := tasks[..n];
      MoveUpdatesMap(front, task, p);
      assert Move(tasks, task, p)[..n] == Move(front, task, p);
      assert tasks == front + [tasks[n]];
    }
  }

  lemma MoveRedirects(tasks: seq<Task>, task: string, p: string)
    requires p != "" && Find(tasks, task).Some?
    ensures EdgesOf(ParentMap(Move(tasks, task, p))) == Redirect(EdgesOf(ParentMap(tasks)), task, p)
  {
    MoveUpdatesMap(tasks, task, p);
    var m := ParentMap(tasks);
    var m' := m[task := p];
    forall d ensures d in EdgesOf(m') <==> d in Redirect(EdgesOf(m), task, p) {
      if d in EdgesOf(m') && d.0 != task {
        assert m'[d.0] == m[d.0];
      }
      if d in EdgesOf(m) && d.0 != task {
        assert d.0 in m' && m'[d.0] == d.1;
      }
      assert task in m' && m'[task] == p;
    }
  }

  /** An offered move keeps the forest acyclic exactly when the new parent is not a descendant beyond the cap. */
  lemma OfferedMoveExactly(tasks: seq<Task>, task: string, t: Task)
    requires Acyclic(EdgesOf(ParentMap(tasks))) && Offered(tasks, task, t) && t.id != ""
    ensures Acyclic(EdgesOf(ParentMap(Move(tasks, task, t.id)))) <==> !TooDeep(ParentMap(tasks), t.id, task)
  {
    MoveRedirects(tasks, task, t.id);
    RedirectExactly(EdgesOf(ParentMap(tasks)), task, t.id);
  }

  ghost predicate UniqueIds(tasks: seq<Task>) {
    forall i, j | 0 <= i < j < |tasks| :: tasks[i].id != tasks[j].id
  }

  /** Every edge between listed tasks stays inside one namespace. */
  ghost predicate OneNamespace(tasks: seq<Task>) {
    forall i, j | 0 <= i < |tasks| && 0 <= j < |tasks| && tasks[i].parent == Some(tasks[j].id) ::
      tasks[i].namespace == tasks[j].namespace
  }

  ghost predicate SafeForest(tasks: seq<Task>) {
    && UniqueIds(tasks) && OneNamespace(tasks)
    && (forall i | 0 <= i < |tasks| :: tasks[i].id != "")
    && Acyclic(EdgesOf(ParentMap(tasks)))
  }

  lemma MoveKeepsNamespaces(tasks: seq<Task>, task: string, t: Task)
    requires UniqueIds(tasks) && OneNamespace(tasks) && Offered(tasks, task, t)
    ensures UniqueIds(Move(tasks, task, t.id)) && OneNamespace(Move(tasks, task, t.id))
  {
    var now, self := Move(tasks, task, t.id), Find(tasks, task).value;
    forall i, j | 0 <= i < |now| && 0 <= j < |now| && now[i].parent == Some(now[j].id)
      ensures now[i].namespace == now[j].namespace
    {
      if tasks[i].id == task {
        var a :| 0 <= a < |tasks| && tasks[a] == self;
        var b :| 0 <= b < |tasks| && tasks[b] == t;
        assert a == i && b == j;
      }
    }
  }

  datatype MoveStep = MoveStep(task: string, to: Task)

  /** Every move is offered when it is made. */
  ghost predicate OfferedMoves(tasks: seq<Task>, moves: seq<MoveStep>)
    decreases |moves|
  {
    moves != [] ==>
      Offered(tasks, moves[0].task, moves[0].to) &&
      OfferedMoves(Move(tasks, moves[0].task, moves[0].to.id), moves[1..])
  }

  /** No move goes under a descendant of the moved task that lies beyond the cap. */
  ghost predicate NeverTooDeep(tasks: seq<Task>, moves: seq<MoveStep>)
    decreases |moves|
  {
    moves != [] ==>
      !TooDeep(ParentMap(tasks), moves[0].to.id, moves[0].task) &&
      NeverTooDeep(Move(tasks, moves[0].task, moves[0].to.id), moves[1..])
  }

  /** At every move the chain above the chosen parent fits the cap. */
  ghost predicate ParentsFit(tasks: seq<Task>, moves: seq<MoveStep>)
    decreases |moves|
  {
    moves != [] ==>
      ChainFits(ParentMap(tasks), moves[0].to.id) &&
      ParentsFit(Move(tasks, moves[0].task, moves[0].to.id), moves[1..])
  }

  /** The forest is safe before the first move and after each one. */
  ghost predicate SafeAlong(tasks: seq<Task>, moves: seq<MoveStep>)
    decreases |moves|
  {
    SafeForest(tasks) &&
    (moves != [] ==> SafeAlong(Move(tasks, moves[0].task, moves[0].to.id), moves[1..]))
  }

  /**
   Any sequence of offered moves from a safe forest keeps it safe at every step, acyclic and with each edge
   in one namespace, exactly when no move goes under a descendant beyond the cap.
   */
  lemma {:induction false} MovesStaySafeExactly(tasks: seq<Task>, moves: seq<MoveStep>)
    requires SafeForest(tasks) && OfferedMoves(tasks, moves)
    ensures SafeAlong(tasks, moves) <==> NeverTooDeep(tasks, moves)
    decreases |moves|
  {
    if moves != [] {
      var task, t := moves[0].task, moves[0].to;
      OfferedMoveExactly(tasks, task, t);
      if !TooDeep(ParentMap(tasks), t.id, task) {
        MoveKeepsNamespaces(tasks, task, t);
        MovesStaySafeExactly(Move(tasks, task, t.id), moves[1..]);
      }
    }
  }

  /** So it is enough that the chain above each chosen parent fits; how deep the rest of the forest is plays no part. */
  lemma {:induction false} MovesUnderFittingParents(tasks: seq<Task>, moves: seq<MoveStep>)
    requires SafeForest(tasks) && OfferedMoves(tasks, moves) && ParentsFit(tasks, moves)
    ensures SafeAlong(tasks, moves)
    decreases |moves|
  {
    if moves != [] {
      var task, t := moves[0].task, moves[0].to;
      FitsIsExact(ParentMap(tasks), t.id, task);
      OfferedMoveExactly(tasks, task, t);
      MoveKeepsNamespaces(tasks, task, t);
      MovesUnderFittingParents(Move(tasks, task, t.id), moves[1..]);
    }
  }

  // ---- Beyond the cap ----

  /** Distinct ids: a letter repeated. */
  function ChainId(i: nat): string {
    seq(i + 1, _ => 'a')
  }

  /** A single chain of `n` tasks, each under the one before. */
  function Chain(n: nat): (tasks: seq<Task>)
    ensures |tasks| == n
  {
    seq(n, i requires 0 <= i < n => Task(ChainId(i), if i == 0 then None else Some(ChainId(i - 1)), "ns"))
  }

  lemma {:induction false} ChainMap(n: nat, i: nat)
    requires i < n
    ensures var m := ParentMap(Chain(n)); ChainId(i) in m <==> i > 0
    ensures var m := ParentMap(Chain(n)); i > 0 ==> m[ChainId(i)] == ChainId(i - 1)
  {
    assert Chain(n)[..n - 1] == Chain(n - 1);
    assert |ChainId(i)| == i + 1 && |ChainId(n - 1)| == n;
    if i < n - 1 {
      ChainMap(n - 1, i);
    } else {
      ChainMapFresh(n - 1, i);
    }
  }

  lemma {:induction false} ChainMapFresh(n: nat, i: nat)
    requires n <= i
    ensures ChainId(i) !in ParentMap(Chain(n))
  {
    if n > 0 {
      assert Chain(n)[..n - 1] == Chain(n - 1);
      assert |ChainId(i)| == i + 1 && |ChainId(n - 1)| == n;
      ChainMapFresh(n - 1, i);
    }
  }

  lemma {:induction false} ChainUp(n: nat, i: nat, k: nat)
    requires k <= i < n
    ensures Up(ParentMap(Chain(n)), ChainId(i), k) == Some(ChainId(i - k))
  {
    if k > 0 {
      ChainUp(n, i, k - 1);
      ChainMap(n, i - k + 1);
    }
  }

  /**
   In a chain of 66 tasks the last is offered as the first one's parent although it is its descendant,
   and taking the offer closes a cycle.
   */
  lemma DeepMoveClosesCycle()
    ensures var tasks, top, bottom := Chain(66), ChainId(0), Chain(66)[65];
            Offered(tasks, top, bottom) && TooDeep(ParentMap(tasks), bottom.id, top) &&
            !Acyclic(EdgesOf(ParentMap(Move(tasks, top, bottom.id))))
  {
    var tasks, top, bottom := Chain(66), ChainId(0), Chain(66)[65];
    var m := ParentMap(tasks);
    assert |bottom.id| == 66 && |top| == 1;
    assert tasks[0].id == top;
    forall n: nat | 1 <= n <= MAX_TASK_DEPTH ensures Up(m, bottom.id, n) != Some(top) {
      ChainUp(66, 65, n);
      assert |ChainId(65 - n)| == 66 - n;
    }
    ChainUp(66, 65, 65);
    UpIsPath(m, bottom.id, 65);
    MoveRedirects(tasks, top, bottom.id);
    NewCycle(EdgesOf(m), top, bottom.id);
  }

  /** In a chain of 65 tasks the last is 64 edges below the first, and is not offered. */
  lemma NotOfferedAtTheCap()
    ensures !Offered(Chain(65), ChainId(0), Chain(65)[64])
  {
    ChainUp(65, 64, 64);
    assert Up(ParentMap(Chain(65)), Chain(65)[64].id, 64) == Some(ChainId(0));
  }
}
