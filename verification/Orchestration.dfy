/**
 Readiness and governed batches of a multi-agent orchestration: the classification of
 apps/dashboard/src/orchestration.ts and the round rule that README.md describes.
 */
module Orchestration {
  import opened Options
  import opened Positions

  datatype Outcome = Pending | Completed | Failed | Blocked

  /** A brief: its recorded outcome and the indices of the briefs it waits on. */
  datatype Brief = Brief(outcome: Outcome, dependsOn: seq<int>)

  datatype Lifecycle = IsCompleted | IsFailed | IsBlocked | IsReady | IsWaiting

  type Plan = seq<Brief>

  /** The outcome at an index, none outside the plan. */
  function OutcomeAt(p: Plan, j: int): Option<Outcome> {
    if 0 <= j < |p| then Some(p[j].outcome) else None
  }

  predicate BadOutcome(o: Option<Outcome>) {
    o == Some(Failed) || o == Some(Blocked)
  }

  /** A dependency outside the plan counts as satisfied. */
  predicate SatisfiedOutcome(o: Option<Outcome>) {
    o == None || o == Some(Completed)
  }

  predicate SomeDependencyBad(p: Plan, b: Brief) {
    exists k | 0 <= k < |b.dependsOn| :: BadOutcome(OutcomeAt(p, b.dependsOn[k]))
  }

  predicate EveryDependencySatisfied(p: Plan, b: Brief) {
    forall k | 0 <= k < |b.dependsOn| :: SatisfiedOutcome(OutcomeAt(p, b.dependsOn[k]))
  }

  function StepLifecycle(p: Plan, index: int): Lifecycle {
    if !(0 <= index < |p|) then IsWaiting
    else match p[index].outcome
      case Completed => IsCompleted
      case Failed => IsFailed
      case Blocked => IsBlocked
      case Pending =>
        if SomeDependencyBad(p, p[index]) then IsBlocked
        else if EveryDependencySatisfied(p, p[index]) then IsReady
        else IsWaiting
  }

  predicate CanRunOrchestration(p: Plan) {
    exists i | 0 <= i < |p| :: p[i].outcome == Pending
  }

  // ---- Tallies ----

  /** How many of the first `n` briefs satisfy a test on their index. */
  function Count(test: nat -> bool, n: nat): (c: nat)
    ensures c <= n
  {
    if n == 0 then 0 else Count(test, n - 1) + if test(n - 1) then 1 else 0
  }

  /** The indices below `n` that satisfy a test. */
  function Indices(test: nat -> bool, n: nat): set<nat> {
    set i: nat | i < n && test(i)
  }

  lemma {:induction false} CountIsSize(test: nat -> bool, n: nat)
    ensures Count(test, n) == |Indices(test, n)|
  {
    if n > 0 {
      CountIsSize(test, n - 1);
      IndicesNext(test, n - 1);
    }
  }

  lemma IndicesNext(test: nat -> bool, n: nat)
    ensures |Indices(test, n + 1)| == |Indices(test, n)| + if test(n) then 1 else 0
  {
    AddOne(Indices(test, n), Indices(test, n + 1), n, test(n));
  }

  /** Two tests that agree below `n` pick the same indices. */
  lemma SameCount(test: nat -> bool, plain: nat -> bool, n: nat)
    requires forall i: nat | i < n :: test(i) <==> plain(i)
    ensures Count(test, n) == |Indices(plain, n)|
  {
    CountIsSize(test, n);
    assert Indices(test, n) == Indices(plain, n);
  }

  /** The briefs with an outcome. */
  function With(p: Plan, o: Outcome): set<nat> {
    set i: nat | i < |p| && p[i].outcome == o
  }

  lemma OutcomesCounted(p: Plan, o: Outcome)
    ensures CountOutcome(p, o, |p|) == |With(p, o)|
  {
    var plain := (i: nat) => i < |p| && p[i].outcome == o;
    SameCount(i => 0 <= i < |p| && p[i].outcome == o, plain, |p|);
    assert Indices(plain, |p|) == With(p, o);
  }

  datatype Progress = Progress(total: nat, completed: nat, pending: nat, failed: nat, blocked: nat)

  function CountOutcome(p: Plan, o: Outcome, n: nat): nat
    requires n <= |p|
  {
    Count(i => 0 <= i < |p| && p[i].outcome == o, n)
  }

  /** The progress loop tallies each outcome, and the tallies add up to the number of briefs. */
  method OrchestrationProgress(p: Plan) returns (r: Progress)
    ensures r == Progress(|p|, |With(p, Completed)|, |With(p, Pending)|, |With(p, Failed)|, |With(p, Blocked)|)
    ensures r.completed + r.pending + r.failed + r.blocked == r.total
  {
    var completed, pending, failed, blocked := 0, 0, 0, 0;
    for i := 0 to |p|
      invariant completed == CountOutcome(p, Completed, i) && pending == CountOutcome(p, Pending, i)
      invariant failed == CountOutcome(p, Failed, i) && blocked == CountOutcome(p, Blocked, i)
      invariant completed + pending + failed + blocked == i
    {
      match p[i].outcome
      case Completed => completed := completed + 1;
      case Failed => failed := failed + 1;
      case Blocked => blocked := blocked + 1;
      case Pending => pending := pending + 1;
    }
    OutcomesCounted(p, Completed);
    OutcomesCounted(p, Pending);
    OutcomesCounted(p, Failed);
    OutcomesCounted(p, Blocked);
    r := Progress(|p|, completed, pending, failed, blocked);
  }

  datatype Readiness = Readiness(ready: nat, waiting: nat, blocked: nat, completed: nat, failed: nat)

  function CountLifecycle(p: Plan, l: Lifecycle, n: nat): nat {
    Count(i => StepLifecycle(p, i) == l, n)
  }

  /** Some brief of the plan that `b` waits on failed or was blocked. */
  predicate WaitsInVain(p: Plan, b: Brief) {
    exists k | 0 <= k < |b.dependsOn| :: 0 <= b.dependsOn[k] < |p| && p[b.dependsOn[k]].outcome in {Failed, Blocked}
  }

  /** Every brief of the plan that `b` waits on completed. */
  predicate MayStart(p: Plan, b: Brief) {
    forall k | 0 <= k < |b.dependsOn| :: 0 <= b.dependsOn[k] < |p| ==> p[b.dependsOn[k]].outcome == Completed
  }

  /** The briefs shown as blocked: those recorded so, and the pending ones that wait in vain. */
  function ShownBlocked(p: Plan): set<nat> {
    set i: nat | i < |p| && (p[i].outcome == Blocked || (p[i].outcome == Pending && WaitsInVain(p, p[i])))
  }

  function ShownReady(p: Plan): set<nat> {
    set i: nat | i < |p| && p[i].outcome == Pending && MayStart(p, p[i])
  }

  function ShownWaiting(p: Plan): set<nat> {
    set i: nat | i < |p| && p[i].outcome == Pending && !WaitsInVain(p, p[i]) && !MayStart(p, p[i])
  }

  lemma DependenciesMean(p: Plan, b: Brief)
    ensures SomeDependencyBad(p, b) <==> WaitsInVain(p, b)
    ensures EveryDependencySatisfied(p, b) <==> MayStart(p, b)
    ensures WaitsInVain(p, b) ==> !MayStart(p, b)
  {
    if k :| 0 <= k < |b.dependsOn| && 0 <= b.dependsOn[k] < |p| && p[b.dependsOn[k]].outcome in {Failed, Blocked} {
      assert BadOutcome(OutcomeAt(p, b.dependsOn[k]));
    }
    if EveryDependencySatisfied(p, b) {
      forall k | 0 <= k < |b.dependsOn| && 0 <= b.dependsOn[k] < |p| ensures p[b.dependsOn[k]].outcome == Completed {
        assert SatisfiedOutcome(OutcomeAt(p, b.dependsOn[k]));
      }
    }
  }

  /** What each class is, in terms of recorded outcomes. */
  lemma LifecyclesCounted(p: Plan)
    ensures CountLifecycle(p, IsReady, |p|) == |ShownReady(p)|
    ensures CountLifecycle(p, IsWaiting, |p|) == |ShownWaiting(p)|
    ensures CountLifecycle(p, IsBlocked, |p|) == |ShownBlocked(p)|
    ensures CountLifecycle(p, IsCompleted, |p|) == |With(p, Completed)|
    ensures CountLifecycle(p, IsFailed, |p|) == |With(p, Failed)|
  {
    LifecycleCounted(p, IsReady, ShownReady(p));
    LifecycleCounted(p, IsWaiting, ShownWaiting(p));
    LifecycleCounted(p, IsBlocked, ShownBlocked(p));
    LifecycleCounted(p, IsCompleted, With(p, Completed));
    LifecycleCounted(p, IsFailed, With(p, Failed));
  }

  function Shown(p: Plan, l: Lifecycle): set<nat> {
    match l
    case IsReady => ShownReady(p)
    case IsWaiting => ShownWaiting(p)
    case IsBlocked => ShownBlocked(p)
    case IsCompleted => With(p, Completed)
    case IsFailed => With(p, Failed)
  }

  /** The class of a brief says which of these sets it is in. */
  lemma LifecycleMeans(p: Plan, i: nat, l: Lifecycle)
    requires i < |p|
    ensures StepLifecycle(p, i) == l <==> i in Shown(p, l)
  {
    DependenciesMean(p, p[i]);
  }

  lemma LifecycleCounted(p: Plan, l: Lifecycle, shown: set<nat>)
    requires shown == Shown(p, l)
    ensures CountLifecycle(p, l, |p|) == |shown|
  {
    var test: nat -> bool := i => StepLifecycle(p, i) == l;
    CountIsSize(test, |p|);
    forall i: nat | i < |p| ensures test(i) <==> i in shown {
      LifecycleMeans(p, i, l);
    }
    assert Indices(test, |p|) == shown;
  }

  /**
   The readiness loop: completed and failed are the recorded outcomes, blocked adds the pending briefs that wait
   in vain, ready and waiting are the other pending ones, and the tallies add up to the number of briefs.
   */
  method OrchestrationReadiness(p: Plan) returns (r: Readiness)
    ensures r == Readiness(|ShownReady(p)|, |ShownWaiting(p)|, |ShownBlocked(p)|, |With(p, Completed)|, |With(p, Failed)|)
    ensures r.ready + r.waiting + r.blocked + r.completed + r.failed == |p|
  {
    r := Readiness(0, 0, 0, 0, 0);
    for i := 0 to |p|
      invariant r == Readiness(CountLifecycle(p, IsReady, i), CountLifecycle(p, IsWaiting, i),
                               CountLifecycle(p, IsBlocked, i), CountLifecycle(p, IsCompleted, i),
                               CountLifecycle(p, IsFailed, i))
      invariant r.ready + r.waiting + r.blocked + r.completed + r.failed == i
    {
      match StepLifecycle(p, i)
      case IsReady => r := r.(ready := r.ready + 1);
      case IsWaiting => r := r.(waiting := r.waiting + 1);
      case IsBlocked => r := r.(blocked := r.blocked + 1);
      case IsCompleted => r := r.(completed := r.completed + 1);
      case IsFailed => r := r.(failed := r.failed + 1);
    }
    LifecyclesCounted(p);
  }

  // ---- Rounds ----

  /** Dependencies only point at earlier briefs. */
  ghost predicate EarlierOnly(p: Plan) {
    forall i, k | 0 <= i < |p| && 0 <= k < |p[i].dependsOn| :: p[i].dependsOn[k] < i
  }

  /** What one round does: briefs it runs, with their terminal outcome, and briefs it blocks unrun. */
  datatype Round = Round(ran: map<int, Outcome>, gated: set<int>)

  ghost predicate LegalRound(p: Plan, r: Round, cap: nat) {
    && (forall i | i in r.ran :: StepLifecycle(p, i) == IsReady && r.ran[i] != Pending)
    && |r.ran| <= cap
    && (forall i | i in r.gated :: OutcomeAt(p, i) == Some(Pending) && StepLifecycle(p, i) == IsBlocked)
    && exists i :: i in r.ran || i in r.gated
  }

  function AfterRound(p: Plan, r: Round): (p': Plan)
    ensures |p'| == |p|
  {
    seq(|p|, i requires 0 <= i < |p| =>
      if i in r.ran then p[i].(outcome := r.ran[i])
      else if i in r.gated then p[i].(outcome := Blocked)
      else p[i])
  }

  ghost predicate LegalBatch(p: Plan, rounds: seq<Round>, cap: nat)
    decreases |rounds|
  {
    rounds != [] ==> LegalRound(p, rounds[0], cap) && LegalBatch(AfterRound(p, rounds[0]), rounds[1..], cap)
  }

  function AfterBatch(p: Plan, rounds: seq<Round>): (p': Plan)
    ensures |p'| == |p|
    decreases |rounds|
  {
    if rounds == [] then p else AfterBatch(AfterRound(p, rounds[0]), rounds[1..])
  }

  function PendingCount(p: Plan): nat {
    CountOutcome(p, Pending, |p|)
  }

  // ---- A batch never gets stuck ----

  function FirstPending(p: Plan, n: nat): (i: nat)
    requires n <= |p|
    ensures i <= n
    ensures forall k | 0 <= k < i :: p[k].outcome != Pending
    ensures i < n ==> p[i].outcome == Pending
  {
    if n == 0 then 0
    else
      var i := FirstPending(p, n - 1);
      if i < n - 1 || p[n - 1].outcome == Pending then i else n
  }

  /** While a brief is pending, some pending brief can be run or has to be blocked. */
  lemma NeverStuck(p: Plan)
    requires EarlierOnly(p) && CanRunOrchestration(p)
    ensures exists i | 0 <= i < |p| ::
              p[i].outcome == Pending && StepLifecycle(p, i) in {IsReady, IsBlocked}
  {
    var i := FirstPending(p, |p|);
    assert p[i].outcome == Pending;
    if !SomeDependencyBad(p, p[i]) {
      forall k | 0 <= k < |p[i].dependsOn| ensures SatisfiedOutcome(OutcomeAt(p, p[i].dependsOn[k])) {
        var d := p[i].dependsOn[k];
        assert !BadOutcome(OutcomeAt(p, d));
        assert d < i;
      }
    }
    assert StepLifecycle(p, i) in {IsReady, IsBlocked};
  }

  lemma SomeRoundIsLegal(p: Plan, cap: nat) returns (r: Round)
    requires EarlierOnly(p) && CanRunOrchestration(p) && cap >= 1
    ensures LegalRound(p, r, cap)
  {
    NeverStuck(p);
    var i :| 0 <= i < |p| && p[i].outcome == Pending && StepLifecycle(p, i) in {IsReady, IsBlocked};
    if StepLifecycle(p, i) == IsReady {
      r := Round(map[i := Completed], {});
    } else {
      r := Round(map[], {i});
    }
    assert i in r.ran || i in r.gated;
  }

  lemma {:induction false} PendingShrinks(p: Plan, p': Plan, n: nat)
    requires |p'| == |p| && n <= |p|
    requires forall i | 0 <= i < n :: p'[i].outcome == Pending ==> p[i].outcome == Pending
    ensures CountOutcome(p', Pending, n) <= CountOutcome(p, Pending, n)
    ensures (exists i | 0 <= i < n :: p'[i].outcome != Pending && p[i].outcome == Pending) ==>
              CountOutcome(p', Pending, n) < CountOutcome(p, Pending, n)
  {
    if n > 0 {
      PendingShrinks(p, p', n - 1);
    }
  }

  lemma RoundShrinks(p: Plan, r: Round, cap: nat)
    requires LegalRound(p, r, cap)
    ensures PendingCount(AfterRound(p, r)) < PendingCount(p)
  {
    var p' := AfterRound(p, r);
    var i :| i in r.ran || i in r.gated;
    assert i in r.ran ==> StepLifecycle(p, i) == IsReady;
    assert p'[i].outcome != Pending && p[i].outcome == Pending;
    PendingShrinks(p, p', |p|);
  }

  /** A batch has at most as many rounds as the plan has pending briefs. */
  lemma {:induction false} BatchIsShort(p: Plan, rounds: seq<Round>, cap: nat)
    requires LegalBatch(p, rounds, cap)
    ensures |rounds| + PendingCount(AfterBatch(p, rounds)) <= PendingCount(p) <= |p|
    decreases |rounds|
  {
    if rounds != [] {
      RoundShrinks(p, rounds[0], cap);
      BatchIsShort(AfterRound(p, rounds[0]), rounds[1..], cap);
    }
  }

  lemma {:induction false} BatchKeepsDependencies(p: Plan, rounds: seq<Round>)
    ensures forall i | 0 <= i < |p| :: AfterBatch(p, rounds)[i].dependsOn == p[i].dependsOn
    decreases |rounds|
  {
    if rounds != [] {
      BatchKeepsDependencies(AfterRound(p, rounds[0]), rounds[1..]);
    }
  }

  /** A batch that cannot be continued has left nothing pending. */
  lemma BatchEndsComplete(p: Plan, rounds: seq<Round>, cap: nat)
    requires EarlierOnly(p) && LegalBatch(p, rounds, cap) && cap >= 1
    requires forall r :: !LegalRound(AfterBatch(p, rounds), r, cap)
    ensures !CanRunOrchestration(AfterBatch(p, rounds))
  {
    var end := AfterBatch(p, rounds);
    BatchKeepsDependencies(p, rounds);
    if CanRunOrchestration(end) {
      var r := SomeRoundIsLegal(end, cap);
    }
  }

  // ---- Each brief runs at most once ----

  /** A recorded outcome is never changed again. */
  lemma {:induction false} OutcomesStand(p: Plan, rounds: seq<Round>, cap: nat, i: nat)
    requires LegalBatch(p, rounds, cap) && i < |p| && p[i].outcome != Pending
    ensures AfterBatch(p, rounds)[i].outcome == p[i].outcome
    ensures forall k | 0 <= k < |rounds| :: i !in rounds[k].ran && i !in rounds[k].gated
    decreases |rounds|
  {
    if rounds != [] {
      var r := rounds[0];
      assert i !in r.ran && i !in r.gated;
      OutcomesStand(AfterRound(p, r), rounds[1..], cap, i);
      assert forall k | 1 <= k < |rounds| :: rounds[k] == rounds[1..][k - 1];
    }
  }

  lemma {:induction false} RunsOnce(p: Plan, rounds: seq<Round>, cap: nat, i: int, j: nat, k: nat)
    requires LegalBatch(p, rounds, cap) && j < k < |rounds| && i in rounds[j].ran
    ensures i !in rounds[k].ran && i !in rounds[k].gated
    decreases |rounds|
  {
    if j == 0 {
      assert StepLifecycle(p, i) == IsReady;
      OutcomesStand(AfterRound(p, rounds[0]), rounds[1..], cap, i);
      assert rounds[k] == rounds[1..][k - 1];
    } else {
      RunsOnce(AfterRound(p, rounds[0]), rounds[1..], cap, i, j - 1, k - 1);
    }
  }

  // ---- The schedule does not matter ----

  /** The rounds report what each brief's adapter yields. */
  ghost predicate Reports(rounds: seq<Round>, result: int -> Outcome) {
    forall k, i | 0 <= k < |rounds| && i in rounds[k].ran :: rounds[k].ran[i] == result(i)
  }

  /** What becomes of a brief, by recursion over its dependencies and without any schedule. */
  ghost function Verdict(p: Plan, result: int -> Outcome, i: nat): Outcome
    requires EarlierOnly(p) && i < |p|
    decreases i
  {
    if p[i].outcome != Pending then p[i].outcome
    else if exists k | 0 <= k < |p[i].dependsOn| && 0 <= p[i].dependsOn[k] ::
              Verdict(p, result, p[i].dependsOn[k]) in {Failed, Blocked}
    then Blocked
    else result(i)
  }

  /** Every outcome recorded so far is the verdict. */
  ghost predicate Faithful(start: Plan, now: Plan, result: int -> Outcome)
    requires EarlierOnly(start)
  {
    && |now| == |start|
    && forall i | 0 <= i < |start| ::
         now[i].dependsOn == start[i].dependsOn &&
         (now[i].outcome != Pending ==> now[i].outcome == Verdict(start, result, i)) &&
         (start[i].outcome != Pending ==> now[i].outcome == start[i].outcome)
  }

  lemma RanGetsVerdict(start: Plan, now: Plan, result: int -> Outcome, i: nat)
    requires EarlierOnly(start) && Faithful(start, now, result) && i < |start|
    requires StepLifecycle(now, i) == IsReady
    ensures Verdict(start, result, i) == result(i)
  {
    assert now[i].outcome == Pending && start[i].outcome == Pending;
    forall k | 0 <= k < |start[i].dependsOn| && 0 <= start[i].dependsOn[k]
      ensures Verdict(start, result, start[i].dependsOn[k]) !in {Failed, Blocked}
    {
      var d := start[i].dependsOn[k];
      assert SatisfiedOutcome(OutcomeAt(now, now[i].dependsOn[k]));
      assert now[d].outcome == Completed;
    }
  }

  lemma GatedGetsVerdict(start: Plan, now: Plan, result: int -> Outcome, i: nat)
    requires EarlierOnly(start) && Faithful(start, now, result) && i < |start|
    requires now[i].outcome == Pending && StepLifecycle(now, i) == IsBlocked
    ensures Verdict(start, result, i) == Blocked
  {
    assert start[i].outcome == Pending;
    var k :| 0 <= k < |now[i].dependsOn| && BadOutcome(OutcomeAt(now, now[i].dependsOn[k]));
    var d := start[i].dependsOn[k];
    assert now[d].outcome == Verdict(start, result, d);
    assert Verdict(start, result, start[i].dependsOn[k]) in {Failed, Blocked};
  }

  lemma RoundStaysFaithful(start: Plan, now: Plan, r: Round, cap: nat, result: int -> Outcome)
    requires EarlierOnly(start) && Faithful(start, now, result) && LegalRound(now, r, cap)
    requires forall i | i in r.ran :: r.ran[i] == result(i)
    ensures Faithful(start, AfterRound(now, r), result)
  {
    forall i | 0 <= i < |start|
      ensures var o := AfterRound(now, r)[i].outcome; o != Pending ==> o == Verdict(start, result, i)
    {
      if i in r.ran {
        RanGetsVerdict(start, now, result, i);
      } else if i in r.gated {
        GatedGetsVerdict(start, now, result, i);
      }
    }
  }

  lemma {:induction false} BatchStaysFaithful(
      start: Plan, now: Plan, rounds: seq<Round>, cap: nat, result: int -> Outcome)
    requires EarlierOnly(start) && Faithful(start, now, result) && LegalBatch(now, rounds, cap)
    requires Reports(rounds, result)
    ensures Faithful(start, AfterBatch(now, rounds), result)
    decreases |rounds|
  {
    if rounds != [] {
      RoundStaysFaithful(start, now, rounds[0], cap, result);
      assert Reports(rounds[1..], result) by {
        assert forall k | 0 <= k < |rounds[1..]| :: rounds[1..][k] == rounds[k + 1];
      }
      BatchStaysFaithful(start, AfterRound(now, rounds[0]), rounds[1..], cap, result);
    }
  }

  /**
   However the scheduler groups briefs into rounds, and under whatever cap, a batch that leaves nothing
   pending records every brief's verdict.
   */
  lemma ScheduleIndependent(p: Plan, rounds: seq<Round>, cap: nat, result: int -> Outcome)
    requires EarlierOnly(p) && LegalBatch(p, rounds, cap) && Reports(rounds, result)
    requires !CanRunOrchestration(AfterBatch(p, rounds))
    ensures forall i | 0 <= i < |p| :: AfterBatch(p, rounds)[i].outcome == Verdict(p, result, i)
  {
    BatchStaysFaithful(p, p, rounds, cap, result);
  }

  // ---- What completion means ----

  /** Every completed brief has each dependency that is in the plan completed. */
  ghost predicate CompletionClosed(p: Plan) {
    forall i, k | 0 <= i < |p| && p[i].outcome == Completed && 0 <= k < |p[i].dependsOn| ::
      SatisfiedOutcome(OutcomeAt(p, p[i].dependsOn[k]))
  }

  lemma {:induction false} BatchKeepsCompletion(p: Plan, rounds: seq<Round>, cap: nat)
    requires CompletionClosed(p) && LegalBatch(p, rounds, cap)
    ensures CompletionClosed(AfterBatch(p, rounds))
    decreases |rounds|
  {
    if rounds != [] {
      var r := rounds[0];
      var p' := AfterRound(p, r);
      forall i, k | 0 <= i < |p'| && p'[i].outcome == Completed && 0 <= k < |p'[i].dependsOn|
        ensures SatisfiedOutcome(OutcomeAt(p', p'[i].dependsOn[k]))
      {
        var d := p[i].dependsOn[k];
        assert i in r.ran ==> StepLifecycle(p, i) == IsReady;
        assert SatisfiedOutcome(OutcomeAt(p, d));
        if 0 <= d < |p| {
          assert d !in r.ran && d !in r.gated;
        }
      }
      BatchKeepsCompletion(p', rounds[1..], cap);
    }
  }

  /** `path` leads from a brief down its dependencies, inside the plan. */
  ghost predicate DependencyPath(p: Plan, path: seq<int>) {
    && |path| > 0 && (forall n | 0 <= n < |path| :: 0 <= path[n] < |p|)
    && forall n | 0 <= n < |path| - 1 :: path[n + 1] in p[path[n]].dependsOn
  }

  /** A completed brief has all its transitive dependencies completed. */
  lemma {:induction false} CompletedAllTheWay(p: Plan, path: seq<int>)
    requires CompletionClosed(p) && DependencyPath(p, path) && p[path[0]].outcome == Completed
    ensures forall n | 0 <= n < |path| :: p[path[n]].outcome == Completed
    decreases |path|
  {
    if |path| > 1 {
      var i := path[0];
      var k :| 0 <= k < |p[i].dependsOn| && p[i].dependsOn[k] == path[1];
      assert SatisfiedOutcome(OutcomeAt(p, p[i].dependsOn[k]));
      var tail := path[1..];
      assert forall n | 0 <= n < |tail| :: tail[n] == path[n + 1];
      CompletedAllTheWay(p, tail);
    }
  }

  /** Without the order condition a batch can be stuck: two briefs that wait on each other. */
  lemma CycleIsStuck(cap: nat, r: Round)
    ensures var p := [Brief(Pending, [1]), Brief(Pending, [0])];
            CanRunOrchestration(p) && StepLifecycle(p, 0) == StepLifecycle(p, 1) == IsWaiting &&
            !LegalRound(p, r, cap)
  {
    var p := [Brief(Pending, [1]), Brief(Pending, [0])];
    assert p[0].outcome == Pending;
    assert p[0].dependsOn[0] == 1 && p[1].dependsOn[0] == 0;
    assert !SatisfiedOutcome(OutcomeAt(p, p[0].dependsOn[0]));
    assert !SatisfiedOutcome(OutcomeAt(p, p[1].dependsOn[0]));
    assert forall i :: StepLifecycle(p, i) == IsWaiting;
  }
}
