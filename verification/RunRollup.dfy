/**
 The run and cost rollup of a subtree: apps/dashboard/src/runrollup.ts. Amounts are exact numbers; a metric
 that a run did not report is none.
 */
module RunRollup {
  import opened Options
  import opened Positions

  datatype Run = Run(
    taskId: string, status: string, cost: Option<real>, durationMs: Option<real>,
    inputTokens: Option<real>, outputTokens: Option<real>)

  /** How many runs reported an amount, and what they reported together. */
  datatype Sum = Sum(total: real, reported: nat)

  datatype Tally = Tally(runs: nat, active: nat, done: nat, failed: nat, cost: Sum, duration: Sum, tokens: Sum)

  datatype Rollup = Rollup(tally: Tally, costKnown: bool, durationKnown: bool, tokensKnown: bool)

  const NOTHING := Sum(0.0, 0)
  const EMPTY := Tally(0, 0, 0, 0, NOTHING, NOTHING, NOTHING)

  datatype Bucket = Active | Done | Failed

  /** Any status that is not known to be final counts as in flight. */
  function RunBucket(status: string): Bucket {
    if status == "completed" then Done
    else if status == "failed" || status == "cancelled" then Failed
    else Active
  }

  /** Input and output tokens together, none when the run reported neither. */
  function UsageTokens(run: Run): Option<real> {
    if run.inputTokens.None? && run.outputTokens.None? then None
    else
      Some((if run.inputTokens.Some? then run.inputTokens.value else 0.0) +
           (if run.outputTokens.Some? then run.outputTokens.value else 0.0))
  }

  function Report(amount: Option<real>): Sum {
    if amount.Some? then Sum(amount.value, 1) else NOTHING
  }

  function Add(a: Sum, b: Sum): Sum {
    Sum(a.total + b.total, a.reported + b.reported)
  }

  /** Two tallies taken together. */
  function Plus(a: Tally, b: Tally): Tally {
    Tally(a.runs + b.runs, a.active + b.active, a.done + b.done, a.failed + b.failed,
          Add(a.cost, b.cost), Add(a.duration, b.duration), Add(a.tokens, b.tokens))
  }

  /** What one run of the subtree adds. */
  function Single(run: Run): Tally {
    var b := RunBucket(run.status);
    Tally(1, if b == Active then 1 else 0, if b == Done then 1 else 0, if b == Failed then 1 else 0,
          Report(run.cost), Report(run.durationMs), Report(UsageTokens(run)))
  }

  function Counted(run: Run, ids: set<string>): Tally {
    if run.taskId in ids then Single(run) else EMPTY
  }

  /** The sum of `f` along a list. */
  function Total<S, T>(plus: (T, T) -> T, zero: T, f: S -> T, xs: seq<S>): T {
    if xs == [] then zero
    else plus(Total(plus, zero, f, xs[..|xs| - 1]), f(xs[|xs| - 1]))
  }

  function Counting(ids: set<string>): Run -> Tally {
    (run: Run) => Counted(run, ids)
  }

  function Tallied(runs: seq<Run>, ids: set<string>): Tally {
    Total(Plus, EMPTY, Counting(ids), runs)
  }

  function Rolled(runs: seq<Run>, ids: set<string>): Rollup {
    var t := Tallied(runs, ids);
    Rollup(t, t.cost.reported > 0, t.duration.reported > 0, t.tokens.reported > 0)
  }

  method AddAmount(sum: Sum, amount: Option<real>) returns (sum': Sum)
    ensures sum' == Add(sum, Report(amount))
  {
    sum' := sum;
    if amount.Some? {
      sum' := Sum(sum.total + amount.value, sum.reported + 1);
    }
  }

  /** One turn of the loop, for a run of the subtree. */
  method AddRun(t: Tally, run: Run) returns (t': Tally)
    ensures t' == Plus(t, Single(run))
  {
    var active, done, failed := t.active, t.done, t.failed;
    match RunBucket(run.status) {
      case Done => done := done + 1;
      case Failed => failed := failed + 1;
      case Active => active := active + 1;
    }
    var cost := AddAmount(t.cost, run.cost);
    var duration := AddAmount(t.duration, run.durationMs);
    var tokens := AddAmount(t.tokens, UsageTokens(run));
    t' := Tally(t.runs + 1, active, done, failed, cost, duration, tokens);
  }

  lemma TalliedNext(runs: seq<Run>, ids: set<string>, i: nat)
    requires i < |runs|
    ensures Tallied(runs[..i + 1], ids) ==
            if runs[i].taskId in ids then Plus(Tallied(runs[..i], ids), Single(runs[i])) else Tallied(runs[..i], ids)
  {
    assert runs[..i + 1] == runs[..i] + [runs[i]];
  }

  /** The loop over the runs. */
  method RollupRuns(runs: seq<Run>, ids: set<string>) returns (r: Rollup)
    ensures r == Rolled(runs, ids)
  {
    var t := EMPTY;
    for i := 0 to |runs|
      invariant t == Tallied(runs[..i], ids)
    {
      TalliedNext(runs, ids, i);
      if runs[i].taskId in ids {
        t := AddRun(t, runs[i]);
      }
    }
    assert runs[..|runs|] == runs;
    r := Rollup(t, t.cost.reported > 0, t.duration.reported > 0, t.tokens.reported > 0);
  }

  // ---- Sums in any order ----

  ghost predicate Associates<T(!new)>(plus: (T, T) -> T) {
    forall a, b, c :: plus(plus(a, b), c) == plus(a, plus(b, c))
  }

  ghost predicate IsSum<T(!new)>(plus: (T, T) -> T, zero: T) {
    && Associates(plus)
    && (forall a, b :: plus(a, b) == plus(b, a))
    && (forall a :: plus(a, zero) == a)
  }

  lemma PlusIsSum()
    ensures IsSum(Plus, EMPTY)
  {
    forall a, b, c ensures Plus(Plus(a, b), c) == Plus(a, Plus(b, c)) {
    }
  }

  lemma {:induction false} TotalConcat<S, T(!new)>(plus: (T, T) -> T, zero: T, f: S -> T, a: seq<S>, b: seq<S>)
    requires Associates(plus) && forall x :: plus(x, zero) == x
    ensures Total(plus, zero, f, a + b) == plus(Total(plus, zero, f, a), Total(plus, zero, f, b))
  {
    if b == [] {
      assert a + b == a;
    } else {
      var n := |b| - 1;
      TotalConcat(plus, zero, f, a, b[..n]);
      assert a + b == (a + b[..n]) + [b[n]];
    }
  }

  /** Taking out one element, wherever it stands. */
  lemma TotalWithout<S, T(!new)>(plus: (T, T) -> T, zero: T, f: S -> T, before: seq<S>, x: S, after: seq<S>)
    requires IsSum(plus, zero)
    ensures Total(plus, zero, f, before + [x] + after) == plus(Total(plus, zero, f, before + after), f(x))
  {
    var tb, ta := Total(plus, zero, f, before), Total(plus, zero, f, after);
    TotalConcat(plus, zero, f, before + [x], after);
    TotalConcat(plus, zero, f, before, after);
    assert plus(plus(tb, f(x)), ta) == plus(tb, plus(f(x), ta));
    assert plus(tb, plus(ta, f(x))) == plus(plus(tb, ta), f(x));
  }

  /** Where the last element of a list stands in a permutation of it. */
  lemma FindLast<S>(a: seq<S>, b: seq<S>) returns (before: seq<S>, after: seq<S>)
    requires a != [] && multiset(a) == multiset(b)
    ensures b == before + [a[|a| - 1]] + after
    ensures multiset(a[..|a| - 1]) == multiset(before + after)
  {
    var n := |a| - 1;
    var x := a[n];
    assert a == a[..n] + [x];
    assert x in multiset(b);
    var j :| 0 <= j < |b| && b[j] == x;
    before, after := b[..j], b[j + 1..];
    assert b == before + [x] + after;
    assert multiset(b) == multiset(before + after) + multiset([x]);
    assert multiset(a[..n]) == multiset(a) - multiset([x]);
  }

  lemma {:induction false} TotalPermutes<S, T(!new)>(plus: (T, T) -> T, zero: T, f: S -> T, a: seq<S>, b: seq<S>)
    requires IsSum(plus, zero) && multiset(a) == multiset(b)
    ensures Total(plus, zero, f, a) == Total(plus, zero, f, b)
    decreases |a|
  {
    if a == [] {
      assert |multiset(b)| == 0;
    } else {
      var before, after := FindLast(a, b);
      TotalPermutes(plus, zero, f, a[..|a| - 1], before + after);
      TotalWithout(plus, zero, f, before, a[|a| - 1], after);
    }
  }

  /** If two pairs of summands agree at every element, so do the pairs of sums. */
  lemma {:induction false} TotalsExchange<S(!new), T(!new)>(
      plus: (T, T) -> T, zero: T, f: S -> T, g: S -> T, f': S -> T, g': S -> T, xs: seq<S>)
    requires IsSum(plus, zero)
    requires forall x :: plus(f(x), g(x)) == plus(f'(x), g'(x))
    ensures plus(Total(plus, zero, f, xs), Total(plus, zero, g, xs)) ==
            plus(Total(plus, zero, f', xs), Total(plus, zero, g', xs))
  {
    if xs != [] {
      var n := |xs| - 1;
      var front, x := xs[..n], xs[n];
      TotalsExchange(plus, zero, f, g, f', g', front);
    }
  }

  lemma {:induction false} TotalOfNothing<S(!new), T(!new)>(plus: (T, T) -> T, zero: T, f: S -> T, xs: seq<S>)
    requires IsSum(plus, zero) && forall x :: f(x) == zero
    ensures Total(plus, zero, f, xs) == zero
  {
    if xs != [] {
      TotalOfNothing(plus, zero, f, xs[..|xs| - 1]);
    }
  }

  // ---- What a rollup says ----

  /** The order in which the runs are listed plays no part. */
  lemma OrderPlaysNoPart(a: seq<Run>, b: seq<Run>, ids: set<string>)
    requires multiset(a) == multiset(b)
    ensures Rolled(a, ids) == Rolled(b, ids)
  {
    PlusIsSum();
    TotalPermutes(Plus, EMPTY, Counting(ids), a, b);
  }

  /** Lists of runs add up. */
  lemma ListsAddUp(a: seq<Run>, b: seq<Run>, ids: set<string>)
    ensures Tallied(a + b, ids) == Plus(Tallied(a, ids), Tallied(b, ids))
  {
    PlusIsSum();
    TotalConcat(Plus, EMPTY, Counting(ids), a, b);
  }

  /**
   What two subtrees have together and in common is what each has: disjoint subtrees add up, and a task that
   is in both is not counted twice.
   */
  lemma SubtreesAddUp(runs: seq<Run>, ids: set<string>, more: set<string>)
    ensures Plus(Tallied(runs, ids + more), Tallied(runs, ids * more)) ==
            Plus(Tallied(runs, ids), Tallied(runs, more))
    ensures ids !! more ==> Tallied(runs, ids + more) == Plus(Tallied(runs, ids), Tallied(runs, more))
  {
    PlusIsSum();
    forall run
      ensures Plus(Counting(ids + more)(run), Counting(ids * more)(run)) == Plus(Counting(ids)(run), Counting(more)(run))
    {
      CountedOnce(run, ids, more);
    }
    TotalsExchange(
      Plus, EMPTY, Counting(ids + more), Counting(ids * more), Counting(ids), Counting(more), runs);
    if ids !! more {
      assert ids * more == {};
      TotalOfNothing(Plus, EMPTY, Counting({}), runs);
    }
  }

  lemma CountedOnce(run: Run, ids: set<string>, more: set<string>)
    ensures Plus(Counted(run, ids + more), Counted(run, ids * more)) == Plus(Counted(run, ids), Counted(run, more))
  {
    OnceEach(Single(run), run.taskId in ids, run.taskId in more);
  }

  lemma OnceEach(t: Tally, a: bool, b: bool)
    ensures Plus(if a || b then t else EMPTY, if a && b then t else EMPTY) ==
            Plus(if a then t else EMPTY, if b then t else EMPTY)
  {
    PlusIsSum();
  }

  ghost predicate InSubtree(runs: seq<Run>, ids: set<string>, i: int) {
    0 <= i < |runs| && runs[i].taskId in ids
  }

  /** Every counted run is in one bucket, and no metric was reported by more runs than there are. */
  lemma {:induction false} BucketsAddUp(runs: seq<Run>, ids: set<string>)
    ensures var t := Tallied(runs, ids);
            && t.active + t.done + t.failed == t.runs
            && t.cost.reported <= t.runs && t.duration.reported <= t.runs && t.tokens.reported <= t.runs
  {
    if runs != [] {
      BucketsAddUp(runs[..|runs| - 1], ids);
    }
  }

  /** One metric of the subtree's runs. */
  function MetricOf(metric: Run -> Option<real>, ids: set<string>): Run -> Sum {
    (run: Run) => if run.taskId in ids then Report(metric(run)) else NOTHING
  }

  function SumOf(metric: Run -> Option<real>, runs: seq<Run>, ids: set<string>): Sum {
    Total(Add, NOTHING, MetricOf(metric, ids), runs)
  }

  ghost predicate Reported(metric: Run -> Option<real>, runs: seq<Run>, ids: set<string>) {
    exists i :: InSubtree(runs, ids, i) && metric(runs[i]).Some?
  }

  lemma {:induction false} ReportedExactly(metric: Run -> Option<real>, runs: seq<Run>, ids: set<string>)
    ensures SumOf(metric, runs, ids).reported > 0 <==> Reported(metric, runs, ids)
    ensures !Reported(metric, runs, ids) ==> SumOf(metric, runs, ids) == NOTHING
  {
    if runs != [] {
      var n := |runs| - 1;
      var front := runs[..n];
      ReportedExactly(metric, front, ids);
      ReportedNext(metric, runs, ids);
    }
  }

  lemma ReportedNext(metric: Run -> Option<real>, runs: seq<Run>, ids: set<string>)
    requires runs != []
    ensures var n := |runs| - 1;
            Reported(metric, runs, ids) <==>
              Reported(metric, runs[..n], ids) || (runs[n].taskId in ids && metric(runs[n]).Some?)
  {
    var n := |runs| - 1;
    var front := runs[..n];
    if i :| InSubtree(front, ids, i) && metric(front[i]).Some? {
      assert InSubtree(runs, ids, i) && metric(runs[i]).Some?;
    }
    if i :| InSubtree(runs, ids, i) && metric(runs[i]).Some? {
      assert i < n ==> InSubtree(front, ids, i) && metric(front[i]).Some?;
    }
    assert runs[n].taskId in ids ==> InSubtree(runs, ids, n);
  }

  lemma {:induction false} MetricsApart(runs: seq<Run>, ids: set<string>)
    ensures var t := Tallied(runs, ids);
            && t.cost == SumOf((run: Run) => run.cost, runs, ids)
            && t.duration == SumOf((run: Run) => run.durationMs, runs, ids)
            && t.tokens == SumOf(UsageTokens, runs, ids)
  {
    if runs != [] {
      MetricsApart(runs[..|runs| - 1], ids);
    }
  }

  /** A metric is shown as known exactly when some run of the subtree reported it, be it zero; an unknown one is zero. */
  lemma KnownExactly(runs: seq<Run>, ids: set<string>)
    ensures var r := Rolled(runs, ids);
            && (r.costKnown <==> Reported((run: Run) => run.cost, runs, ids))
            && (r.durationKnown <==> Reported((run: Run) => run.durationMs, runs, ids))
            && (r.tokensKnown <==> Reported(UsageTokens, runs, ids))
            && (!r.costKnown ==> r.tally.cost == NOTHING)
            && (!r.durationKnown ==> r.tally.duration == NOTHING)
            && (!r.tokensKnown ==> r.tally.tokens == NOTHING)
  {
    MetricsApart(runs, ids);
    ReportedExactly((run: Run) => run.cost, runs, ids);
    ReportedExactly((run: Run) => run.durationMs, runs, ids);
    ReportedExactly(UsageTokens, runs, ids);
  }

  // ---- The figures, said outright ----

  function OrZero(amount: Option<real>): real {
    if amount.Some? then amount.value else 0.0
  }

  /** The plain sum over the runs of the subtree. */
  function PlainSum(amount: Run -> real, runs: seq<Run>, ids: set<string>): real {
    if runs == [] then 0.0
    else
      PlainSum(amount, runs[..|runs| - 1], ids) +
      if runs[|runs| - 1].taskId in ids then amount(runs[|runs| - 1]) else 0.0
  }

  /** The runs of the subtree that pass a test, by position. */
  function Which(test: Run -> bool, runs: seq<Run>, ids: set<string>): set<nat> {
    set i: nat | i < |runs| && runs[i].taskId in ids && test(runs[i])
  }

  lemma WhichNext(test: Run -> bool, runs: seq<Run>, ids: set<string>)
    requires runs != []
    ensures var n := |runs| - 1;
            |Which(test, runs, ids)| ==
              |Which(test, runs[..n], ids)| + if runs[n].taskId in ids && test(runs[n]) then 1 else 0
  {
    var n: nat := |runs| - 1;
    var front := runs[..n];
    assert forall i | 0 <= i < n :: front[i] == runs[i];
    AddOne(Which(test, front, ids), Which(test, runs, ids), n, runs[n].taskId in ids && test(runs[n]));
  }

  lemma {:induction false} SumMeans(metric: Run -> Option<real>, runs: seq<Run>, ids: set<string>)
    ensures SumOf(metric, runs, ids).total == PlainSum((run: Run) => OrZero(metric(run)), runs, ids)
    ensures SumOf(metric, runs, ids).reported == |Which((run: Run) => metric(run).Some?, runs, ids)|
  {
    if runs != [] {
      SumMeans(metric, runs[..|runs| - 1], ids);
      WhichNext((run: Run) => metric(run).Some?, runs, ids);
    }
  }

  lemma {:induction false} PlainSumSame(f: Run -> real, g: Run -> real, runs: seq<Run>, ids: set<string>)
    requires forall run :: f(run) == g(run)
    ensures PlainSum(f, runs, ids) == PlainSum(g, runs, ids)
  {
    if runs != [] {
      PlainSumSame(f, g, runs[..|runs| - 1], ids);
    }
  }

  predicate IsDone(run: Run) { run.status == "completed" }

  predicate IsFailed(run: Run) { run.status == "failed" || run.status == "cancelled" }

  lemma {:induction false} BucketsMean(runs: seq<Run>, ids: set<string>)
    ensures var t := Tallied(runs, ids);
            && t.runs == |Which((run: Run) => true, runs, ids)|
            && t.done == |Which((run: Run) => IsDone(run), runs, ids)|
            && t.failed == |Which((run: Run) => IsFailed(run), runs, ids)|
            && t.active == |Which((run: Run) => !IsDone(run) && !IsFailed(run), runs, ids)|
  {
    if runs != [] {
      BucketsMean(runs[..|runs| - 1], ids);
      WhichNext((run: Run) => true, runs, ids);
      WhichNext((run: Run) => IsDone(run), runs, ids);
      WhichNext((run: Run) => IsFailed(run), runs, ids);
      WhichNext((run: Run) => !IsDone(run) && !IsFailed(run), runs, ids);
    }
  }

  /** An amount: the plain sum, and how many runs carry it. */
  ghost predicate Adds(sum: Sum, amount: Run -> real, carries: Run -> bool, runs: seq<Run>, ids: set<string>) {
    sum.total == PlainSum(amount, runs, ids) && sum.reported == |Which(carries, runs, ids)|
  }

  /**
   Every figure of a rollup: absent amounts count as zero, tokens are input plus output, and a run counts by its
   status.
   */
  lemma RolledMeans(runs: seq<Run>, ids: set<string>)
    ensures var t := Rolled(runs, ids).tally;
            && Adds(t.cost, (run: Run) => OrZero(run.cost), (run: Run) => run.cost.Some?, runs, ids)
            && Adds(t.duration, (run: Run) => OrZero(run.durationMs), (run: Run) => run.durationMs.Some?, runs, ids)
            && Adds(t.tokens, (run: Run) => OrZero(run.inputTokens) + OrZero(run.outputTokens),
                    (run: Run) => run.inputTokens.Some? || run.outputTokens.Some?, runs, ids)
            && t.runs == |Which((run: Run) => true, runs, ids)|
            && t.done == |Which((run: Run) => IsDone(run), runs, ids)|
            && t.failed == |Which((run: Run) => IsFailed(run), runs, ids)|
            && t.active == |Which((run: Run) => !IsDone(run) && !IsFailed(run), runs, ids)|
  {
    MetricsApart(runs, ids);
    BucketsMean(runs, ids);
    MetricAdds((run: Run) => run.cost, (run: Run) => OrZero(run.cost), (run: Run) => run.cost.Some?, runs, ids);
    MetricAdds((run: Run) => run.durationMs, (run: Run) => OrZero(run.durationMs), (run: Run) => run.durationMs.Some?,
               runs, ids);
    MetricAdds(UsageTokens, (run: Run) => OrZero(run.inputTokens) + OrZero(run.outputTokens),
               (run: Run) => run.inputTokens.Some? || run.outputTokens.Some?, runs, ids);
  }

  lemma MetricAdds(
      metric: Run -> Option<real>, amount: Run -> real, carries: Run -> bool, runs: seq<Run>, ids: set<string>)
    requires forall run :: amount(run) == OrZero(metric(run)) && (carries(run) <==> metric(run).Some?)
    ensures Adds(SumOf(metric, runs, ids), amount, carries, runs, ids)
  {
    SumMeans(metric, runs, ids);
    PlainSumSame((run: Run) => OrZero(metric(run)), amount, runs, ids);
    assert Which((run: Run) => metric(run).Some?, runs, ids) == Which(carries, runs, ids);
  }
}
