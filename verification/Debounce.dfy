/**
 The invalidation bus of apps/dashboard/src/invalidate.ts with the debounced subscription of
 `useInvalidate`. Time is an integer clock; a timer fires at its due time or later.
 */
module Debounce {
  import opened Options
  import opened Positions

  datatype Key = Briefs | Brief | Runs | Actions | Mandates

  /** One emitted invalidation. */
  datatype Frame = Frame(keys: seq<Key>, briefId: Option<string>)

  /** What a subscription listens for, and how long it waits. */
  datatype Wish = Wish(want: set<Key>, accepts: Option<string> -> bool, debounce: nat)

  predicate Matches(w: Wish, f: Frame) {
    (exists i | 0 <= i < |f.keys| :: f.keys[i] in w.want) && w.accepts(f.briefId)
  }

  /** One subscription: its clock, its pending timer, and the times of matching emits and of refetches. */
  datatype Sub = Sub(now: int, subscribed: bool, pending: Option<int>, heard: seq<int>, refetched: seq<int>)

  datatype Event = Emit(at: int, frame: Frame) | Fire(at: int) | Unsubscribe(at: int)

  predicate Enabled(s: Sub, e: Event) {
    e.at >= s.now && (e.Fire? ==> s.pending.Some? && e.at >= s.pending.value)
  }

  function Step(w: Wish, s: Sub, e: Event): Sub {
    match e
    case Emit(at, frame) =>
      if s.subscribed && Matches(w, frame) then
        s.(now := at, pending := Some(at + w.debounce), heard := s.heard + [at])
      else s.(now := at)
    case Fire(at) => s.(now := at, pending := None, refetched := s.refetched + [at])
    case Unsubscribe(at) => s.(now := at, pending := None, subscribed := false)
  }

  function Fresh(now: int): Sub {
    Sub(now, true, None, [], [])
  }

  // ---- The subscription as an object ----

  class Subscription {
    const wish: Wish
    var now: int
    var subscribed: bool
    var pending: Option<int>
    var heard: seq<int>
    var refetched: seq<int>

    function State(): Sub
      reads this
    {
      Sub(now, subscribed, pending, heard, refetched)
    }

    constructor (wish: Wish, at: int)
      ensures this.wish == wish && State() == Fresh(at)
    {
      this.wish := wish;
      now, subscribed, pending, heard, refetched := at, true, None, [], [];
    }

    /** The listener: any wanted key that passes the filter restarts the timer. */
    method OnFrame(at: int, frame: Frame)
      modifies this
      ensures State() == Step(wish, old(State()), Emit(at, frame))
    {
      now := at;
      if !subscribed {
        return;
      }
      var wanted := false;
      for i := 0 to |frame.keys|
        invariant wanted <==> exists j | 0 <= j < i :: frame.keys[j] in wish.want
        invariant State() == old(State()).(now := at)
      {
        if frame.keys[i] in wish.want {
          wanted := true;
        }
      }
      if !wanted || !wish.accepts(frame.briefId) {
        return;
      }
      heard := heard + [at];
      pending := Some(at + wish.debounce);
    }

    method OnTimer(at: int)
      modifies this
      ensures State() == Step(wish, old(State()), Fire(at))
    {
      now := at;
      pending := None;
      refetched := refetched + [at];
    }

    method Stop(at: int)
      modifies this
      ensures State() == Step(wish, old(State()), Unsubscribe(at))
    {
      now := at;
      pending := None;
      subscribed := false;
    }
  }

  // ---- No emit is lost ----

  ghost predicate IsRun(w: Wish, s: Sub, es: seq<Event>)
    decreases |es|
  {
    es != [] ==> Enabled(s, es[0]) && IsRun(w, Step(w, s, es[0]), es[1..])
  }

  function EndState(w: Wish, s: Sub, es: seq<Event>): Sub
    decreases |es|
  {
    if es == [] then s else EndState(w, Step(w, s, es[0]), es[1..])
  }

  /** A matching emit is covered by a refetch a full debounce later, or one is still to come. */
  ghost predicate Covered(w: Wish, s: Sub, t: int) {
    || (exists k | 0 <= k < |s.refetched| :: s.refetched[k] >= t + w.debounce)
    || (s.pending.Some? && s.pending.value >= t + w.debounce)
    || !s.subscribed
  }

  ghost predicate Inv(w: Wish, s: Sub) {
    && (!s.subscribed ==> s.pending.None?)
    && (forall i | 0 <= i < |s.heard| :: s.heard[i] <= s.now && Covered(w, s, s.heard[i]))
    && (s.pending.Some? ==> s.heard != [] && s.pending.value == s.heard[|s.heard| - 1] + w.debounce)
    && |s.refetched| + (if s.pending.Some? then 1 else 0) <= |s.heard|
  }

  lemma StepKeepsInv(w: Wish, s: Sub, e: Event)
    requires Inv(w, s) && Enabled(s, e)
    ensures Inv(w, Step(w, s, e))
  {
    var s' := Step(w, s, e);
    forall i | 0 <= i < |s'.heard| ensures s'.heard[i] <= s'.now && Covered(w, s', s'.heard[i]) {
      if i < |s.heard| {
        assert Covered(w, s, s.heard[i]);
        if k :| 0 <= k < |s.refetched| && s.refetched[k] >= s.heard[i] + w.debounce {
          assert s'.refetched[k] == s.refetched[k];
        } else if e.Fire? {
          assert s'.refetched[|s.refetched|] == e.at;
        }
      }
    }
  }

  /**
   In every run each matching emit is followed, a debounce or more later, by a refetch, unless a timer
   for it is still pending or the client unsubscribed; refetches never outnumber matching emits.
   */
  lemma {:induction false} NoEmitLost(w: Wish, s: Sub, es: seq<Event>)
    requires Inv(w, s) && IsRun(w, s, es)
    ensures Inv(w, EndState(w, s, es))
    decreases |es|
  {
    if es != [] {
      StepKeepsInv(w, s, es[0]);
      NoEmitLost(w, Step(w, s, es[0]), es[1..]);
    }
  }

  lemma FreshInv(w: Wish, at: int)
    ensures Inv(w, Fresh(at))
  {
  }

  /** The times of the matching emits before the first unsubscribe. */
  function MatchingEmits(w: Wish, es: seq<Event>): seq<int> {
    if es == [] || es[0].Unsubscribe? then []
    else (if es[0].Emit? && Matches(w, es[0].frame) then [es[0].at] else []) + MatchingEmits(w, es[1..])
  }

  /** A subscription hears every matching emit until it unsubscribes, and nothing else. */
  lemma {:induction false} HearsMatchingEmits(w: Wish, s: Sub, es: seq<Event>)
    requires IsRun(w, s, es) && s.subscribed
    ensures EndState(w, s, es).heard == s.heard + MatchingEmits(w, es)
    decreases |es|
  {
    if es != [] {
      var s' := Step(w, s, es[0]);
      if es[0].Unsubscribe? {
        SilentAfterStop(w, s', es[1..]);
      } else {
        HearsMatchingEmits(w, s', es[1..]);
      }
    }
  }

  /** From a new subscription on, every matching emit is covered and refetches never outnumber them. */
  lemma NoEmitLostFromStart(w: Wish, at: int, es: seq<Event>)
    requires IsRun(w, Fresh(at), es)
    ensures var t := EndState(w, Fresh(at), es);
            && (forall i | 0 <= i < |MatchingEmits(w, es)| :: Covered(w, t, MatchingEmits(w, es)[i]))
            && |t.refetched| <= |MatchingEmits(w, es)|
  {
    FreshInv(w, at);
    NoEmitLost(w, Fresh(at), es);
    HearsMatchingEmits(w, Fresh(at), es);
    assert EndState(w, Fresh(at), es).heard == MatchingEmits(w, es);
  }

  /** An emit before the first unsubscribe that names a wanted key and passes the filter. */
  ghost predicate Concerns(w: Wish, es: seq<Event>, i: int) {
    && 0 <= i < |es| && es[i].Emit? && (forall j | 0 <= j < i :: !es[j].Unsubscribe?)
    && (exists k | 0 <= k < |es[i].frame.keys| :: es[i].frame.keys[k] in w.want) && w.accepts(es[i].frame.briefId)
  }

  /** At a position with no unsubscribe before it, concern is a matter of the event alone. */
  lemma ConcernsAt(w: Wish, es: seq<Event>, i: nat)
    requires i < |es| && forall j | 0 <= j < i :: !es[j].Unsubscribe?
    ensures Concerns(w, es, i) <==> es[i].Emit? && Matches(w, es[i].frame)
    ensures es[i].Unsubscribe? ==> forall p: nat | p >= i :: !Concerns(w, es, p)
  {
  }

  /** The matching emits from a position on, if nothing unsubscribed before it. */
  lemma {:induction false} MatchingEmitsFrom(w: Wish, es: seq<Event>, of: nat -> bool, i: nat) returns (index: seq<nat>)
    requires i <= |es| && forall j | 0 <= j < i :: !es[j].Unsubscribe?
    requires forall p: nat :: of(p) <==> Concerns(w, es, p)
    ensures Lists(index, i, of)
    ensures |index| == |MatchingEmits(w, es[i..])|
    ensures forall j | 0 <= j < |index| :: index[j] < |es| && MatchingEmits(w, es[i..])[j] == es[index[j]].at
    decreases |es| - i
  {
    if i == |es| {
      index := [];
    } else {
      ConcernsAt(w, es, i);
      assert es[i..][1..] == es[i + 1..] && es[i..][0] == es[i];
      if es[i].Unsubscribe? {
        index := [];
      } else {
        var tail := MatchingEmitsFrom(w, es, of, i + 1);
        ListsNext(tail, i, of);
        index := if of(i) then [i] + tail else tail;
      }
    }
  }

  /** The matching emits are exactly the emits of concern, in order. */
  lemma MatchingEmitsAre(w: Wish, es: seq<Event>) returns (index: seq<nat>)
    ensures Lists(index, 0, p => Concerns(w, es, p))
    ensures |index| == |MatchingEmits(w, es)|
    ensures forall j | 0 <= j < |index| :: index[j] < |es| && MatchingEmits(w, es)[j] == es[index[j]].at
  {
    assert es[0..] == es;
    index := MatchingEmitsFrom(w, es, p => Concerns(w, es, p), 0);
  }

  /** Each such emit of a run is followed by a refetch a debounce or more later, or one is pending, or the client left. */
  lemma EachConcernCovered(w: Wish, at: int, es: seq<Event>, i: nat)
    requires IsRun(w, Fresh(at), es) && Concerns(w, es, i)
    ensures Covered(w, EndState(w, Fresh(at), es), es[i].at)
  {
    NoEmitLostFromStart(w, at, es);
    var index := MatchingEmitsAre(w, es);
    assert i in index;
    var j :| 0 <= j < |index| && index[j] == i;
  }

  /** After unsubscribe nothing is heard and nothing fires. */
  lemma {:induction false} SilentAfterStop(w: Wish, s: Sub, es: seq<Event>)
    requires !s.subscribed && s.pending.None? && IsRun(w, s, es)
    ensures var t := EndState(w, s, es); t.refetched == s.refetched && t.heard == s.heard
    decreases |es|
  {
    if es != [] {
      SilentAfterStop(w, Step(w, s, es[0]), es[1..]);
    }
  }

  // ---- A burst refetches once ----

  /** No unsubscribe, and every matching emit comes less than a debounce after the one before. */
  ghost predicate Burst(w: Wish, last: Option<int>, es: seq<Event>)
    decreases |es|
  {
    es != [] ==>
      match es[0]
      case Unsubscribe(_) => false
      case Fire(_) => Burst(w, last, es[1..])
      case Emit(at, frame) =>
        if Matches(w, frame) then
          (last.Some? ==> at < last.value + w.debounce) && Burst(w, Some(at), es[1..])
        else Burst(w, last, es[1..])
  }

  /** Once the burst has fired, it can neither hear nor fire again. */
  lemma {:induction false} SpentBurst(w: Wish, last: int, s: Sub, es: seq<Event>)
    requires s.subscribed && s.pending.None? && s.now >= last + w.debounce
    requires IsRun(w, s, es) && Burst(w, Some(last), es)
    ensures var t := EndState(w, s, es); t.heard == s.heard && t.refetched == s.refetched && t.pending.None?
    decreases |es|
  {
    if es != [] {
      SpentBurst(w, last, Step(w, s, es[0]), es[1..]);
    }
  }

  /** A burst whose timer is set ends with exactly one more refetch, or with the timer still set. */
  lemma {:induction false} RunningBurst(w: Wish, last: int, s: Sub, es: seq<Event>)
    requires s.subscribed && s.pending == Some(last + w.debounce)
    requires IsRun(w, s, es) && Burst(w, Some(last), es)
    ensures var t := EndState(w, s, es);
            |t.refetched| == |s.refetched| + (if t.pending.Some? then 0 else 1)
    decreases |es|
  {
    if es != [] {
      var s' := Step(w, s, es[0]);
      match es[0]
      case Fire(at) => SpentBurst(w, last, s', es[1..]);
      case Emit(at, frame) => RunningBurst(w, if Matches(w, frame) then at else last, s', es[1..]);
    }
  }

  /** A burst of emits that starts at rest and comes to rest refetches once if it matched at all, else never. */
  lemma {:induction false} BurstRefetchesOnce(w: Wish, s: Sub, es: seq<Event>)
    requires s.subscribed && s.pending.None? && IsRun(w, s, es) && Burst(w, None, es)
    requires EndState(w, s, es).pending.None?
    ensures var t := EndState(w, s, es);
            |t.refetched| == |s.refetched| + (if t.heard == s.heard then 0 else 1)
    decreases |es|
  {
    if es != [] {
      var s' := Step(w, s, es[0]);
      if es[0].Emit? && Matches(w, es[0].frame) {
        RunningBurst(w, es[0].at, s', es[1..]);
        HeardGrows(w, s', es[1..]);
      } else {
        BurstRefetchesOnce(w, s', es[1..]);
      }
    }
  }

  lemma {:induction false} HeardGrows(w: Wish, s: Sub, es: seq<Event>)
    ensures |EndState(w, s, es).heard| >= |s.heard|
    decreases |es|
  {
    if es != [] {
      HeardGrows(w, Step(w, s, es[0]), es[1..]);
    }
  }

  // ---- Many subscriptions on one bus ----

  /** A frame reaches every subscription; a timer and an unsubscribe belong to one. */
  datatype BusEvent = Send(at: int, frame: Frame) | FireOf(id: nat, at: int) | StopOf(id: nat, at: int)

  function BusStep(wishes: seq<Wish>, subs: seq<Sub>, e: BusEvent): (subs': seq<Sub>)
    requires |wishes| == |subs|
    ensures |subs'| == |subs|
  {
    match e
    case Send(at, frame) =>
      seq(|subs|, i requires 0 <= i < |subs| => Step(wishes[i], subs[i], Emit(at, frame)))
    case FireOf(id, at) => if id < |subs| then subs[id := Step(wishes[id], subs[id], Fire(at))] else subs
    case StopOf(id, at) => if id < |subs| then subs[id := Step(wishes[id], subs[id], Unsubscribe(at))] else subs
  }

  function BusRun(wishes: seq<Wish>, subs: seq<Sub>, es: seq<BusEvent>): (end: seq<Sub>)
    requires |wishes| == |subs|
    ensures |end| == |subs|
    decreases |es|
  {
    if es == [] then subs else BusRun(wishes, BusStep(wishes, subs, es[0]), es[1..])
  }

  /** What one subscription sees of an event. */
  function Seen(id: nat, e: BusEvent): seq<Event> {
    match e
    case Send(at, frame) => [Emit(at, frame)]
    case FireOf(i, at) => if i == id then [Fire(at)] else []
    case StopOf(i, at) => if i == id then [Unsubscribe(at)] else []
  }

  /** The events one subscription sees. */
  function SeenBy(id: nat, es: seq<BusEvent>): seq<Event> {
    if es == [] then [] else Seen(id, es[0]) + SeenBy(id, es[1..])
  }

  lemma {:induction false} EndStateConcat(w: Wish, s: Sub, es: seq<Event>, more: seq<Event>)
    ensures EndState(w, s, es + more) == EndState(w, EndState(w, s, es), more)
    decreases |es|
  {
    if es == [] {
      assert es + more == more;
    } else {
      assert (es + more)[1..] == es[1..] + more;
      EndStateConcat(w, Step(w, s, es[0]), es[1..], more);
    }
  }

  /** On a shared bus every subscription behaves as it would alone. */
  lemma {:induction false} SubscriptionsDoNotInterfere(wishes: seq<Wish>, subs: seq<Sub>, es: seq<BusEvent>, id: nat)
    requires |wishes| == |subs| && id < |subs|
    ensures BusRun(wishes, subs, es)[id] == EndState(wishes[id], subs[id], SeenBy(id, es))
    decreases |es|
  {
    if es != [] {
      EndStateConcat(wishes[id], subs[id], Seen(id, es[0]), SeenBy(id, es[1..]));
      SubscriptionsDoNotInterfere(wishes, BusStep(wishes, subs, es[0]), es[1..], id);
    }
  }
}
