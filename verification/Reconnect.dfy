/**
 The reconnecting event-stream subscriptions of apps/dashboard/src/api.ts. Browser and timer events are
 inputs; a closed source and a cleared timer deliver nothing. `reenter` says that the caller's onConn
 callback calls the returned unsubscribe function before it returns.
 */
module Reconnect {
  import opened Options

  datatype Conn = Connecting | Live | Reconnecting | Unavailable

  /**
   The closure's variables, the delay of a pending timer, every source that is not closed, and what the
   callbacks were told. Sources are numbered in the order in which they are opened.
   */
  datatype State = State(
    source: Option<nat>, closed: bool, attempts: nat, backoff: nat, timer: Option<nat>,
    alive: set<nat>, openings: nat, reports: seq<Conn>, gone: nat)

  datatype Event =
    | Opened(src: nat, reenter: bool)
    | Failed(src: nat, reenter: bool)
    | NotFound(src: nat)
    | TimerFires(reenter: bool)
    | Unsubscribe

  const FIRST_BACKOFF: nat := 1000
  const MAX_BACKOFF: nat := 15000

  function Min(a: nat, b: nat): nat { if a <= b then a else b }

  function CloseSource(s: State): State {
    if s.source.Some? then s.(source := None, alive := s.alive - {s.source.value}) else s
  }

  function Unsubscribed(s: State): State {
    CloseSource(s.(closed := true, timer := None))
  }

  function Told(s: State, c: Conn, reenter: bool): State {
    var t := s.(reports := s.reports + [c]);
    if reenter then Unsubscribed(t) else t
  }

  /** `connect`: the new source is opened after the callback returns, whatever the callback did. */
  function Connected(s: State, reenter: bool): State {
    if s.closed then s
    else
      var t := Told(s, if s.attempts == 0 then Connecting else Reconnecting, reenter);
      t.(source := Some(t.openings), alive := t.alive + {t.openings}, openings := t.openings + 1)
  }

  const INIT := Connected(State(None, false, 0, FIRST_BACKOFF, None, {}, 0, [], 0), false)

  predicate Enabled(s: State, e: Event) {
    match e
    case Opened(src, _) => src in s.alive
    case Failed(src, _) => src in s.alive
    case NotFound(src) => src in s.alive
    case TimerFires(_) => s.timer.Some?
    case Unsubscribe => true
  }

  function Step(s: State, e: Event): State {
    match e
    case Opened(_, reenter) => Told(s.(attempts := 0, backoff := FIRST_BACKOFF), Live, reenter)
    case Failed(_, reenter) =>
      var t := CloseSource(s);
      if t.closed then t
      else
        var u := Told(t.(attempts := t.attempts + 1),
                      if t.attempts + 1 >= 3 then Unavailable else Reconnecting, reenter);
        u.(timer := Some(u.backoff), backoff := Min(u.backoff * 2, MAX_BACKOFF))
    case NotFound(_) =>
      var t := CloseSource(s.(closed := true));
      t.(reports := t.reports + [Unavailable], gone := t.gone + 1)
    case TimerFires(reenter) => Connected(s.(timer := None), reenter)
    case Unsubscribe => Unsubscribed(s)
  }

  // ---- The closure as an object ----

  class Subscription {
    var source: Option<nat>
    var closed: bool
    var attempts: nat
    var backoff: nat
    var timer: Option<nat>
    var alive: set<nat>
    var openings: nat
    var reports: seq<Conn>
    var gone: nat

    function Now(): State
      reads this
    {
      State(source, closed, attempts, backoff, timer, alive, openings, reports, gone)
    }

    /** Subscribing connects at once. */
    constructor ()
      ensures Now() == INIT
    {
      source, closed, attempts, backoff, timer := None, false, 0, FIRST_BACKOFF, None;
      alive, openings, reports, gone := {}, 0, [], 0;
      new;
      Connect(false);
    }

    method Tell(c: Conn, reenter: bool)
      modifies this
      ensures Now() == Told(old(Now()), c, reenter)
    {
      reports := reports + [c];
      if reenter {
        Stop();
      }
    }

    method Close()
      modifies this
      ensures Now() == CloseSource(old(Now()))
    {
      if source.Some? {
        alive := alive - {source.value};
      }
      source := None;
    }

    /** The returned unsubscribe function. */
    method Stop()
      modifies this
      ensures Now() == Step(old(Now()), Unsubscribe)
    {
      closed := true;
      timer := None;
      Close();
    }

    method Connect(reenter: bool)
      modifies this
      ensures Now() == Connected(old(Now()), reenter)
    {
      if closed {
        return;
      }
      Tell(if attempts == 0 then Connecting else Reconnecting, reenter);
      source := Some(openings);
      alive := alive + {openings};
      openings := openings + 1;
    }

    method OnOpen(src: nat, reenter: bool)
      modifies this
      ensures Now() == Step(old(Now()), Opened(src, reenter))
    {
      attempts := 0;
      backoff := FIRST_BACKOFF;
      Tell(Live, reenter);
    }

    method OnError(src: nat, reenter: bool)
      modifies this
      ensures Now() == Step(old(Now()), Failed(src, reenter))
    {
      Close();
      if closed {
        return;
      }
      attempts := attempts + 1;
      Tell(if attempts >= 3 then Unavailable else Reconnecting, reenter);
      timer := Some(backoff);
      backoff := Min(backoff * 2, MAX_BACKOFF);
    }

    method OnNotFound(src: nat)
      modifies this
      ensures Now() == Step(old(Now()), NotFound(src))
    {
      closed := true;
      Close();
      reports := reports + [Unavailable];
      gone := gone + 1;
    }

    method OnTimer(reenter: bool)
      modifies this
      ensures Now() == Step(old(Now()), TimerFires(reenter))
    {
      timer := None;
      Connect(reenter);
    }
  }

  // ---- What every run keeps ----

  function Pow2(n: nat): nat {
    if n == 0 then 1 else 2 * Pow2(n - 1)
  }

  /** The capped exponential delay after `n` failures in a row. */
  function Delay(n: nat): nat {
    Min(FIRST_BACKOFF * Pow2(n), MAX_BACKOFF)
  }

  function LastReport(s: State): Conn
    requires s.reports != []
  {
    s.reports[|s.reports| - 1]
  }

  /**
   What holds in every run, whatever the callbacks do: no source but the current one is open, the next
   delay is the capped power of two, while subscribed there is exactly one open source or one pending
   timer, the reported state is the true one, and the subscription is told at most once that it is gone.
   */
  ghost predicate Inv(s: State) {
    && s.alive == (if s.source.Some? then {s.source.value} else {})
    && (s.source.Some? ==> s.source.value < s.openings)
    && s.backoff == Delay(s.attempts)
    && (!s.closed ==> (s.source.Some? <==> s.timer.None?))
    && (s.timer.Some? ==> s.attempts > 0 && s.timer.value == Delay(s.attempts - 1) && s.source.None?)
    && s.gone <= 1 && (s.gone == 1 ==> s.closed && s.source.None?)
    && s.reports != []
    && (!s.closed ==> HonestReport(s))
  }

  /** A subscribed client is told Live only with no failure since, and Unavailable from the third on. */
  ghost predicate HonestReport(s: State)
    requires s.reports != []
  {
    match LastReport(s)
    case Live => s.attempts == 0 && s.source.Some?
    case Connecting => s.attempts == 0 && s.source.Some?
    case Unavailable => s.attempts >= 3 && s.timer.Some?
    case Reconnecting => s.attempts > 0 && (s.timer.Some? ==> s.attempts < 3)
  }

  /** Once closed, nothing is open and nothing is pending. */
  ghost predicate Quiet(s: State) {
    s.closed ==> s.source.None? && s.timer.None?
  }

  /** Unsubscribing from inside the callback of a reconnect or of a failure. */
  predicate Reenters(e: Event) {
    (e.TimerFires? && e.reenter) || (e.Failed? && e.reenter)
  }

  lemma StepKeepsInv(s: State, e: Event)
    requires Inv(s) && Enabled(s, e)
    ensures Inv(Step(s, e))
  {
  }

  /**
   A step from a quiet state ends quiet exactly when it is not such a re-entrant unsubscribe. A source is
   left open exactly by one from the callback of a reconnect, a timer exactly by one from that of a failure.
   */
  lemma QuietExactly(s: State, e: Event)
    requires Inv(s) && Quiet(s) && Enabled(s, e)
    ensures Quiet(Step(s, e)) <==> !Reenters(e)
    ensures Step(s, e).closed && Step(s, e).source.Some? <==> e.TimerFires? && e.reenter
    ensures Step(s, e).closed && Step(s, e).timer.Some? <==> e.Failed? && e.reenter
  {
  }

  ghost predicate IsRun(s: State, es: seq<Event>)
    decreases |es|
  {
    es != [] ==> Enabled(s, es[0]) && IsRun(Step(s, es[0]), es[1..])
  }

  function EndState(s: State, es: seq<Event>): State
    decreases |es|
  {
    if es == [] then s else EndState(Step(s, es[0]), es[1..])
  }

  /** Every run from any good state, and so every run from the start, stays good. */
  lemma {:induction false} RunsKeepInv(s: State, es: seq<Event>)
    requires Inv(s) && IsRun(s, es)
    ensures Inv(EndState(s, es))
    ensures Quiet(s) && (forall i | 0 <= i < |es| :: !Reenters(es[i])) ==> Quiet(EndState(s, es))
    decreases |es|
  {
    if es != [] {
      StepKeepsInv(s, es[0]);
      if Quiet(s) {
        QuietExactly(s, es[0]);
      }
      assert forall i | 0 <= i < |es[1..]| :: es[1..][i] == es[i + 1];
      RunsKeepInv(Step(s, es[0]), es[1..]);
    }
  }

  /** In every run exactly one of these holds at the end: one open source, one pending timer, closed with neither. */
  lemma ExactlyOneMode(es: seq<Event>)
    requires IsRun(INIT, es) && forall i | 0 <= i < |es| :: !Reenters(es[i])
    ensures var s := EndState(INIT, es);
            || (!s.closed && s.source.Some? && s.alive == {s.source.value} && s.timer.None?)
            || (!s.closed && s.source.None? && s.alive == {} && s.timer.Some?)
            || (s.closed && s.source.None? && s.alive == {} && s.timer.None?)
  {
    RunsKeepInv(INIT, es);
  }

  lemma {:induction false} ClosedRunsOpenNothing(s: State, es: seq<Event>)
    requires s.closed && IsRun(s, es)
    ensures EndState(s, es).closed && EndState(s, es).openings == s.openings
    decreases |es|
  {
    if es != [] {
      ClosedRunsOpenNothing(Step(s, es[0]), es[1..]);
    }
  }

  /** A quiet closed subscription hears nothing more: in every run its callbacks are told nothing. */
  lemma {:induction false} QuietForGood(s: State, es: seq<Event>)
    requires Inv(s) && Quiet(s) && s.closed && IsRun(s, es)
    ensures EndState(s, es) == s
    decreases |es|
  {
    if es != [] {
      assert es[0] == Unsubscribe;
      QuietForGood(Step(s, es[0]), es[1..]);
    }
  }

  /**
   A client that unsubscribes inside the reconnect callback keeps an open source, which still reports
   Live after the unsubscribe.
   */
  lemma ReentrantUnsubscribeLeaks()
    ensures var s := EndState(INIT, [Failed(0, false), TimerFires(true)]);
            var t := Step(s, Opened(1, false));
            IsRun(INIT, [Failed(0, false), TimerFires(true), Opened(1, false)]) &&
            s.closed && s.alive == {1} && t.closed && LastReport(t) == Live
  {
    var es := [Failed(0, false), TimerFires(true), Opened(1, false)];
    var s1 := Step(INIT, es[0]);
    var s2 := Step(s1, es[1]);
    assert es[1..] == [TimerFires(true), Opened(1, false)];
    assert es[1..][1..] == [Opened(1, false)];
    assert IsRun(s2, [Opened(1, false)]);
    assert IsRun(s1, es[1..]);
    var fs := [Failed(0, false), TimerFires(true)];
    assert fs[1..] == [TimerFires(true)] && fs[1..][1..] == [];
    assert EndState(s1, fs[1..]) == s2;
  }

  // ---- In plain numbers ----

  /** The waits after one, two, three and four failures in a row, and after any more, in milliseconds. */
  lemma {:induction false} DelaysAre(n: nat)
    ensures Delay(0) == 1000 && Delay(1) == 2000 && Delay(2) == 4000 && Delay(3) == 8000
    ensures Delay(n + 4) == 15000
  {
    assert Pow2(1) == 2 && Pow2(2) == 4 && Pow2(3) == 8 && Pow2(4) == 16;
    Pow2Grows(n, 4);
  }

  lemma {:induction false} Pow2Grows(n: nat, m: nat)
    ensures Pow2(n + m) >= Pow2(m)
  {
    if n > 0 {
      Pow2Grows(n - 1, m);
    }
  }

  /** The terminal event leaves nothing open or pending, reports the stream unavailable, and says that it is gone. */
  lemma NotFoundEnds(s: State, src: nat)
    requires Inv(s) && Enabled(s, NotFound(src))
    ensures var t := Step(s, NotFound(src));
            && t.closed && t.source == None && t.timer == None && t.alive == {} && t.gone == 1
            && t.reports == s.reports + [Unavailable] && t.openings == s.openings
  {
  }

  lemma {:induction false} GoneGrows(s: State, es: seq<Event>)
    requires IsRun(s, es)
    ensures EndState(s, es).gone >= s.gone
    ensures EndState(s, es).gone > s.gone <==> exists i | 0 <= i < |es| :: es[i].NotFound?
    decreases |es|
  {
    if es != [] {
      GoneGrows(Step(s, es[0]), es[1..]);
      if i :| 0 <= i < |es| && es[i].NotFound? {
        assert i > 0 ==> es[1..][i - 1].NotFound?;
      }
      if i :| 0 <= i < |es[1..]| && es[1..][i].NotFound? {
        assert es[i + 1].NotFound?;
      }
    }
  }

  /** In every run the client is told that the stream is gone exactly when the terminal event came, and once. */
  lemma GoneExactly(es: seq<Event>)
    requires IsRun(INIT, es)
    ensures EndState(INIT, es).gone == if exists i | 0 <= i < |es| :: es[i].NotFound? then 1 else 0
  {
    RunsKeepInv(INIT, es);
    GoneGrows(INIT, es);
  }
}
