/**
 The session-expiry readout of apps/dashboard/src/account.ts: how a number of seconds is shown, and the
 passive warning computed from metadata fetched once. Times are whole numbers.
 */
module SessionCountdown {
  import opened JsText
  import opened Options

  datatype TimeUnit = Day | Hour | Minute | Second

  /** A count of one unit. */
  datatype Part = Part(count: nat, unit: TimeUnit)

  /** The seconds a part stands for. */
  function Worth(p: Part): nat {
    match p.unit
    case Day => 86400 * p.count
    case Hour => 3600 * p.count
    case Minute => 60 * p.count
    case Second => p.count
  }

  function Max(a: int, b: int): int { if a >= b then a else b }

  /** Days, hours, minutes and seconds. */
  datatype Units = Units(days: nat, hours: nat, mins: nat, secs: nat)

  /** The units of a number of seconds; a negative one counts as zero. */
  function UnitsOf(totalSecs: int): (u: Units)
    ensures u.hours < 24 && u.mins < 60 && u.secs < 60
    ensures Total(u) == Max(0, totalSecs)
  {
    var s := Max(0, totalSecs);
    var day := s % 86400;
    var hour := day % 3600;
    Units(s / 86400, day / 3600, hour / 60, hour % 60)
  }

  function Total(u: Units): nat {
    86400 * u.days + 3600 * u.hours + 60 * u.mins + u.secs
  }

  /** The non-zero parts, coarsest first. */
  function Parts(u: Units): seq<Part> {
    (if u.days > 0 then [Part(u.days, Day)] else []) + (if u.hours > 0 then [Part(u.hours, Hour)] else []) +
    (if u.mins > 0 then [Part(u.mins, Minute)] else []) + (if u.secs > 0 then [Part(u.secs, Second)] else [])
  }

  /** What is spelled out: at most the two coarsest parts, "0s" for none. */
  function Shown(u: Units): seq<Part> {
    var parts := Parts(u);
    if |parts| == 0 then [Part(0, Second)] else if |parts| > 2 then parts[..2] else parts
  }

  function Letter(u: TimeUnit): char {
    match u case Day => 'd' case Hour => 'h' case Minute => 'm' case Second => 's'
  }

  /** Each count with its letter, joined by blanks. */
  function Spelled(parts: seq<Part>): string {
    if parts == [] then ""
    else
      Decimal(parts[0].count) +
      ([Letter(parts[0].unit)] + if |parts| == 1 then "" else " " + Spelled(parts[1..]))
  }

  /** The letter behind each count, and the blank between two. */
  lemma SpelledMeans(n: nat, p: Part, q: Part)
    ensures Spelled([Part(n, Day)]) == Decimal(n) + "d" && Spelled([Part(n, Hour)]) == Decimal(n) + "h"
    ensures Spelled([Part(n, Minute)]) == Decimal(n) + "m" && Spelled([Part(n, Second)]) == Decimal(n) + "s"
    ensures Spelled([p, q]) == Spelled([p]) + " " + Spelled([q])
  {
    assert [p, q][1..] == [q];
  }

  /** The successive subtractions. */
  method TakeUnits(totalSecs: int) returns (u: Units)
    ensures u == UnitsOf(totalSecs)
  {
    var s := Max(0, totalSecs);
    var days := s / 86400;
    s := s - days * 86400;
    var hours := s / 3600;
    s := s - hours * 3600;
    var mins := s / 60;
    s := s - mins * 60;
    u := Units(days, hours, mins, s);
    UnitsUnique(u, UnitsOf(totalSecs));
  }

  method FormatDuration(totalSecs: int) returns (text: string)
    ensures text == Spelled(Shown(UnitsOf(totalSecs)))
  {
    var u := TakeUnits(totalSecs);
    var parts := [];
    if u.days > 0 { parts := parts + [Part(u.days, Day)]; }
    if u.hours > 0 { parts := parts + [Part(u.hours, Hour)]; }
    if u.mins > 0 { parts := parts + [Part(u.mins, Minute)]; }
    if u.secs > 0 { parts := parts + [Part(u.secs, Second)]; }
    assert parts == Parts(u);
    if |parts| == 0 {
      parts := [Part(0, Second)];
    }
    text := Spelled(if |parts| > 2 then parts[..2] else parts);
  }

  // ---- Reading the text back ----

  function UnitOf(c: char): Option<TimeUnit> {
    if c == 'd' then Some(Day) else if c == 'h' then Some(Hour)
    else if c == 'm' then Some(Minute) else if c == 's' then Some(Second) else None
  }

  /** The parts a text names; `acc` is the number read so far. */
  function ReadParts(text: string, acc: nat): Option<seq<Part>>
    decreases |text|
  {
    if text == "" then None
    else if IsDigit(text[0]) then ReadParts(text[1..], 10 * acc + Digit(text[0]))
    else
      var unit := UnitOf(text[0]);
      if unit.None? then None
      else if |text| == 1 then Some([Part(acc, unit.value)])
      else if text[1] != ' ' then None
      else
        var rest := ReadParts(text[2..], 0);
        if rest.None? then None else Some([Part(acc, unit.value)] + rest.value)
  }

  lemma {:induction false} ReadDigits(digits: string, text: string, acc: nat)
    requires forall i | 0 <= i < |digits| :: IsDigit(digits[i])
    ensures ReadParts(digits + text, acc) == ReadParts(text, DigitsFrom(digits, acc))
    decreases |digits|
  {
    if digits == "" {
      assert digits + text == text;
    } else {
      assert (digits + text)[1..] == digits[1..] + text;
      ReadDigits(digits[1..], text, 10 * acc + Digit(digits[0]));
    }
  }

  /** No two lists of parts are spelled alike: the text names its parts. */
  lemma {:induction false} SpelledReadsBack(parts: seq<Part>)
    requires parts != []
    ensures ReadParts(Spelled(parts), 0) == Some(parts)
  {
    var p := parts[0];
    var tail := if |parts| == 1 then "" else " " + Spelled(parts[1..]);
    ReadDigits(Decimal(p.count), [Letter(p.unit)] + tail, 0);
    DecimalValue(p.count);
    if |parts| > 1 {
      SpelledReadsBack(parts[1..]);
      assert ([Letter(p.unit)] + tail)[2..] == Spelled(parts[1..]);
      assert parts == [p] + parts[1..];
    } else {
      assert parts == [p];
    }
  }

  /** The readout as text says at most two units and stands for the readout in seconds. */
  lemma TextSaysReadout(totalSecs: int)
    ensures var read := ReadParts(Spelled(Shown(UnitsOf(totalSecs))), 0);
            read.Some? && 1 <= |read.value| <= 2 && ShownSecs(read.value) == Readout(totalSecs)
  {
    SpelledReadsBack(Shown(UnitsOf(totalSecs)));
  }

  lemma UnitsUnique(u: Units, v: Units)
    requires u.hours < 24 && u.mins < 60 && u.secs < 60
    requires v.hours < 24 && v.mins < 60 && v.secs < 60
    requires Total(u) == Total(v)
    ensures u == v
  {
    assert u.days == v.days;
    assert u.hours == v.hours;
    assert u.mins == v.mins;
  }

  /** The duration the spelled-out parts stand for. */
  function ShownSecs(parts: seq<Part>): nat {
    if parts == [] then 0 else Worth(parts[0]) + ShownSecs(parts[1..])
  }

  /** The readout of a number of seconds, as the duration it spells out. */
  function Readout(totalSecs: int): nat {
    ShownSecs(Shown(UnitsOf(totalSecs)))
  }

  /** Which units the readout drops. */
  function Kept(u: Units): nat {
    if u.days > 0 && u.hours > 0 then 86400 * u.days + 3600 * u.hours
    else if u.mins > 0 && (u.days > 0 || u.hours > 0) then Total(u) - u.secs
    else Total(u)
  }

  lemma OnePart(a: Part)
    ensures ShownSecs([a]) == Worth(a)
  {
    assert [a][1..] == [];
  }

  lemma TwoParts(a: Part, b: Part)
    ensures ShownSecs([a, b]) == Worth(a) + Worth(b)
    ensures ShownSecs([a]) == Worth(a)
  {
    OnePart(a);
    OnePart(b);
    assert [a, b][1..] == [b];
  }

  lemma ShownIsKept(u: Units)
    ensures ShownSecs(Shown(u)) == Kept(u)
  {
    var d, h, m, s := Part(u.days, Day), Part(u.hours, Hour), Part(u.mins, Minute), Part(u.secs, Second);
    if u.days > 0 && u.hours > 0 {
      assert Shown(u) == [d, h];
      TwoParts(d, h);
    } else if u.days > 0 {
      CoarseIsKept(u, d);
    } else if u.hours > 0 {
      CoarseIsKept(u, h);
    } else {
      FineIsKept(u);
    }
  }

  /** Days without hours, or hours without days, and what comes next. */
  lemma CoarseIsKept(u: Units, a: Part)
    requires (u.days > 0 && u.hours == 0 && a == Part(u.days, Day)) ||
             (u.days == 0 && u.hours > 0 && a == Part(u.hours, Hour))
    ensures ShownSecs(Shown(u)) == Kept(u)
  {
    var m, s := Part(u.mins, Minute), Part(u.secs, Second);
    TwoParts(a, m);
    TwoParts(a, s);
    if u.mins > 0 {
      assert Shown(u) == [a, m];
    } else if u.secs > 0 {
      assert Shown(u) == [a, s];
    } else {
      assert Shown(u) == [a];
    }
  }

  lemma FineIsKept(u: Units)
    requires u.days == 0 && u.hours == 0
    ensures ShownSecs(Shown(u)) == Kept(u)
  {
    var m, s := Part(u.mins, Minute), Part(u.secs, Second);
    TwoParts(m, s);
    TwoParts(s, s);
    if u.mins > 0 && u.secs > 0 {
      assert Shown(u) == [m, s];
    } else if u.mins > 0 {
      assert Shown(u) == [m];
    } else {
      assert Shown(u) == [s];
    }
  }

  /** The readout never overstates, drops less than an hour, and below a day less than a minute. */
  lemma ReadoutBounds(totalSecs: int)
    ensures var v, s := Readout(totalSecs), Max(0, totalSecs);
            v <= s < v + 3600 && (s < 86400 ==> s < v + 60)
  {
    ShownIsKept(UnitsOf(totalSecs));
  }

  lemma KeptMonotone(u: Units, v: Units)
    requires u.hours < 24 && u.mins < 60 && u.secs < 60
    requires v.hours < 24 && v.mins < 60 && v.secs < 60
    requires Total(u) <= Total(v)
    ensures Kept(u) <= Kept(v)
  {
    assert u.days <= v.days;
    if u.days == v.days {
      assert u.hours <= v.hours;
      if u.hours == v.hours {
        assert u.mins <= v.mins;
      }
    }
  }

  /** A smaller time is never shown as a larger one. */
  lemma ReadoutMonotone(a: int, b: int)
    requires a <= b
    ensures Readout(a) <= Readout(b)
  {
    ShownIsKept(UnitsOf(a));
    ShownIsKept(UnitsOf(b));
    KeptMonotone(UnitsOf(a), UnitsOf(b));
  }

  // ---- The warning ----

  const ABSOLUTE_WARN_SECS: int := 30 * 60
  const IDLE_WARN_SECS: int := 10 * 60

  /** What the kernel answered: seconds left on each window, if it sent them. */
  datatype Meta = Meta(authDisabled: bool, absoluteLeft: Option<int>, idleLeft: Option<int>)

  datatype Warning = Absolute(secsLeft: int) | Idle(secsLeft: int)

  function ElapsedSince(anchorMs: int, nowMs: int): int {
    Max(0, (nowMs - anchorMs) / 1000)
  }

  function Remaining(left: Option<int>, elapsed: int): Option<int> {
    if left.None? then None else Some(Max(0, left.value - Max(0, elapsed)))
  }

  predicate Urgent(left: Option<int>, threshold: int) {
    left.Some? && left.value <= threshold
  }

  /** Collects the urgent windows and takes the one with the fewest seconds, the absolute one on a tie. */
  method SessionWarning(meta: Meta, elapsed: int) returns (w: Option<Warning>)
    ensures w == WarningAt(meta, elapsed)
  {
    if meta.authDisabled {
      return None;
    }
    var absLeft, idleLeft := Remaining(meta.absoluteLeft, elapsed), Remaining(meta.idleLeft, elapsed);
    var candidates: seq<Warning> := [];
    if absLeft.Some? && absLeft.value <= ABSOLUTE_WARN_SECS {
      candidates := candidates + [Absolute(absLeft.value)];
    }
    if idleLeft.Some? && idleLeft.value <= IDLE_WARN_SECS {
      candidates := candidates + [Idle(idleLeft.value)];
    }
    if |candidates| == 0 {
      return None;
    }
    var first := candidates[0];
    if |candidates| == 2 && candidates[1].secsLeft < first.secsLeft {
      first := candidates[1];
    }
    return Some(first);
  }

  function WarningAt(meta: Meta, elapsed: int): Option<Warning> {
    var absLeft, idleLeft := Remaining(meta.absoluteLeft, elapsed), Remaining(meta.idleLeft, elapsed);
    var a, i := Urgent(absLeft, ABSOLUTE_WARN_SECS), Urgent(idleLeft, IDLE_WARN_SECS);
    if meta.authDisabled || (!a && !i) then None
    else if a && (!i || absLeft.value <= idleLeft.value) then Some(Absolute(absLeft.value))
    else Some(Idle(idleLeft.value))
  }

  /**
   A warning names a window inside its own threshold with the seconds left on it, no urgent window has fewer
   seconds left, and of two urgent windows with the same seconds left it names the absolute one.
   */
  lemma WarningIsMostUrgent(meta: Meta, elapsed: int)
    ensures var w := WarningAt(meta, elapsed);
            var a, i := Remaining(meta.absoluteLeft, elapsed), Remaining(meta.idleLeft, elapsed);
            && (w.None? <==> meta.authDisabled || (!Urgent(a, ABSOLUTE_WARN_SECS) && !Urgent(i, IDLE_WARN_SECS)))
            && (w.Some? ==>
                  && (Urgent(a, ABSOLUTE_WARN_SECS) ==> w.value.secsLeft <= a.value)
                  && (Urgent(i, IDLE_WARN_SECS) ==> w.value.secsLeft <= i.value)
                  && Some(w.value.secsLeft) == (if w.value.Absolute? then a else i)
                  && (if w.value.Absolute? then Urgent(a, ABSOLUTE_WARN_SECS) else Urgent(i, IDLE_WARN_SECS))
                  && (Urgent(a, ABSOLUTE_WARN_SECS) && Urgent(i, IDLE_WARN_SECS) && a == i ==> w.value.Absolute?))
  {
  }

  /**
   For metadata fetched once, a warning that is shown stays, and neither the seconds left nor the
   countdown as spelled out ever goes up while the clock advances.
   */
  lemma CountdownNeverRises(meta: Meta, anchorMs: int, now1: int, now2: int)
    requires now1 <= now2
    ensures var w1 := WarningAt(meta, ElapsedSince(anchorMs, now1));
            var w2 := WarningAt(meta, ElapsedSince(anchorMs, now2));
            w1.Some? ==>
              w2.Some? && w2.value.secsLeft <= w1.value.secsLeft &&
              Readout(w2.value.secsLeft) <= Readout(w1.value.secsLeft)
  {
    assert ElapsedSince(anchorMs, now1) <= ElapsedSince(anchorMs, now2);
    var w1 := WarningAt(meta, ElapsedSince(anchorMs, now1));
    var w2 := WarningAt(meta, ElapsedSince(anchorMs, now2));
    if w1.Some? {
      ReadoutMonotone(w2.value.secsLeft, w1.value.secsLeft);
    }
  }

  // ---- The warning in plain arithmetic ----

  /**
   With `elapsed` seconds gone, a window is near its end when no more than 1800 seconds of the absolute one or
   600 of the idle one are left. The warning shows what is left of the window that ends first, never below
   zero, and there is none exactly when neither is near its end or authentication is off.
   */
  lemma WarningMeans(meta: Meta, elapsed: int)
    requires elapsed >= 0
    ensures var w := WarningAt(meta, elapsed);
            var a := if meta.absoluteLeft.Some? then meta.absoluteLeft.value - elapsed else 1801;
            var i := if meta.idleLeft.Some? then meta.idleLeft.value - elapsed else 601;
            var absoluteLeft, idleLeft := if a < 0 then 0 else a, if i < 0 then 0 else i;
            if meta.authDisabled || (a > 1800 && i > 600) then w == None
            else if i > 600 || (a <= 1800 && absoluteLeft <= idleLeft) then w == Some(Absolute(absoluteLeft))
            else w == Some(Idle(idleLeft))
  {
  }

  /** A clock that is behind the anchor counts as no time gone, and part of a second does not count. */
  lemma ElapsedMeans(anchorMs: int, nowMs: int)
    ensures var e := ElapsedSince(anchorMs, nowMs);
            if nowMs < anchorMs then e == 0 else 1000 * e <= nowMs - anchorMs < 1000 * e + 1000
  {
  }

  /** Each whole second since the anchor takes one second off a countdown, as long as it shows the same window and is not spent. */
  lemma CountdownTicks(meta: Meta, anchorMs: int, nowMs: int, secs: nat)
    requires nowMs >= anchorMs
    ensures var before := WarningAt(meta, ElapsedSince(anchorMs, nowMs));
            var after := WarningAt(meta, ElapsedSince(anchorMs, nowMs + 1000 * secs));
            before.Some? && after.Some? && before.value.Absolute? == after.value.Absolute? ==>
              after.value.secsLeft == if before.value.secsLeft < secs then 0 else before.value.secsLeft - secs
  {
    assert (nowMs + 1000 * secs - anchorMs) / 1000 == (nowMs - anchorMs) / 1000 + secs;
  }
}
