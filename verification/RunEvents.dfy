/**
 The two event-transcript tails: apps/dashboard/src/reluxruntranscript.ts (string ids whose suffix is
 parsed) and apps/dashboard/src/runtranscript.ts (optional numeric ids).
 */
module RunEvents {
  import opened JsText
  import opened Options
  import opened StableMerge

  const MAX_SAFE_INTEGER: int := 9007199254740991

  // ---- Numeric suffixes ----

  /** `Number.parseInt(s, 10)`, none for NaN: blanks, one sign, then as many digits as there are. */
  function ParseInt(s: string): Option<int> {
    if s == "" then None
    else if IsSpace(s[0]) then ParseInt(s[1..])
    else if s[0] == '-' then
      if |s| > 1 && IsDigit(s[1]) then
        var n: int := DigitsFrom(s[1..], 0);
        Some(-n)
      else None
    else if s[0] == '+' then
      if |s| > 1 && IsDigit(s[1]) then Some(DigitsFrom(s[1..], 0)) else None
    else if IsDigit(s[0]) then Some(DigitsFrom(s, 0))
    else None
  }

  /** What follows the last underscore; everything when there is none. */
  function Suffix(id: string): (tail: string)
    ensures '_' !in tail
  {
    if id == "" then ""
    else if id[|id| - 1] == '_' then ""
    else Suffix(id[..|id| - 1]) + [id[|id| - 1]]
  }

  function ReluxEventSeq(id: string): Option<int> {
    if Suffix(id) == "" then None else ParseInt(Suffix(id))
  }

  function ZeroPad(s: string, width: nat): string
    decreases width - |s|
  {
    if |s| >= width then s else ZeroPad(['0'] + s, width)
  }

  /** The ids the kernel mints: a counter, zero-padded to four digits. */
  function MintId(n: nat): string {
    "revent_" + ZeroPad(Decimal(n), 4)
  }

  lemma {:induction false} ZeroPadValue(s: string, width: nat)
    requires s != "" && forall i | 0 <= i < |s| :: IsDigit(s[i])
    ensures var p := ZeroPad(s, width);
            p != "" && (forall i | 0 <= i < |p| :: IsDigit(p[i])) && DigitsFrom(p, 0) == DigitsFrom(s, 0)
    decreases width - |s|
  {
    if |s| < width {
      var z := ['0'] + s;
      assert z[1..] == s;
      ZeroPadValue(z, width);
    }
  }

  lemma {:induction false} SuffixAfter(pre: string, digits: string)
    requires '_' !in digits
    ensures Suffix(pre + ['_'] + digits) == digits
  {
    var id := pre + ['_'] + digits;
    if digits != "" {
      var d := digits[..|digits| - 1];
      SuffixAfter(pre, d);
      assert id[..|id| - 1] == pre + ['_'] + d;
      assert digits == d + [digits[|digits| - 1]];
    }
  }

  /** A minted id ends in the digits of its counter. */
  lemma MintedSuffix(n: nat)
    ensures var p := Suffix(MintId(n));
            p != "" && (forall i | 0 <= i < |p| :: IsDigit(p[i])) && DigitsFrom(p, 0) == n
  {
    DecimalValue(n);
    ZeroPadValue(Decimal(n), 4);
    var p := ZeroPad(Decimal(n), 4);
    assert '_' !in p by {
      assert forall i | 0 <= i < |p| :: p[i] != '_';
    }
    assert MintId(n) == "revent" + ['_'] + p;
    SuffixAfter("revent", p);
  }

  /** The parsed number of a minted id is the counter, also past the four-digit width. */
  lemma MintedSeq(n: nat)
    ensures ReluxEventSeq(MintId(n)) == Some(n)
  {
    MintedSuffix(n);
    assert !IsSpace(Suffix(MintId(n))[0]);
  }

  lemma {:induction false} DigitsStop(n: nat, digits: string, rest: string, acc: nat)
    requires (forall i | 0 <= i < |digits| :: IsDigit(digits[i])) && DigitsFrom(digits, acc) == n
    requires rest == "" || !IsDigit(rest[0])
    ensures DigitsFrom(digits + rest, acc) == n
  {
    DigitsConcat(digits, rest, acc);
  }

  function Signed(sign: string, n: int): int {
    if sign == "-" then -n else n
  }

  /** Blanks, at most one sign, a number and whatever follows it: the number with its sign. */
  lemma {:induction false} ParseIntReads(blank: string, sign: string, n: nat, rest: string)
    requires forall i | 0 <= i < |blank| :: IsSpace(blank[i])
    requires sign == "" || sign == "+" || sign == "-"
    requires rest == "" || !IsDigit(rest[0])
    ensures ParseInt(blank + (sign + (Decimal(n) + rest))) == Some(Signed(sign, n))
    decreases |blank|
  {
    var number := Decimal(n) + rest;
    if blank == "" {
      DecimalValue(n);
      DigitsStop(n, Decimal(n), rest, 0);
      assert IsDigit(number[0]) && !IsSpace(number[0]);
      assert blank + (sign + number) == sign + number;
      if sign == "" {
        assert sign + number == number;
      } else {
        assert (sign + number)[0] == sign[0] && (sign + number)[1..] == number;
      }
    } else {
      assert (blank + (sign + number))[1..] == blank[1..] + (sign + number);
      ParseIntReads(blank[1..], sign, n, rest);
    }
  }

  /** Where no digit follows the blanks and the sign, there is no number. */
  lemma {:induction false} ParseIntFails(blank: string, sign: string, rest: string)
    requires forall i | 0 <= i < |blank| :: IsSpace(blank[i])
    requires sign == "" || sign == "+" || sign == "-"
    requires rest == "" || !IsDigit(rest[0])
    requires sign == "" && rest != "" ==> !IsSpace(rest[0]) && rest[0] != '+' && rest[0] != '-'
    ensures ParseInt(blank + (sign + rest)) == None
    decreases |blank|
  {
    if blank == "" {
      assert blank + (sign + rest) == sign + rest;
      if sign == "" {
        assert sign + rest == rest;
      } else {
        assert (sign + rest)[0] == sign[0] && (sign + rest)[1..] == rest;
      }
    } else {
      assert (blank + (sign + rest))[1..] == blank[1..] + (sign + rest);
      ParseIntFails(blank[1..], sign, rest);
    }
  }

  lemma {:induction false} SuffixWhole(id: string)
    requires '_' !in id
    ensures Suffix(id) == id
  {
    if id != "" {
      SuffixWhole(id[..|id| - 1]);
      assert id == id[..|id| - 1] + [id[|id| - 1]];
    }
  }

  // ---- Relux events ----

  datatype ReluxEvent = ReluxEvent(id: string, body: string)

  function ReluxIdent(e: ReluxEvent): Option<string> { Some(e.id) }

  function ReluxRank(e: ReluxEvent): int {
    var n := ReluxEventSeq(e.id);
    if n.Some? then n.value else MAX_SAFE_INTEGER
  }

  /** The id of the first event among the first `n` with the highest parsed number. */
  function LatestIdOf(parse: string -> Option<int>, events: seq<ReluxEvent>, n: nat): (best: Option<string>)
    requires n <= |events|
    ensures best.Some? ==> parse(best.value).Some?
  {
    if n == 0 then None
    else
      var before, k := LatestIdOf(parse, events, n - 1), parse(events[n - 1].id);
      if k.Some? && (before.None? || k.value > parse(before.value).value) then Some(events[n - 1].id)
      else before
  }

  function LatestId(events: seq<ReluxEvent>): Option<string> {
    LatestIdOf(ReluxEventSeq, events, |events|)
  }

  /** The id of the first event with the highest parsed number, none when no id parses. */
  method LatestReluxEventId(events: seq<ReluxEvent>) returns (best: Option<string>)
    ensures best == LatestId(events)
    ensures best.None? <==> forall i | 0 <= i < |events| :: ReluxEventSeq(events[i].id).None?
    ensures best.Some? ==> exists k :: IsFirstLatest(events, k) && events[k].id == best.value
  {
    best := None;
    ghost var k: int := -1;
    var bestSeq := 0;
    for i := 0 to |events|
      invariant best == LatestIdOf(ReluxEventSeq, events, i)
      invariant best.None? ==> forall j | 0 <= j < i :: ReluxEventSeq(events[j].id).None?
      invariant best.Some? ==> 0 <= k < i && best.value == events[k].id
      invariant best.Some? ==> ReluxEventSeq(events[k].id) == Some(bestSeq)
      invariant best.Some? ==> forall j | 0 <= j < i ::
                  ReluxEventSeq(events[j].id).Some? ==>
                    ReluxEventSeq(events[j].id).value <= bestSeq &&
                    (j < k ==> ReluxEventSeq(events[j].id).value < bestSeq)
    {
      var n := ReluxEventSeq(events[i].id);
      if n.Some? && (best.None? || n.value > bestSeq) {
        best, bestSeq, k := Some(events[i].id), n.value, i;
      }
    }
    assert best.Some? ==> IsFirstLatest(events, k);
  }

  ghost predicate IsFirstLatest(events: seq<ReluxEvent>, k: int) {
    && 0 <= k < |events| && ReluxEventSeq(events[k].id).Some?
    && forall j | 0 <= j < |events| ::
         var n := ReluxEventSeq(events[j].id);
         n.Some? ==> n.value <= ReluxEventSeq(events[k].id).value &&
                     (j < k ==> n.value < ReluxEventSeq(events[k].id).value)
  }

  /** An empty tail returns the held list as it is. */
  function ReluxMerged(existing: seq<ReluxEvent>, incoming: seq<ReluxEvent>): seq<ReluxEvent> {
    TailMerge(ReluxIdent, ReluxRank, existing, incoming)
  }

  method MergeReluxRunEvents(existing: seq<ReluxEvent>, incoming: seq<ReluxEvent>)
      returns (merged: seq<ReluxEvent>)
    ensures merged == ReluxMerged(existing, incoming)
  {
    if incoming == [] {
      return existing;
    }
    var seen: set<string> := {};
    for i := 0 to |existing|
      invariant seen == Idents(ReluxIdent, existing[..i])
    {
      assert existing[..i + 1] == existing[..i] + [existing[i]];
      IdentsConcat(ReluxIdent, existing[..i], existing[i]);
      seen := seen + {existing[i].id};
    }
    assert existing[..|existing|] == existing;
    merged := existing;
    for i := 0 to |incoming|
      invariant merged == existing + Fresh(ReluxIdent, Idents(ReluxIdent, existing), incoming[..i])
      invariant seen == Idents(ReluxIdent, existing) + Idents(ReluxIdent, incoming[..i])
    {
      assert incoming[..i + 1] == incoming[..i] + [incoming[i]];
      IdentsConcat(ReluxIdent, incoming[..i], incoming[i]);
      FreshConcat(ReluxIdent, Idents(ReluxIdent, existing), incoming[..i], [incoming[i]]);
      if incoming[i].id !in seen {
        seen := seen + {incoming[i].id};
        merged := merged + [incoming[i]];
      }
    }
    assert incoming[..|incoming|] == incoming;
    merged := SortBy(ReluxRank, merged);
  }

  /** The events whose id parses. */
  function Parsed(events: seq<ReluxEvent>): seq<ReluxEvent> {
    if events == [] then []
    else (if ReluxEventSeq(events[0].id).Some? then [events[0]] else []) + Parsed(events[1..])
  }

  function Unparsed(events: seq<ReluxEvent>): seq<ReluxEvent> {
    if events == [] then []
    else (if ReluxEventSeq(events[0].id).None? then [events[0]] else []) + Unparsed(events[1..])
  }

  /** Every id that parses, parses below the rank given to the others. */
  ghost predicate SafeIds(events: seq<ReluxEvent>) {
    forall i | 0 <= i < |events| ::
      ReluxEventSeq(events[i].id).Some? ==> ReluxEventSeq(events[i].id).value < MAX_SAFE_INTEGER
  }

  lemma {:induction false} RankSplit(events: seq<ReluxEvent>)
    requires SafeIds(events)
    ensures Below(ReluxRank, MAX_SAFE_INTEGER, events) == Parsed(events)
    ensures OfRank(ReluxRank, events, MAX_SAFE_INTEGER) == Unparsed(events)
  {
    if events != [] {
      assert forall i | 0 <= i < |events[1..]| :: events[1..][i] == events[i + 1];
      RankSplit(events[1..]);
    }
  }

  /**
   A merged transcript is the parsed events in numeric order, then the unparsed ones in the order in
   which they were held or arrived.
   */
  lemma ReluxMergeOrder(existing: seq<ReluxEvent>, incoming: seq<ReluxEvent>)
    requires incoming != []
    requires SafeIds(existing + Fresh(ReluxIdent, Idents(ReluxIdent, existing), incoming))
    ensures var all := existing + Fresh(ReluxIdent, Idents(ReluxIdent, existing), incoming);
            ReluxMerged(existing, incoming) == SortBy(ReluxRank, Parsed(all)) + Unparsed(all) &&
            Sorted(ReluxRank, SortBy(ReluxRank, Parsed(all)))
  {
    var all := existing + Fresh(ReluxIdent, Idents(ReluxIdent, existing), incoming);
    RankSplit(all);
    TopGoesLast(ReluxRank, MAX_SAFE_INTEGER, all);
    SortByIsStable(ReluxRank, Parsed(all));
  }

  /** Numbers never go down along a merged transcript, and no event with a number stands behind one without. */
  lemma ReluxInOrder(existing: seq<ReluxEvent>, incoming: seq<ReluxEvent>, i: nat, j: nat)
    requires incoming != [] && i < j < |ReluxMerged(existing, incoming)|
    requires SafeIds(existing) && SafeIds(incoming)
    ensures var m := ReluxMerged(existing, incoming);
            var p, q := ReluxEventSeq(m[i].id), ReluxEventSeq(m[j].id);
            q.Some? ==> p.Some? && p.value <= q.value
  {
    var m, f := ReluxMerged(existing, incoming), Fresh(ReluxIdent, Idents(ReluxIdent, existing), incoming);
    SortByIsStable(ReluxRank, existing + f);
    assert ReluxRank(m[i]) <= ReluxRank(m[j]);
    SortElements(ReluxRank, existing + f, m[j]);
    FreshListed(ReluxIdent, Idents(ReluxIdent, existing), incoming, m[j]);
  }

  /**
   Merging tails is associative on all transcripts, unparseable and repeated ids included, and idempotent
   exactly on those in numeric order.
   */
  lemma ReluxMergeLaws(a: seq<ReluxEvent>, b: seq<ReluxEvent>, c: seq<ReluxEvent>)
    ensures ReluxMerged(ReluxMerged(a, b), c) == ReluxMerged(a, ReluxMerged(b, c))
    ensures ReluxMerged(a, a) == a <==> Sorted(ReluxRank, a)
  {
    TailMergeAssociates(ReluxIdent, ReluxRank, a, b, c);
    TailMergeIdempotentExactly(ReluxIdent, ReluxRank, a);
  }

  /** On ascending lists in which ids and numbers identify events, the order of merging does not matter. */
  lemma ReluxMergeCommutes(a: seq<ReluxEvent>, b: seq<ReluxEvent>)
    requires Ascending(ReluxRank, a) && Ascending(ReluxRank, b)
    requires Keyed(ReluxIdent, ReluxRank, Elements(a) + Elements(b))
    ensures ReluxMerged(a, b) == ReluxMerged(b, a)
  {
    TailMergeCommutes(ReluxIdent, ReluxRank, a, b);
  }

  // ---- Bridge events ----

  datatype RunEvent = RunEvent(eventId: Option<int>, kind: string)

  function EventIdent(e: RunEvent): Option<int> { e.eventId }

  function EventRank(e: RunEvent): int {
    if e.eventId.Some? then e.eventId.value else MAX_SAFE_INTEGER
  }

  /** The highest positive id, 0 when there is none. */
  method LatestEventId(events: seq<RunEvent>) returns (max: int)
    ensures max >= 0 && forall i | 0 <= i < |events| && events[i].eventId.Some? :: events[i].eventId.value <= max
    ensures max > 0 ==> exists i | 0 <= i < |events| :: events[i].eventId == Some(max)
  {
    max := 0;
    for i := 0 to |events|
      invariant max >= 0 && forall j | 0 <= j < i && events[j].eventId.Some? :: events[j].eventId.value <= max
      invariant max > 0 ==> exists j | 0 <= j < i :: events[j].eventId == Some(max)
    {
      if events[i].eventId.Some? && events[i].eventId.value > max {
        max := events[i].eventId.value;
      }
    }
  }

  function EventsMerged(existing: seq<RunEvent>, incoming: seq<RunEvent>): seq<RunEvent> {
    TailMerge(EventIdent, EventRank, existing, incoming)
  }

  method MergeRunEvents(existing: seq<RunEvent>, incoming: seq<RunEvent>) returns (merged: seq<RunEvent>)
    ensures merged == EventsMerged(existing, incoming)
  {
    if incoming == [] {
      return existing;
    }
    var seen: set<int> := {};
    for i := 0 to |existing|
      invariant seen == Idents(EventIdent, existing[..i])
    {
      assert existing[..i + 1] == existing[..i] + [existing[i]];
      IdentsConcat(EventIdent, existing[..i], existing[i]);
      if existing[i].eventId.Some? {
        seen := seen + {existing[i].eventId.value};
      }
    }
    assert existing[..|existing|] == existing;
    merged := existing;
    for i := 0 to |incoming|
      invariant merged == existing + Fresh(EventIdent, Idents(EventIdent, existing), incoming[..i])
      invariant seen == Idents(EventIdent, existing) + Idents(EventIdent, incoming[..i])
    {
      assert incoming[..i + 1] == incoming[..i] + [incoming[i]];
      IdentsConcat(EventIdent, incoming[..i], incoming[i]);
      FreshConcat(EventIdent, Idents(EventIdent, existing), incoming[..i], [incoming[i]]);
      if incoming[i].eventId.Some? {
        if incoming[i].eventId.value in seen {
          continue;
        }
        seen := seen + {incoming[i].eventId.value};
      }
      merged := merged + [incoming[i]];
    }
    assert incoming[..|incoming|] == incoming;
    merged := SortBy(EventRank, merged);
  }

  /** The events without an id, in order. */
  function Idless(events: seq<RunEvent>): seq<RunEvent> {
    if events == [] then []
    else (if events[0].eventId.None? then [events[0]] else []) + Idless(events[1..])
  }

  /** The events with an id, in order. */
  function WithId(events: seq<RunEvent>): seq<RunEvent> {
    if events == [] then []
    else (if events[0].eventId.Some? then [events[0]] else []) + WithId(events[1..])
  }

  lemma {:induction false} IdlessConcat(a: seq<RunEvent>, b: seq<RunEvent>)
    ensures Idless(a + b) == Idless(a) + Idless(b)
  {
    if a == [] {
      assert a + b == b;
    } else {
      assert (a + b)[1..] == a[1..] + b && (a + b)[0] == a[0];
      IdlessConcat(a[1..], b);
      Regroup(if a[0].eventId.None? then [a[0]] else [], Idless(a[1..]), Idless(b));
    }
  }

  lemma {:induction false} WithIdConcat(a: seq<RunEvent>, b: seq<RunEvent>)
    ensures WithId(a + b) == WithId(a) + WithId(b)
  {
    if a == [] {
      assert a + b == b;
    } else {
      assert (a + b)[1..] == a[1..] + b && (a + b)[0] == a[0];
      WithIdConcat(a[1..], b);
      Regroup(if a[0].eventId.Some? then [a[0]] else [], WithId(a[1..]), WithId(b));
    }
  }

  /** All events without an id have the same rank, so that rank's events decide them. */
  lemma {:induction false} IdlessOfRank(events: seq<RunEvent>)
    ensures Idless(OfRank(EventRank, events, MAX_SAFE_INTEGER)) == Idless(events)
  {
    if events != [] {
      var e, rest := events[0], events[1..];
      IdlessOfRank(rest);
      var same := OfRank(EventRank, rest, MAX_SAFE_INTEGER);
      assert ([e] + same)[1..] == same;
    }
  }

  lemma {:induction false} IdlessOfFresh(seen: set<int>, events: seq<RunEvent>)
    ensures Idless(Fresh(EventIdent, seen, events)) == Idless(events)
    decreases |events|
  {
    if events != [] {
      var e, rest := events[0], events[1..];
      match e.eventId
      case None =>
        IdlessOfFresh(seen, rest);
        assert ([e] + Fresh(EventIdent, seen, rest))[1..] == Fresh(EventIdent, seen, rest);
      case Some(k) =>
        var seen' := if k in seen then seen else seen + {k};
        IdlessOfFresh(seen', rest);
        assert ([e] + Fresh(EventIdent, seen', rest))[1..] == Fresh(EventIdent, seen', rest);
    }
  }

  /** Events without an id are never dropped: a merged transcript holds the held ones, then the incoming ones. */
  lemma IdlessKept(a: seq<RunEvent>, b: seq<RunEvent>)
    ensures Idless(EventsMerged(a, b)) == Idless(a) + Idless(b)
  {
    if b == [] {
      assert Idless(a) + Idless(b) == Idless(a);
    } else {
      var all := a + Fresh(EventIdent, Idents(EventIdent, a), b);
      SortByIsStable(EventRank, all);
      IdlessOfRank(EventsMerged(a, b));
      IdlessOfRank(all);
      IdlessConcat(a, Fresh(EventIdent, Idents(EventIdent, a), b));
      IdlessOfFresh(Idents(EventIdent, a), b);
    }
  }

  /** Every id is below the rank given to events without one. */
  ghost predicate SafeEventIds(events: seq<RunEvent>) {
    forall i | 0 <= i < |events| :: events[i].eventId.Some? ==> events[i].eventId.value < MAX_SAFE_INTEGER
  }

  lemma {:induction false} EventRankSplit(events: seq<RunEvent>)
    requires SafeEventIds(events)
    ensures Below(EventRank, MAX_SAFE_INTEGER, events) == WithId(events)
    ensures OfRank(EventRank, events, MAX_SAFE_INTEGER) == Idless(events)
  {
    if events != [] {
      assert forall i | 0 <= i < |events[1..]| :: events[1..][i] == events[i + 1];
      EventRankSplit(events[1..]);
    }
  }

  /**
   A merged transcript is the held events with an id and one incoming event per new id, in id order, and
   behind them the held and then the incoming events without one.
   */
  lemma EventsMergeOrder(a: seq<RunEvent>, b: seq<RunEvent>)
    requires b != []
    requires SafeEventIds(a + Fresh(EventIdent, Idents(EventIdent, a), b))
    ensures var known := WithId(a) + WithId(Fresh(EventIdent, Idents(EventIdent, a), b));
            EventsMerged(a, b) == SortBy(EventRank, known) + (Idless(a) + Idless(b)) &&
            Sorted(EventRank, SortBy(EventRank, known))
  {
    var f := Fresh(EventIdent, Idents(EventIdent, a), b);
    EventRankSplit(a + f);
    TopGoesLast(EventRank, MAX_SAFE_INTEGER, a + f);
    IdlessConcat(a, f);
    WithIdConcat(a, f);
    IdlessOfFresh(Idents(EventIdent, a), b);
    SortByIsStable(EventRank, WithId(a) + WithId(f));
  }

  /** Ids never go down along a merged transcript, and no event with an id stands behind one without. */
  lemma EventsInOrder(a: seq<RunEvent>, b: seq<RunEvent>, i: nat, j: nat)
    requires b != [] && i < j < |EventsMerged(a, b)| && SafeEventIds(a) && SafeEventIds(b)
    ensures var m := EventsMerged(a, b);
            m[j].eventId.Some? ==> m[i].eventId.Some? && m[i].eventId.value <= m[j].eventId.value
  {
    var m, f := EventsMerged(a, b), Fresh(EventIdent, Idents(EventIdent, a), b);
    SortByIsStable(EventRank, a + f);
    assert EventRank(m[i]) <= EventRank(m[j]);
    SortElements(EventRank, a + f, m[j]);
    FreshListed(EventIdent, Idents(EventIdent, a), b, m[j]);
    assert m[j] in a || m[j] in b;
  }

  /**
   Merging tails is associative on all transcripts. It is idempotent exactly on sorted ones whose events all
   have ids: events without one are kept, so they double.
   */
  lemma EventsMergeLaws(a: seq<RunEvent>, b: seq<RunEvent>, c: seq<RunEvent>)
    ensures EventsMerged(EventsMerged(a, b), c) == EventsMerged(a, EventsMerged(b, c))
    ensures EventsMerged(a, a) == a <==>
            Sorted(EventRank, a) && forall i | 0 <= i < |a| :: a[i].eventId.Some?
  {
    TailMergeAssociates(EventIdent, EventRank, a, b, c);
    TailMergeIdempotentExactly(EventIdent, EventRank, a);
    assert AllIdentified(EventIdent, a) <==> forall i | 0 <= i < |a| :: a[i].eventId.Some? by {
      assert forall i | 0 <= i < |a| :: EventIdent(a[i]) == a[i].eventId;
    }
  }

  /** On ascending lists whose events all have ids, one event per id, the order of merging does not matter. */
  lemma EventsMergeCommutes(a: seq<RunEvent>, b: seq<RunEvent>)
    requires Ascending(EventRank, a) && Ascending(EventRank, b)
    requires forall x | x in a || x in b :: x.eventId.Some?
    requires forall x, y | (x in a || x in b) && (y in a || y in b) && x.eventId == y.eventId :: x == y
    ensures EventsMerged(a, b) == EventsMerged(b, a)
  {
    TailMergeCommutes(EventIdent, EventRank, a, b);
  }
}
