/** Collapsing the inbox into cards, one per subtree: apps/dashboard/src/inbox.ts. */
module InboxGroups {
  import opened Options
  import opened Positions

  datatype Severity = Critical | Warn | Info

  datatype Kind = PendingApproval | FailedRun | BlockedTask | PausedContinuation

  datatype KindCount = KindCount(kind: Kind, count: nat)

  datatype Item = Item(
    id: string, kind: Kind, taskId: string, parentTask: string, parentTitle: string,
    title: string, severity: Severity, ageTicks: Option<int>)

  datatype Card = Card(
    key: string, rootTaskId: Option<string>, title: string, items: seq<Item>,
    collapsible: bool, topSeverity: Severity, topAge: Option<int>, kindCounts: seq<KindCount>)

  function Rank(s: Severity): nat {
    match s case Critical => 0 case Warn => 1 case Info => 2
  }

  const SUBTREE: string := "subtree:"
  const SOLO: string := "solo:"

  /** The parents named by some item; an empty string stands for a missing field. */
  function ParentIds(items: seq<Item>): set<string> {
    set i | 0 <= i < |items| && items[i].parentTask != "" :: items[i].parentTask
  }

  function GroupKey(item: Item, parents: set<string>): string {
    if item.parentTask != "" then SUBTREE + item.parentTask
    else if item.kind == BlockedTask && item.taskId != "" && item.taskId in parents then SUBTREE + item.taskId
    else SOLO + item.id
  }

  // ---- What a card shows ----

  /** The worst severity among members, by a fold that starts at the mildest. */
  function WorstSeverity(members: seq<Item>): (worst: Severity)
    ensures forall i | 0 <= i < |members| :: Rank(worst) <= Rank(members[i].severity)
    ensures members != [] ==> exists i | 0 <= i < |members| :: members[i].severity == worst
  {
    if members == [] then Info
    else
      var n := |members| - 1;
      var before := WorstSeverity(members[..n]);
      assert forall i | 0 <= i < n :: members[..n][i] == members[i];
      if Rank(members[n].severity) < Rank(before) then members[n].severity else before
  }

  /** An age the backend really knows. */
  predicate KnownAge(item: Item) {
    item.ageTicks.Some? && item.ageTicks.value >= 0
  }

  /** The oldest known age, none when no member has one. */
  method OldestAge(members: seq<Item>) returns (oldest: Option<int>)
    ensures oldest == Oldest(members)
  {
    oldest := None;
    for i := 0 to |members|
      invariant oldest == Oldest(members[..i])
    {
      assert members[..i + 1][..i] == members[..i];
      var a := members[i].ageTicks;
      if a.Some? && a.value >= 0 {
        oldest := if oldest.None? || a.value > oldest.value then a else oldest;
      }
    }
    assert members[..|members|] == members;
  }

  function Oldest(members: seq<Item>): (oldest: Option<int>)
    ensures oldest.None? <==> forall i | 0 <= i < |members| :: !KnownAge(members[i])
    ensures oldest.Some? ==> exists i | 0 <= i < |members| :: KnownAge(members[i]) && members[i].ageTicks == oldest
    ensures oldest.Some? ==>
              forall i | 0 <= i < |members| && KnownAge(members[i]) :: members[i].ageTicks.value <= oldest.value
  {
    if members == [] then None
    else
      var n := |members| - 1;
      var before := Oldest(members[..n]);
      assert forall i | 0 <= i < n :: members[..n][i] == members[i];
      if KnownAge(members[n]) && (before.None? || members[n].ageTicks.value > before.value)
      then members[n].ageTicks else before
  }

  /** The order of the sections. */
  const GROUP_ORDER: seq<Kind> := [PendingApproval, FailedRun, BlockedTask, PausedContinuation]

  function CountOf(members: seq<Item>, kind: Kind): nat {
    if members == [] then 0
    else CountOf(members[..|members| - 1], kind) + if members[|members| - 1].kind == kind then 1 else 0
  }

  /** The non-zero counts of the given kinds. */
  function CountsIn(members: seq<Item>, order: seq<Kind>): seq<KindCount> {
    if order == [] then []
    else
      var c := CountOf(members, order[0]);
      (if c > 0 then [KindCount(order[0], c)] else []) + CountsIn(members, order[1..])
  }

  function KindCounts(members: seq<Item>): seq<KindCount> {
    CountsIn(members, GROUP_ORDER)
  }

  function SumOf(counts: seq<KindCount>): nat {
    if counts == [] then 0 else counts[0].count + SumOf(counts[1..])
  }

  function Section(kind: Kind): nat {
    match kind case PendingApproval => 0 case FailedRun => 1 case BlockedTask => 2 case PausedContinuation => 3
  }

  lemma {:induction false} CountIsMembership(members: seq<Item>, kind: Kind)
    ensures CountOf(members, kind) > 0 <==> exists x :: x in members && x.kind == kind
  {
    if members != [] {
      var n := |members| - 1;
      CountIsMembership(members[..n], kind);
      assert members == members[..n] + [members[n]];
    }
  }

  lemma {:induction false} CountsAddUp(members: seq<Item>)
    ensures CountOf(members, PendingApproval) + CountOf(members, FailedRun) +
            CountOf(members, BlockedTask) + CountOf(members, PausedContinuation) == |members|
  {
    if members != [] {
      CountsAddUp(members[..|members| - 1]);
    }
  }

  lemma {:induction false} CountsInListed(members: seq<Item>, order: seq<Kind>, kind: Kind, count: nat)
    requires forall i, j | 0 <= i < j < |order| :: order[i] != order[j]
    ensures KindCount(kind, count) in CountsIn(members, order) <==>
              kind in order && count == CountOf(members, kind) > 0
  {
    if order != [] {
      CountsInListed(members, order[1..], kind, count);
      assert order == [order[0]] + order[1..];
    }
  }

  lemma {:induction false} CountsInOrdered(members: seq<Item>, order: seq<Kind>)
    requires forall i, j | 0 <= i < j < |order| :: Section(order[i]) < Section(order[j])
    ensures var cs := CountsIn(members, order);
            forall i, j | 0 <= i < j < |cs| :: Section(cs[i].kind) < Section(cs[j].kind)
  {
    if order != [] {
      var rest := order[1..];
      CountsInOrdered(members, rest);
      var cs := CountsIn(members, rest);
      forall k | 0 <= k < |cs| ensures Section(order[0]) < Section(cs[k].kind) {
        CountsInListed(members, rest, cs[k].kind, cs[k].count);
        assert cs[k] == KindCount(cs[k].kind, cs[k].count);
        var i :| 0 <= i < |rest| && rest[i] == cs[k].kind;
        assert order[i + 1] == cs[k].kind;
      }
    }
  }

  lemma {:induction false} SumIsCounts(members: seq<Item>, order: seq<Kind>)
    ensures SumOf(CountsIn(members, order)) == CountAll(members, order)
  {
    if order != [] {
      SumIsCounts(members, order[1..]);
      var cs, rest := CountsIn(members, order), CountsIn(members, order[1..]);
      if CountOf(members, order[0]) > 0 {
        assert cs[1..] == rest;
      } else {
        assert cs == rest;
      }
    }
  }

  function CountAll(members: seq<Item>, order: seq<Kind>): nat {
    if order == [] then 0 else CountOf(members, order[0]) + CountAll(members, order[1..])
  }

  lemma CountAllSections(members: seq<Item>)
    ensures CountAll(members, GROUP_ORDER) == |members|
  {
    CountsAddUp(members);
    var last, blocked := [PausedContinuation], [BlockedTask, PausedContinuation];
    var failed := [FailedRun, BlockedTask, PausedContinuation];
    assert CountAll(members, last) == CountOf(members, PausedContinuation) + CountAll(members, last[1..]);
    assert blocked[1..] == last && failed[1..] == blocked && GROUP_ORDER[1..] == failed;
    assert CountAll(members, blocked) == CountOf(members, BlockedTask) + CountAll(members, last);
    assert CountAll(members, failed) == CountOf(members, FailedRun) + CountAll(members, blocked);
  }

  /** A card counts each kind among its members and leaves out the absent ones. */
  lemma KindCountsExact(members: seq<Item>, kind: Kind, count: nat)
    ensures KindCount(kind, count) in KindCounts(members) <==> count == |OfKind(members, kind)| > 0
    ensures |OfKind(members, kind)| > 0 <==> exists x :: x in members && x.kind == kind
  {
    CountsInListed(members, GROUP_ORDER, kind, count);
    assert GROUP_ORDER[Section(kind)] == kind;
    CountIsMembership(members, kind);
    CountIsSize(members, kind);
  }

  /** The counts come in the order of the sections, and they add up to the members. */
  lemma KindCountsAddUp(members: seq<Item>)
    ensures SumOf(KindCounts(members)) == |members|
    ensures forall i, j | 0 <= i < j < |KindCounts(members)| ::
              Section(KindCounts(members)[i].kind) < Section(KindCounts(members)[j].kind)
  {
    CountsInOrdered(members, GROUP_ORDER);
    SumIsCounts(members, GROUP_ORDER);
    CountAllSections(members);
  }

  function FindRoot(root: string, members: seq<Item>): Option<Item> {
    if members == [] then None
    else if members[0].kind == BlockedTask && members[0].taskId == root then Some(members[0])
    else FindRoot(root, members[1..])
  }

  function FindTitled(members: seq<Item>): Option<Item> {
    if members == [] then None
    else if members[0].parentTitle != "" then Some(members[0])
    else FindTitled(members[1..])
  }

  const BLOCKED_PREFIX: string := "Blocked: "

  function SubtreeTitle(root: string, members: seq<Item>): string {
    var r, t := FindRoot(root, members), FindTitled(members);
    if r.Some? then
      if BLOCKED_PREFIX <= r.value.title then r.value.title[|BLOCKED_PREFIX|..] else r.value.title
    else if t.Some? then t.value.parentTitle
    else "Subtree " + root
  }

  function MakeCard(key: string, members: seq<Item>): Card
    requires members != []
  {
    var isSubtree := SUBTREE <= key;
    var root := if isSubtree then Some(key[|SUBTREE|..]) else None;
    var collapsible := isSubtree && |members| >= 2;
    Card(key, root,
      if collapsible && root.value != "" then SubtreeTitle(root.value, members) else members[0].title,
      members, collapsible, WorstSeverity(members), Oldest(members), KindCounts(members))
  }

  /** A subtree heading is blank only if the root task is in the queue and has nothing but the prefix as its title. */
  lemma BlankTitleExactly(root: string, members: seq<Item>)
    ensures SubtreeTitle(root, members) == "" <==>
            FindRoot(root, members).Some? && FindRoot(root, members).value.title in {"", BLOCKED_PREFIX}
  {
    TitledIsNotBlank(members);
    var r := FindRoot(root, members);
    if r.Some? && BLOCKED_PREFIX <= r.value.title && r.value.title[|BLOCKED_PREFIX|..] == "" {
      assert r.value.title == BLOCKED_PREFIX;
    }
    assert ("Subtree " + root)[0] == 'S';
  }

  lemma {:induction false} TitledIsNotBlank(members: seq<Item>)
    ensures FindTitled(members).Some? ==> FindTitled(members).value.parentTitle != ""
  {
    if members != [] && members[0].parentTitle == "" {
      TitledIsNotBlank(members[1..]);
    }
  }

  // ---- Grouping ----

  function KeyOf(items: seq<Item>): Item -> string {
    var parents := ParentIds(items);
    (item: Item) => GroupKey(item, parents)
  }

  /** The keys of the first `n` items in order of first appearance. */
  function Order(items: seq<Item>, f: Item -> string, n: nat): seq<string>
    requires n <= |items|
  {
    if n == 0 then []
    else
      var before := Order(items, f, n - 1);
      var key := f(items[n - 1]);
      if key in before then before else before + [key]
  }

  /** The items among the first `n` with a key, in input order. */
  function MembersOf(items: seq<Item>, f: Item -> string, key: string, n: nat): seq<Item>
    requires n <= |items|
  {
    if n == 0 then []
    else
      MembersOf(items, f, key, n - 1) +
      if f(items[n - 1]) == key then [items[n - 1]] else []
  }

  lemma {:induction false} OrderIsKeys(items: seq<Item>, f: Item -> string, n: nat, key: string)
    requires n <= |items|
    ensures key in Order(items, f, n) <==> MembersOf(items, f, key, n) != []
  {
    if n > 0 {
      OrderIsKeys(items, f, n - 1, key);
    }
  }

  lemma {:induction false} OrderHolds(items: seq<Item>, f: Item -> string, n: nat, key: string)
    requires n <= |items|
    ensures key in Order(items, f, n) <==> exists i | 0 <= i < n :: f(items[i]) == key
  {
    if n > 0 {
      OrderHolds(items, f, n - 1, key);
    }
  }

  function Cards(items: seq<Item>): seq<Card> {
    var f := KeyOf(items);
    var order := Order(items, f, |items|);
    seq(|order|, k requires 0 <= k < |order| =>
      OrderIsKeys(items, f, |items|, order[k]);
      MakeCard(order[k], MembersOf(items, f, order[k], |items|)))
  }

  /** The order list and the map after the first `n` items. */
  ghost predicate Grouped(
    items: seq<Item>, f: Item -> string, n: nat, order: seq<string>, byKey: map<string, seq<Item>>)
    requires n <= |items|
  {
    && order == Order(items, f, n)
    && (forall key :: key in byKey <==> key in order)
    && (forall key | key in byKey :: byKey[key] == MembersOf(items, f, key, n))
  }

  /** One turn of the loop. */
  method AddItem(items: seq<Item>, f: Item -> string, n: nat, order: seq<string>, byKey: map<string, seq<Item>>)
      returns (order': seq<string>, byKey': map<string, seq<Item>>)
    requires n < |items| && Grouped(items, f, n, order, byKey)
    ensures Grouped(items, f, n + 1, order', byKey')
  {
    var key := f(items[n]);
    OrderIsKeys(items, f, n, key);
    if key in byKey {
      order', byKey' := order, byKey[key := byKey[key] + [items[n]]];
    } else {
      order', byKey' := order + [key], byKey[key := [items[n]]];
    }
  }

  function CardsOf(order: seq<string>, byKey: map<string, seq<Item>>): seq<Card>
    requires forall k | 0 <= k < |order| :: order[k] in byKey && byKey[order[k]] != []
  {
    seq(|order|, k requires 0 <= k < |order| => MakeCard(order[k], byKey[order[k]]))
  }

  /** The map's lists are the members of the cards. */
  lemma CardsOfAreCards(items: seq<Item>, order: seq<string>, byKey: map<string, seq<Item>>)
    requires Grouped(items, KeyOf(items), |items|, order, byKey)
    ensures forall k | 0 <= k < |order| :: order[k] in byKey && byKey[order[k]] != []
    ensures CardsOf(order, byKey) == Cards(items)
  {
    forall k | 0 <= k < |order| ensures order[k] in byKey && byKey[order[k]] != [] {
      OrderIsKeys(items, KeyOf(items), |items|, order[k]);
    }
  }

  /** The grouping loop with its order list and its map builds exactly these cards. */
  method BuildInboxGroups(items: seq<Item>) returns (cards: seq<Card>)
    ensures cards == Cards(items)
  {
    var f := KeyOf(items);
    var order: seq<string> := [];
    var byKey: map<string, seq<Item>> := map[];
    for i := 0 to |items|
      invariant Grouped(items, f, i, order, byKey)
    {
      order, byKey := AddItem(items, f, i, order, byKey);
    }
    CardsOfAreCards(items, order, byKey);
    cards := CardsOf(order, byKey);
  }

  // ---- Blank headings ----

  /** A collapsed card's heading is blank exactly when its root is in the queue with an empty or prefix-only title. */
  lemma BlankHeadingExactly(items: seq<Item>, k: nat)
    requires k < |Cards(items)| && Cards(items)[k].collapsible
    ensures var c := Cards(items)[k];
            c.rootTaskId.Some? &&
            (c.title == "" <==>
               var root := FindRoot(c.rootTaskId.value, c.items);
               root.Some? && root.value.title in {"", BLOCKED_PREFIX})
  {
    var f, c := KeyOf(items), Cards(items)[k];
    var order := Order(items, f, |items|);
    OrderHolds(items, f, |items|, order[k]);
    var i :| 0 <= i < |items| && f(items[i]) == order[k];
    assert c.key == order[k] && SUBTREE <= c.key;
    assert (SOLO + items[i].id)[1] == 'o' && SUBTREE[1] == 'u';
    assert |c.key| > |SUBTREE|;
    BlankTitleExactly(c.rootTaskId.value, c.items);
  }

  /** A blocked task with nothing but the prefix as its title and one item below it: the card has no heading. */
  lemma BlankHeading(root: Item, child: Item)
    requires root.kind == BlockedTask && root.taskId == "t1" && root.parentTask == "" && root.title == BLOCKED_PREFIX
    requires child.parentTask == "t1"
    ensures |Cards([root, child])| == 1 && Cards([root, child])[0].collapsible && Cards([root, child])[0].title == ""
  {
    var items := [root, child];
    var f := KeyOf(items);
    assert child == items[1] && "t1" in ParentIds(items);
    assert f(root) == SUBTREE + "t1" && f(child) == SUBTREE + "t1";
    assert Order(items, f, 1) == [SUBTREE + "t1"] && Order(items, f, 2) == [SUBTREE + "t1"];
    assert MembersOf(items, f, SUBTREE + "t1", 1) == [root];
    assert MembersOf(items, f, SUBTREE + "t1", 2) == [root, child];
    assert (SUBTREE + "t1")[|SUBTREE|..] == "t1";
    var c := Cards(items)[0];
    assert c.items == items && c.rootTaskId == Some("t1");
    BlankHeadingExactly(items, 0);
  }

  // ---- The cards partition the inbox ----

  lemma CountAppended(xs: seq<Item>, y: Item, x: Item)
    ensures multiset(xs + [y])[x] == multiset(xs)[x] + if x == y then 1 else 0
  {
  }

  lemma {:induction false} MembersCount(items: seq<Item>, f: Item -> string, key: string, n: nat, x: Item)
    requires n <= |items|
    ensures multiset(MembersOf(items, f, key, n))[x] ==
            if f(x) == key then multiset(items[..n])[x] else 0
  {
    if n > 0 {
      MembersCount(items, f, key, n - 1, x);
      assert items[..n] == items[..n - 1] + [items[n - 1]];
      CountAppended(items[..n - 1], items[n - 1], x);
      var before := MembersOf(items, f, key, n - 1);
      if f(items[n - 1]) == key {
        CountAppended(before, items[n - 1], x);
      } else {
        assert MembersOf(items, f, key, n) == before;
      }
    }
  }

  ghost predicate Distinct(xs: seq<string>) {
    forall j, k | 0 <= j < k < |xs| :: xs[j] != xs[k]
  }

  lemma {:induction false} OrderDistinct(items: seq<Item>, f: Item -> string, n: nat)
    requires n <= |items|
    ensures Distinct(Order(items, f, n))
  {
    if n > 0 {
      OrderDistinct(items, f, n - 1);
    }
  }

  ghost predicate OneCardPerKey(cards: seq<Card>) {
    forall j, k | 0 <= j < k < |cards| :: cards[j].key != cards[k].key
  }

  /** A card holds an item as often as the inbox does if their keys agree, and not at all otherwise. */
  ghost predicate HoldsItsItems(items: seq<Item>, c: Card) {
    forall x :: multiset(c.items)[x] == if KeyOf(items)(x) == c.key then multiset(items)[x] else 0
  }

  ghost predicate HasCard(cards: seq<Card>, key: string) {
    exists k | 0 <= k < |cards| :: cards[k].key == key
  }

  /** Every item is in exactly the card of its key, as often as it is in the inbox. */
  lemma CardsPartition(items: seq<Item>)
    ensures OneCardPerKey(Cards(items))
    ensures forall k | 0 <= k < |Cards(items)| :: HoldsItsItems(items, Cards(items)[k])
    ensures forall i | 0 <= i < |items| :: HasCard(Cards(items), KeyOf(items)(items[i]))
  {
    var cards, f := Cards(items), KeyOf(items);
    var order := Order(items, f, |items|);
    OrderDistinct(items, f, |items|);
    assert items[..|items|] == items;
    forall k | 0 <= k < |cards| ensures cards[k].key == order[k] && HoldsItsItems(items, cards[k]) {
      forall x ensures multiset(cards[k].items)[x] == if f(x) == cards[k].key then multiset(items)[x] else 0 {
        MembersCount(items, f, order[k], |items|, x);
      }
    }
    forall i | 0 <= i < |items| ensures HasCard(cards, f(items[i])) {
      OrderHolds(items, f, |items|, f(items[i]));
      var k :| 0 <= k < |order| && order[k] == f(items[i]);
      assert cards[k].key == order[k];
    }
  }

  /** The indices list positions of the inbox, each once and in order, and `members` is what stands there. */
  ghost predicate Selects(items: seq<Item>, index: seq<nat>, members: seq<Item>) {
    && |index| == |members|
    && (forall j | 0 <= j < |index| :: index[j] < |items| && items[index[j]] == members[j])
    && (forall j, k | 0 <= j < k < |index| :: index[j] < index[k])
  }

  lemma SelectNext(items: seq<Item>, index: seq<nat>, members: seq<Item>, i: nat)
    requires Selects(items, index, members) && i < |items|
    requires forall j | 0 <= j < |index| :: index[j] < i
    ensures Selects(items, index + [i], members + [items[i]])
  {
  }

  ghost predicate AllWith(items: seq<Item>, f: Item -> string, key: string, n: nat, index: seq<nat>)
    requires n <= |items|
  {
    forall i: nat :: i in index <==> i < n && f(items[i]) == key
  }

  lemma AllWithNext(items: seq<Item>, f: Item -> string, key: string, n: nat, index: seq<nat>)
    requires n < |items| && AllWith(items, f, key, n, index)
    ensures AllWith(items, f, key, n + 1, if f(items[n]) == key then index + [n] else index)
  {
    forall i: nat ensures i in index + [n] <==> i in index || i == n {
    }
  }

  lemma {:induction false} MembersSelected(items: seq<Item>, f: Item -> string, key: string, n: nat)
      returns (index: seq<nat>)
    requires n <= |items|
    ensures Selects(items, index, MembersOf(items, f, key, n))
    ensures AllWith(items, f, key, n, index)
  {
    if n == 0 {
      index := [];
    } else {
      var before := MembersSelected(items, f, key, n - 1);
      AllWithNext(items, f, key, n - 1, before);
      if f(items[n - 1]) == key {
        assert forall j | 0 <= j < |before| :: before[j] in before;
        SelectNext(items, before, MembersOf(items, f, key, n - 1), n - 1);
        index := before + [n - 1];
      } else {
        index := before;
        assert MembersOf(items, f, key, n) == MembersOf(items, f, key, n - 1);
      }
    }
  }

  /** A card is the subsequence of the inbox at the positions of its key. */
  lemma CardIsSubsequence(items: seq<Item>, k: nat) returns (index: seq<nat>)
    requires k < |Cards(items)|
    ensures Selects(items, index, Cards(items)[k].items)
    ensures AllWith(items, KeyOf(items), Cards(items)[k].key, |items|, index)
  {
    index := MembersSelected(items, KeyOf(items), Cards(items)[k].key, |items|);
  }

  /** Keys of subtrees and of single items never meet, so a single item is never merged into a subtree. */
  lemma SoloStaysAlone(item: Item, other: Item, parents: set<string>)
    requires GroupKey(item, parents) == GroupKey(other, parents)
    ensures SUBTREE <= GroupKey(item, parents) || item.id == other.id
  {
    var key := GroupKey(item, parents);
    if !(SUBTREE <= key) {
      assert key == SOLO + item.id;
      assert GroupKey(other, parents) == SOLO + other.id;
      assert key[|SOLO|..] == item.id && key[|SOLO|..] == other.id;
    }
  }

  // ---- Urgency order ----

  ghost predicate BySeverity(items: seq<Item>) {
    forall i, j | 0 <= i < j < |items| :: Rank(items[i].severity) <= Rank(items[j].severity)
  }

  /** The first item with a key. */
  function FirstOf(items: seq<Item>, f: Item -> string, key: string, n: nat): (i: nat)
    requires n <= |items| && key in Order(items, f, n)
    ensures i < n && f(items[i]) == key
    ensures forall k | 0 <= k < i :: f(items[k]) != key
  {
    if key in Order(items, f, n - 1) then FirstOf(items, f, key, n - 1)
    else
      OrderHolds(items, f, n - 1, key);
      n - 1
  }

  /** Keys appear in the order of their first items. */
  lemma {:induction false} OrderIsByFirst(items: seq<Item>, f: Item -> string, n: nat, j: nat, k: nat)
    requires n <= |items| && j < k < |Order(items, f, n)|
    ensures var o := Order(items, f, n);
            FirstOf(items, f, o[j], n) < FirstOf(items, f, o[k], n)
  {
    var o, before := Order(items, f, n), Order(items, f, n - 1);
    OrderDistinct(items, f, n);
    if k < |before| {
      OrderIsByFirst(items, f, n - 1, j, k);
    } else {
      assert o[k] !in before && o[j] in before;
    }
  }

  /** A card's first member is the first item with its key. */
  lemma {:induction false} FirstMember(items: seq<Item>, f: Item -> string, key: string, n: nat)
    requires n <= |items| && key in Order(items, f, n)
    ensures MembersOf(items, f, key, n) != []
    ensures MembersOf(items, f, key, n)[0] == items[FirstOf(items, f, key, n)]
  {
    OrderIsKeys(items, f, n - 1, key);
    if key in Order(items, f, n - 1) {
      FirstMember(items, f, key, n - 1);
    }
  }

  lemma {:induction false} MembersSorted(items: seq<Item>, f: Item -> string, key: string, n: nat)
    requires n <= |items| && BySeverity(items)
    ensures BySeverity(MembersOf(items, f, key, n))
    ensures forall x | x in MembersOf(items, f, key, n) ::
              exists i | 0 <= i < n :: items[i] == x
  {
    if n > 0 {
      MembersSorted(items, f, key, n - 1);
      var m := MembersOf(items, f, key, n - 1);
      forall i | 0 <= i < |m| ensures Rank(m[i].severity) <= Rank(items[n - 1].severity) {
        assert m[i] in m;
      }
    }
  }

  /** On a severity-sorted inbox a card shows its first member's severity, that of the first item with its key. */
  lemma CardTop(items: seq<Item>, k: nat)
    requires BySeverity(items) && k < |Cards(items)|
    ensures var c, order := Cards(items)[k], Order(items, KeyOf(items), |items|);
            && k < |order| && order[k] in order
            && c.items != [] && c.topSeverity == c.items[0].severity
            && c.items[0] == items[FirstOf(items, KeyOf(items), order[k], |items|)]
  {
    var f, n := KeyOf(items), |items|;
    var key := Order(items, f, n)[k];
    FirstMember(items, f, key, n);
    MembersSorted(items, f, key, n);
  }

  /** On a severity-sorted inbox each card shows its first member's severity, and the cards are severity-sorted. */
  lemma CardsByUrgency(items: seq<Item>)
    requires BySeverity(items)
    ensures var cards := Cards(items);
            && (forall k | 0 <= k < |cards| ::
                  cards[k].items != [] && cards[k].topSeverity == cards[k].items[0].severity)
            && (forall j, k | 0 <= j < k < |cards| :: Rank(cards[j].topSeverity) <= Rank(cards[k].topSeverity))
  {
    var cards, f, n := Cards(items), KeyOf(items), |items|;
    forall k | 0 <= k < |cards|
      ensures cards[k].items != [] && cards[k].topSeverity == cards[k].items[0].severity
    {
      CardTop(items, k);
    }
    forall j, k | 0 <= j < k < |cards| ensures Rank(cards[j].topSeverity) <= Rank(cards[k].topSeverity) {
      CardTop(items, j);
      CardTop(items, k);
      OrderIsByFirst(items, f, n, j, k);
    }
  }

  // ---- What a card says, outright ----

  /** The first member with a property: where it stands, or that there is none. */
  ghost predicate FirstWith(members: seq<Item>, has: Item -> bool, found: Option<Item>) {
    match found
    case None => forall i | 0 <= i < |members| :: !has(members[i])
    case Some(m) =>
      exists i :: 0 <= i < |members| && members[i] == m && has(m) && forall k | 0 <= k < i :: !has(members[k])
  }

  lemma FirstWithCons(x: Item, rest: seq<Item>, has: Item -> bool, found: Option<Item>)
    requires has(x) || FirstWith(rest, has, found)
    ensures FirstWith([x] + rest, has, if has(x) then Some(x) else found)
  {
    var all := [x] + rest;
    assert all[0] == x && forall k | 0 <= k < |rest| :: all[k + 1] == rest[k];
    if !has(x) && found.Some? {
      var i :| 0 <= i < |rest| && rest[i] == found.value && has(found.value) && forall k | 0 <= k < i :: !has(rest[k]);
      assert all[i + 1] == found.value;
      forall k | 0 <= k < i + 1 ensures !has(all[k]) {
        assert k > 0 ==> all[k] == rest[k - 1];
      }
    }
  }

  lemma {:induction false} FindRootMeans(root: string, members: seq<Item>)
    ensures FirstWith(members, (x: Item) => x.kind == BlockedTask && x.taskId == root, FindRoot(root, members))
  {
    if members != [] {
      FindRootMeans(root, members[1..]);
      assert members == [members[0]] + members[1..];
      FirstWithCons(
        members[0], members[1..], (x: Item) => x.kind == BlockedTask && x.taskId == root, FindRoot(root, members[1..]));
    }
  }

  lemma {:induction false} FindTitledMeans(members: seq<Item>)
    ensures FirstWith(members, (x: Item) => x.parentTitle != "", FindTitled(members))
  {
    if members != [] {
      FindTitledMeans(members[1..]);
      assert members == [members[0]] + members[1..];
      FirstWithCons(members[0], members[1..], (x: Item) => x.parentTitle != "", FindTitled(members[1..]));
    }
  }

  ghost predicate Unprefixed(title: string, shown: string) {
    title == "Blocked: " + shown || (shown == title && forall rest :: title != "Blocked: " + rest)
  }

  /**
   The heading of a subtree: the title of its first blocked root task without its prefix, else the first known
   title of the parent, else the id.
   */
  ghost predicate HeadingMeans(root: string, members: seq<Item>, title: string) {
    if exists i | 0 <= i < |members| :: members[i].kind == BlockedTask && members[i].taskId == root then
      exists m :: FirstWith(members, (x: Item) => x.kind == BlockedTask && x.taskId == root, Some(m)) && Unprefixed(m.title, title)
    else if exists i | 0 <= i < |members| :: members[i].parentTitle != "" then
      exists m :: FirstWith(members, (x: Item) => x.parentTitle != "", Some(m)) && title == m.parentTitle
    else title == "Subtree " + root
  }

  lemma SubtreeTitleMeans(root: string, members: seq<Item>)
    ensures HeadingMeans(root, members, SubtreeTitle(root, members))
  {
    FindRootMeans(root, members);
    FindTitledMeans(members);
  }

  /** A member's age is the oldest the backend knows of; none is known exactly when no member has one. */
  ghost predicate OldestMeans(members: seq<Item>, age: Option<int>) {
    match age
    case None => forall i | 0 <= i < |members| :: members[i].ageTicks.None? || members[i].ageTicks.value < 0
    case Some(a) =>
      && a >= 0 && (exists i | 0 <= i < |members| :: members[i].ageTicks == Some(a))
      && forall i | 0 <= i < |members| && members[i].ageTicks.Some? :: members[i].ageTicks.value <= a
  }

  ghost predicate WorstMeans(members: seq<Item>, worst: Severity) {
    && (worst == Critical <==> exists i | 0 <= i < |members| :: members[i].severity == Critical)
    && (worst == Info <==> forall i | 0 <= i < |members| :: members[i].severity == Info)
  }

  /** What the k-th card shows: only two or more items of a subtree collapse, and a card that does not shows its first item. */
  lemma CardShows(items: seq<Item>, k: nat)
    requires k < |Cards(items)|
    ensures var c := Cards(items)[k];
            && c.items != [] && (c.collapsible <==> c.rootTaskId.Some? && |c.items| >= 2)
            && (!c.collapsible ==> c.title == c.items[0].title)
            && (c.collapsible ==> HeadingMeans(c.rootTaskId.value, c.items, c.title))
            && OldestMeans(c.items, c.topAge) && WorstMeans(c.items, c.topSeverity)
            && c.kindCounts == KindCounts(c.items)
  {
    var f, c := KeyOf(items), Cards(items)[k];
    var order := Order(items, f, |items|);
    OrderIsKeys(items, f, |items|, order[k]);
    if c.collapsible {
      BlankHeadingExactly(items, k);
      SubtreeTitleMeans(c.rootTaskId.value, c.items);
      CollapsedRoot(items, k);
    }
  }

  /** A collapsed card's root is not empty. */
  lemma CollapsedRoot(items: seq<Item>, k: nat)
    requires k < |Cards(items)| && Cards(items)[k].collapsible
    ensures Cards(items)[k].rootTaskId.Some? && Cards(items)[k].rootTaskId.value != ""
  {
    var f, c := KeyOf(items), Cards(items)[k];
    var order := Order(items, f, |items|);
    OrderHolds(items, f, |items|, order[k]);
    var i :| 0 <= i < |items| && f(items[i]) == order[k];
    assert c.key == order[k];
    SoloIsNoSubtree(items[i].id);
  }

  // ---- Which items share a card ----

  /** The subtree an item belongs to: its parent's, or its own if it is blocked and some item names it as parent. */
  ghost function RootOf(items: seq<Item>, x: Item): Option<string> {
    if x.parentTask != "" then Some(x.parentTask)
    else if x.kind == BlockedTask && x.taskId != "" && exists i | 0 <= i < |items| :: items[i].parentTask == x.taskId
    then Some(x.taskId)
    else None
  }

  lemma SoloIsNoSubtree(id: string)
    ensures !(SUBTREE <= SOLO + id)
  {
    assert (SOLO + id)[1] == 'o' && SUBTREE[1] == 'u';
  }

  lemma TextsBehind(prefix: string, a: string, b: string)
    ensures prefix + a == prefix + b <==> a == b
  {
    assert (prefix + a)[|prefix|..] == a && (prefix + b)[|prefix|..] == b;
  }

  /** Two items share a card exactly when they belong to the same subtree, or belong to none and have the same id. */
  lemma SameCardExactly(items: seq<Item>, x: Item, y: Item)
    ensures KeyOf(items)(x) == KeyOf(items)(y) <==>
              RootOf(items, x) == RootOf(items, y) && (RootOf(items, x).None? ==> x.id == y.id)
  {
    var r, q := RootOf(items, x), RootOf(items, y);
    SoloIsNoSubtree(x.id);
    SoloIsNoSubtree(y.id);
    TextsBehind(SOLO, x.id, y.id);
    if r.Some? && q.Some? {
      TextsBehind(SUBTREE, r.value, q.value);
    } else if r.Some? {
      assert SUBTREE <= SUBTREE + r.value;
    } else if q.Some? {
      assert SUBTREE <= SUBTREE + q.value;
    }
  }

  /** A card's root is the subtree of each of its items. */
  lemma CardRoot(items: seq<Item>, k: nat, x: Item)
    requires k < |Cards(items)| && KeyOf(items)(x) == Cards(items)[k].key
    ensures Cards(items)[k].rootTaskId == RootOf(items, x)
  {
    SoloIsNoSubtree(x.id);
    var r := RootOf(items, x);
    if r.Some? {
      assert (SUBTREE + r.value)[|SUBTREE|..] == r.value;
    }
  }

  /** Where the members of a kind stand. */
  function OfKind(members: seq<Item>, kind: Kind): set<nat> {
    set i: nat | i < |members| && members[i].kind == kind
  }

  /** A kind's count is the number of members of that kind. */
  lemma {:induction false} CountIsSize(members: seq<Item>, kind: Kind)
    ensures CountOf(members, kind) == |OfKind(members, kind)|
  {
    if members != [] {
      var n: nat := |members| - 1;
      var front := members[..n];
      CountIsSize(front, kind);
      assert forall i | 0 <= i < n :: front[i] == members[i];
      AddOne(OfKind(front, kind), OfKind(members, kind), n, members[n].kind == kind);
    }
  }
}
