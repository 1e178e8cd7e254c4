/** The `/list` handler of `lib/commands.js`: each stored record is parsed and tagged
    with its 1-based position, the items are sorted stably by start instant, grouped
    under `dayName D/M` headers in first-seen order, and rendered as text with a list
    of mentioned bookers. */
module Listing {
  import opened Wrappers
  import opened Text
  import opened Store
  import opened Booking
  import Calendar

  /** What a command sends back: the text and the jids it mentions. */
  datatype Reply = Reply(text: string, mentions: seq<string>)

  /** An element of `parsedBookings`: the parsed entry, its booker and the record's
      1-based position in the store, which `/list` shows as its ID. */
  datatype Item = Item(booking: Parsed, bookerJid: string, index: nat)

  /** Every stored entry can be read by `parseBooking` (see `ParseFields`). */
  predicate AllParse(records: seq<Record>) {
    forall i :: 0 <= i < |records| ==> ParseFields(records[i].booking).Some?
  }

  /** `rawBookings.map((b, i) => ({ ...parseBooking(b.booking), bookerJid, index: i + 1 }))` */
  function ToItems(records: seq<Record>, year: int): (r: seq<Item>)
    requires AllParse(records)
    ensures |r| == |records|
    ensures forall i :: 0 <= i < |r| ==>
      && r[i].index == i + 1
      && ParseBooking(records[i].booking, year) == Some(r[i].booking)
      && r[i].bookerJid == records[i].bookerJid
  {
    seq(|records|, i requires 0 <= i < |records| =>
      Item(ParseBooking(records[i].booking, year).value, records[i].bookerJid, i + 1))
  }

  // ---------------------------------------------------------------- sorting

  /** `x` comes strictly before `y` in a stable sort by start of items numbered in
      store order: an earlier start, or the same start and an earlier position. */
  predicate Before(x: Item, y: Item) {
    x.booking.start < y.booking.start || (x.booking.start == y.booking.start && x.index < y.index)
  }

  predicate Chronological(s: seq<Item>) {
    forall i, j :: 0 <= i < j < |s| ==> Before(s[i], s[j])
  }

  predicate Ascending(s: seq<Item>) {
    forall i, j :: 0 <= i < j < |s| ==> s[i].booking.start <= s[j].booking.start
  }

  predicate IncreasingIndex(s: seq<Item>) {
    forall i, j :: 0 <= i < j < |s| ==> s[i].index < s[j].index
  }

  /** Inserts `x` after every element that does not start later. */
  function Insert(x: Item, s: seq<Item>): (r: seq<Item>)
    ensures multiset(r) == multiset(s) + multiset{x}
  {
    if s == [] || x.booking.start < s[0].booking.start then
      [x] + s
    else
      assert s == [s[0]] + s[1..];
      [s[0]] + Insert(x, s[1..])
  }

  lemma InsertMembers(x: Item, s: seq<Item>)
    ensures forall y :: y in Insert(x, s) ==> y == x || y in s
  {
    forall y | y in Insert(x, s) ensures y == x || y in s {
      assert y in multiset(Insert(x, s));
    }
  }

  lemma {:induction false} InsertAscending(x: Item, s: seq<Item>)
    requires Ascending(s)
    ensures Ascending(Insert(x, s))
  {
    if s != [] && x.booking.start >= s[0].booking.start {
      var t := Insert(x, s[1..]);
      InsertAscending(x, s[1..]);
      InsertMembers(x, s[1..]);
      forall y | y in s[1..] ensures s[0].booking.start <= y.booking.start {
        var k :| 0 <= k < |s[1..]| && s[1..][k] == y;
        assert s[k + 1] == y;
      }
      AscendingCons(s[0], t);
    }
  }

  lemma AscendingCons(h: Item, t: seq<Item>)
    requires Ascending(t)
    requires forall y :: y in t ==> h.booking.start <= y.booking.start
    ensures Ascending([h] + t)
  {
    var r := [h] + t;
    forall i, j | 0 <= i < j < |r| ensures r[i].booking.start <= r[j].booking.start {
      if i == 0 {
        assert r[j] == t[j - 1];
      } else {
        assert r[i] == t[i - 1] && r[j] == t[j - 1];
      }
    }
  }

  lemma {:induction false} InsertChronological(x: Item, s: seq<Item>)
    requires Chronological(s)
    requires forall y :: y in s ==> y.index < x.index
    ensures Chronological(Insert(x, s))
  {
    if s != [] && x.booking.start >= s[0].booking.start {
      var t := Insert(x, s[1..]);
      InsertChronological(x, s[1..]);
      InsertMembers(x, s[1..]);
      forall y | y in s[1..] ensures Before(s[0], y) {
        var k :| 0 <= k < |s[1..]| && s[1..][k] == y;
        assert s[k + 1] == y;
      }
      assert s[0] in s;
      ChronologicalCons(s[0], t);
    }
  }

  lemma ChronologicalCons(h: Item, t: seq<Item>)
    requires Chronological(t)
    requires forall y :: y in t ==> Before(h, y)
    ensures Chronological([h] + t)
  {
    var r := [h] + t;
    forall i, j | 0 <= i < j < |r| ensures Before(r[i], r[j]) {
      if i == 0 {
        assert r[j] == t[j - 1];
      } else {
        assert r[i] == t[i - 1] && r[j] == t[j - 1];
      }
    }
  }

  /** `parsedBookings.sort((a, b) => a.dateObj - b.dateObj)`: a stable sort by start
      instant, as insertion sort (the order it produces is characterised by
      `SortIsTheStableSort`). */
  function SortByStart(s: seq<Item>): (r: seq<Item>)
    ensures multiset(r) == multiset(s)
  {
    if s == [] then []
    else
      assert s == s[..|s| - 1] + [s[|s| - 1]];
      Insert(s[|s| - 1], SortByStart(s[..|s| - 1]))
  }

  /** The sort orders by start instant, and items with equal starts keep their store
      order. */
  lemma {:induction false} SortByStartOrder(s: seq<Item>)
    ensures Ascending(SortByStart(s))
    ensures IncreasingIndex(s) ==> Chronological(SortByStart(s))
  {
    if s != [] {
      var p := s[..|s| - 1];
      var x := s[|s| - 1];
      var q := SortByStart(p);
      SortByStartOrder(p);
      InsertAscending(x, q);
      if IncreasingIndex(s) {
        assert IncreasingIndex(p);
        forall y | y in q ensures y.index < x.index {
          assert y in multiset(q);
          assert y in p;
        }
        InsertChronological(x, q);
      }
    }
  }

  /** Two chronological arrangements of one multiset start with the same item. */
  lemma ChronologicalHeads(a: seq<Item>, b: seq<Item>)
    requires |a| > 0 && multiset(a) == multiset(b)
    requires Chronological(a) && Chronological(b)
    ensures |b| > 0 && a[0] == b[0]
  {
    assert a[0] in multiset(b);
    var x := a[0];
    var k :| 0 <= k < |b| && b[k] == x;
    var y := b[0];
    assert y in multiset(a);
    var j :| 0 <= j < |a| && a[j] == y;
    assert Before(y, b[k]) || k == 0;
    assert Before(x, a[j]) || j == 0;
  }

  lemma ChronologicalTail(a: seq<Item>)
    requires |a| > 0 && Chronological(a)
    ensures Chronological(a[1..])
    ensures multiset(a[1..]) == multiset(a) - multiset{a[0]}
  {
    assert a == [a[0]] + a[1..];
    forall i, j | 0 <= i < j < |a| - 1 ensures Before(a[1..][i], a[1..][j]) {
      assert a[1..][i] == a[i + 1] && a[1..][j] == a[j + 1];
    }
  }

  /** A chronological arrangement of a multiset of items is unique. */
  lemma {:induction false} ChronologicalUnique(a: seq<Item>, b: seq<Item>)
    requires multiset(a) == multiset(b)
    requires Chronological(a) && Chronological(b)
    ensures a == b
    decreases |a|
  {
    assert |a| == |multiset(a)| == |multiset(b)| == |b|;
    if |a| > 0 {
      ChronologicalHeads(a, b);
      ChronologicalTail(a);
      ChronologicalTail(b);
      ChronologicalUnique(a[1..], b[1..]);
      assert a == [a[0]] + a[1..] && b == [b[0]] + b[1..];
    }
  }

  /** The sort is the stable sort: the only arrangement of the items, numbered in store
      order, that orders them by start and keeps store order among equal starts. */
  lemma SortIsTheStableSort(s: seq<Item>, t: seq<Item>)
    requires IncreasingIndex(s)
    requires multiset(t) == multiset(s) && Chronological(t)
    ensures t == SortByStart(s)
  {
    SortByStartOrder(s);
    ChronologicalUnique(t, SortByStart(s));
  }

  // ---------------------------------------------------------------- grouping

  /** `${pb.dayName} ${pb.dateDisplay}` */
  function Header(it: Item): string {
    it.booking.dayName + " " + it.booking.dateDisplay
  }

  /** The distinct headers of `s` in the order of their first occurrence: the key order
      of `grouped`, which `Object.entries` follows. */
  function Headers(s: seq<Item>): (r: seq<string>)
    ensures forall i, j :: 0 <= i < j < |r| ==> r[i] != r[j]
    ensures forall h :: h in r <==> exists k :: 0 <= k < |s| && Header(s[k]) == h
  {
    if s == [] then []
    else
      var p := Headers(s[..|s| - 1]);
      var h := Header(s[|s| - 1]);
      assert forall k :: 0 <= k < |s| - 1 ==> s[..|s| - 1][k] == s[k];
      if h in p then p else p + [h]
  }

  /** The items of `s` under header `h`, in their order in `s`: what `grouped[h]`
      holds after the `forEach`. */
  function WithHeader(s: seq<Item>, h: string): (r: seq<Item>)
    ensures forall i :: 0 <= i < |r| ==> Header(r[i]) == h && r[i] in s
    ensures |r| > 0 <==> exists k :: 0 <= k < |s| && Header(s[k]) == h
  {
    assert forall k :: 0 <= k < |s| - 1 ==> s[..|s| - 1][k] == s[k];
    if s == [] then []
    else
      var p := WithHeader(s[..|s| - 1], h);
      if Header(s[|s| - 1]) == h then p + [s[|s| - 1]] else p
  }

  datatype Group = Group(header: string, items: seq<Item>)

  /** `Object.entries(grouped)`: the groups in first-seen order. */
  function Grouping(s: seq<Item>): (r: seq<Group>)
  {
    GroupsFor(s, Headers(s))
  }

  /** The group of `s` under each of the headers `hs`. */
  function GroupsFor(s: seq<Item>, hs: seq<string>): (r: seq<Group>)
    ensures |r| == |hs|
    ensures forall i :: 0 <= i < |hs| ==> r[i] == Group(hs[i], WithHeader(s, hs[i]))
  {
    seq(|hs|, i requires 0 <= i < |hs| => Group(hs[i], WithHeader(s, hs[i])))
  }

  /** The items of the groups, one group after the other. */
  function Flatten(gs: seq<Group>): seq<Item> {
    if gs == [] then [] else gs[0].items + Flatten(gs[1..])
  }

  lemma {:induction false} FlattenAppend(a: seq<Group>, b: seq<Group>)
    ensures Flatten(a + b) == Flatten(a) + Flatten(b)
    decreases |a|
  {
    if a != [] {
      assert (a + b)[1..] == a[1..] + b;
      FlattenAppend(a[1..], b);
    } else {
      assert a + b == b;
    }
  }

  lemma WithHeaderSnoc(s: seq<Item>, x: Item, h: string)
    ensures WithHeader(s + [x], h) == WithHeader(s, h) + (if Header(x) == h then [x] else [])
  {
    assert (s + [x])[..|s|] == s;
  }

  lemma GroupsForCons(s: seq<Item>, hs: seq<string>)
    requires hs != []
    ensures Flatten(GroupsFor(s, hs)) == WithHeader(s, hs[0]) + Flatten(GroupsFor(s, hs[1..]))
  {
    var gs := GroupsFor(s, hs);
    assert gs[1..] == GroupsFor(s, hs[1..]);
  }

  /** The extra element one more item `x` brings to the groups of headers `hs`. */
  function Extra(x: Item, hs: seq<string>): multiset<Item> {
    if Header(x) in hs then multiset{x} else multiset{}
  }

  predicate Distinct(hs: seq<string>) {
    forall i, j :: 0 <= i < j < |hs| ==> hs[i] != hs[j]
  }

  /** One more item adds one element to the groups of the header it carries. */
  lemma {:induction false} GroupsForSnoc(s: seq<Item>, x: Item, hs: seq<string>)
    requires Distinct(hs)
    ensures multiset(Flatten(GroupsFor(s + [x], hs))) == multiset(Flatten(GroupsFor(s, hs))) + Extra(x, hs)
    decreases |hs|
  {
    if hs != [] {
      DistinctTail(hs);
      GroupsForSnoc(s, x, hs[1..]);
      GroupsForSnocStep(s, x, hs);
    }
  }

  lemma DistinctTail(hs: seq<string>)
    requires hs != [] && Distinct(hs)
    ensures Distinct(hs[1..]) && hs[0] !in hs[1..]
  {
    var t := hs[1..];
    forall i, j | 0 <= i < j < |t| ensures t[i] != t[j] {
      assert t[i] == hs[i + 1] && t[j] == hs[j + 1];
    }
    forall j | 0 <= j < |t| ensures t[j] != hs[0] {
      assert t[j] == hs[j + 1];
    }
  }

  lemma ExtraCons(x: Item, hs: seq<string>)
    requires hs != [] && hs[0] !in hs[1..]
    ensures Extra(x, hs) == (if Header(x) == hs[0] then multiset{x} else multiset{}) + Extra(x, hs[1..])
  {
    assert hs == [hs[0]] + hs[1..];
    assert Header(x) in hs <==> Header(x) == hs[0] || Header(x) in hs[1..];
  }

  /** The step of `GroupsForSnoc` from the headers after the first to all of them. */
  lemma GroupsForSnocStep(s: seq<Item>, x: Item, hs: seq<string>)
    requires hs != [] && hs[0] !in hs[1..]
    requires multiset(Flatten(GroupsFor(s + [x], hs[1..])))
          == multiset(Flatten(GroupsFor(s, hs[1..]))) + Extra(x, hs[1..])
    ensures multiset(Flatten(GroupsFor(s + [x], hs))) == multiset(Flatten(GroupsFor(s, hs))) + Extra(x, hs)
  {
    var t := hs[1..];
    var w := WithHeader(s, hs[0]);
    var here := if Header(x) == hs[0] then [x] else [];
    var after := Flatten(GroupsFor(s + [x], t));
    var before := Flatten(GroupsFor(s, t));
    assert Flatten(GroupsFor(s + [x], hs)) == (w + here) + after by {
      GroupsForCons(s + [x], hs);
      WithHeaderSnoc(s, x, hs[0]);
    }
    assert Flatten(GroupsFor(s, hs)) == w + before by {
      GroupsForCons(s, hs);
    }
    assert Extra(x, hs) == multiset(here) + Extra(x, t) by {
      ExtraCons(x, hs);
    }
    MultisetSplice(w, here, after, before, Extra(x, t));
  }

  lemma MultisetSplice(w: seq<Item>, here: seq<Item>, after: seq<Item>, before: seq<Item>, e: multiset<Item>)
    requires multiset(after) == multiset(before) + e
    ensures multiset((w + here) + after) == multiset(w + before) + (multiset(here) + e)
  {
    assert multiset((w + here) + after) == multiset(w) + multiset(here) + multiset(after);
    assert multiset(w + before) == multiset(w) + multiset(before);
  }

  /** An item with a header not seen before opens a group of its own at the end. */
  lemma GroupingNewHeader(p: seq<Item>, x: Item)
    requires Header(x) !in Headers(p)
    ensures Flatten(Grouping(p + [x])) == Flatten(GroupsFor(p + [x], Headers(p))) + [x]
  {
    var s := p + [x];
    var h := Header(x);
    var hs := Headers(p);
    var g := Group(h, WithHeader(s, h));
    assert Grouping(s) == GroupsFor(s, hs) + [g] by {
      HeadersSnoc(p, x);
      GroupsForLastHeader(s, hs + [h]);
      assert (hs + [h])[..|hs|] == hs;
    }
    assert g.items == [x] by {
      WithHeaderSnoc(p, x, h);
      assert WithHeader(p, h) == [];
    }
    FlattenSnoc(GroupsFor(s, hs), g);
  }

  lemma HeadersSnoc(p: seq<Item>, x: Item)
    ensures Headers(p + [x]) == if Header(x) in Headers(p) then Headers(p) else Headers(p) + [Header(x)]
  {
    assert (p + [x])[..|p|] == p;
  }

  /** Grouping partitions the items: each is in exactly one group. */
  lemma {:induction false} GroupingPartition(s: seq<Item>)
    ensures multiset(Flatten(Grouping(s))) == multiset(s)
    decreases |s|
  {
    if s != [] {
      var p := s[..|s| - 1];
      var x := s[|s| - 1];
      assert s == p + [x];
      GroupingPartition(p);
      GroupingSnocMultiset(p, x);
    }
  }

  /** One more item adds itself to the groups. */
  lemma GroupingSnocMultiset(p: seq<Item>, x: Item)
    ensures multiset(Flatten(Grouping(p + [x]))) == multiset(Flatten(Grouping(p))) + multiset{x}
  {
    var s := p + [x];
    var hs := Headers(p);
    GroupsForSnoc(p, x, hs);
    if Header(x) in hs {
      assert Grouping(s) == GroupsFor(s, hs) by {
        HeadersSnoc(p, x);
      }
    } else {
      GroupingNewHeader(p, x);
      var rest := Flatten(GroupsFor(s, hs));
      assert multiset(rest + [x]) == multiset(rest) + multiset{x};
    }
  }

  /** Every group is non-empty, and each of its items carries the group's header. */
  lemma GroupsWellFormed(s: seq<Item>)
    ensures forall i :: 0 <= i < |Grouping(s)| ==>
      && |Grouping(s)[i].items| > 0
      && forall y :: y in Grouping(s)[i].items ==> Header(y) == Grouping(s)[i].header
  {
    var gs := Grouping(s);
    forall i | 0 <= i < |gs|
      ensures |gs[i].items| > 0
      ensures forall y :: y in gs[i].items ==> Header(y) == gs[i].header
    {
      assert gs[i].header in Headers(s);
    }
  }

  /** Every item of `s` before position `p` carries one of the headers `earlier`. */
  predicate OnlyHeadersBefore(s: seq<Item>, p: nat, earlier: seq<string>)
    requires p <= |s|
  {
    forall q :: 0 <= q < p ==> Header(s[q]) in earlier
  }

  /** The k-th header first occurs at position p of `s`. */
  predicate FirstOccurrence(s: seq<Item>, hs: seq<string>, k: nat, p: nat)
    requires k < |hs|
  {
    p < |s| && Header(s[p]) == hs[k] && OnlyHeadersBefore(s, p, hs[..k])
  }

  predicate FirstSeen(s: seq<Item>, hs: seq<string>, k: nat)
    requires k < |hs|
  {
    exists p :: 0 <= p < |s| && FirstOccurrence(s, hs, k, p)
  }

  /** Groups come in the order their headers first occur: the k-th header occurs at
      some position p, and every item before p carries one of the first k headers. */
  lemma {:induction false} HeadersFirstSeen(s: seq<Item>)
    ensures forall k :: 0 <= k < |Headers(s)| ==> FirstSeen(s, Headers(s), k)
    decreases |s|
  {
    if s != [] {
      var ps := s[..|s| - 1];
      var x := s[|s| - 1];
      var hs := Headers(ps);
      HeadersFirstSeen(ps);
      var r := Headers(s);
      forall k | 0 <= k < |r| ensures FirstSeen(s, r, k) {
        if k < |hs| {
          assert FirstSeen(ps, hs, k);
          var p :| 0 <= p < |ps| && FirstOccurrence(ps, hs, k, p);
          assert r[..k] == hs[..k];
          assert forall q :: 0 <= q <= p ==> s[q] == ps[q];
          assert FirstOccurrence(s, r, k, p);
        } else {
          assert r == hs + [Header(x)] && k == |hs|;
          assert r[..k] == hs;
          forall q | 0 <= q < |ps| ensures Header(s[q]) in r[..k] {
            assert s[q] == ps[q];
          }
          assert FirstOccurrence(s, r, k, |ps|);
        }
      }
    }
  }

  /** Within a group, items keep their order in the sorted sequence. */
  lemma {:induction false} WithHeaderChronological(s: seq<Item>, h: string)
    requires Chronological(s)
    ensures Chronological(WithHeader(s, h))
    decreases |s|
  {
    if s != [] {
      var p := s[..|s| - 1];
      var x := s[|s| - 1];
      assert Chronological(p);
      WithHeaderChronological(p, h);
      var w := WithHeader(p, h);
      if Header(x) == h {
        forall i | 0 <= i < |w| ensures Before(w[i], x) {
          var k :| 0 <= k < |p| && p[k] == w[i];
          assert s[k] == w[i];
        }
      }
    }
  }

  /** The `forEach` that fills `grouped`: `order` is the key order of the object. */
  method GroupByHeader(items: seq<Item>) returns (order: seq<string>, groups: map<string, seq<Item>>)
    ensures order == Headers(items)
    ensures forall h :: h in groups <==> h in order
    ensures forall h :: h in groups ==> groups[h] == WithHeader(items, h)
  {
    order, groups := [], map[];
    var i := 0;
    while i < |items|
      invariant 0 <= i <= |items|
      invariant order == Headers(items[..i])
      invariant forall h :: h in groups <==> h in order
      invariant forall h :: h in groups ==> groups[h] == WithHeader(items[..i], h)
    {
      order, groups := AddToGroup(items, i, order, groups);
      i := i + 1;
    }
    assert items[..i] == items;
  }

  /** The body of the `forEach`: opens the group of the item's header if it is new
      and appends the item to it. */
  method AddToGroup(items: seq<Item>, i: nat, order: seq<string>, groups: map<string, seq<Item>>)
    returns (newOrder: seq<string>, newGroups: map<string, seq<Item>>)
    requires i < |items|
    requires order == Headers(items[..i])
    requires forall h :: h in groups <==> h in order
    requires forall h :: h in groups ==> groups[h] == WithHeader(items[..i], h)
    ensures newOrder == Headers(items[..i + 1])
    ensures forall h :: h in newGroups <==> h in newOrder
    ensures forall h :: h in newGroups ==> newGroups[h] == WithHeader(items[..i + 1], h)
  {
    var key := Header(items[i]);
    HeadersStep(items, i);
    newOrder, newGroups := order, groups;
    if key !in newGroups {
      newGroups := newGroups[key := []];
      newOrder := newOrder + [key];
    }
    assert newGroups[key] == WithHeader(items[..i], key);
    newGroups := newGroups[key := newGroups[key] + [items[i]]];
    forall h | h in newGroups ensures newGroups[h] == WithHeader(items[..i + 1], h) {
      WithHeaderStep(items, i, h);
    }
  }

  lemma HeadersStep(items: seq<Item>, i: nat)
    requires i < |items|
    ensures Headers(items[..i + 1])
         == if Header(items[i]) in Headers(items[..i]) then Headers(items[..i])
            else Headers(items[..i]) + [Header(items[i])]
  {
    assert items[..i + 1] == items[..i] + [items[i]];
    HeadersSnoc(items[..i], items[i]);
  }

  lemma WithHeaderStep(items: seq<Item>, i: nat, h: string)
    requires i < |items|
    ensures WithHeader(items[..i + 1], h)
         == WithHeader(items[..i], h) + (if Header(items[i]) == h then [items[i]] else [])
  {
    assert items[..i + 1] == items[..i] + [items[i]];
    WithHeaderSnoc(items[..i], items[i], h);
  }

  // ---------------------------------------------------------------- rendering

  /** `bookerJid.split('@')[0]`: the jid up to its first `@`. */
  function LocalPart(jid: string): (r: string)
    ensures |r| <= |jid| && r == jid[..|r|] && '@' !in r
    ensures |r| < |jid| ==> jid[|r|] == '@'
  {
    var n := SpanAvoiding(jid, {'@'});
    SplitHead(jid, {'@'});
    Split(jid, {'@'})[0]
  }

  /** The line of one item: the time range, ` @` and the booker's local part when there
      is a booker, and ` [ID: n]`. */
  function Line(it: Item): string {
    it.booking.timeRange
      + (if it.bookerJid != [] then " @" + LocalPart(it.bookerJid) else [])
      + " [ID: " + NatToString(it.index) + "]"
  }

  /** Each item's line followed by a newline. */
  function ItemsText(items: seq<Item>): string {
    if items == [] then [] else ItemsText(items[..|items| - 1]) + Line(items[|items| - 1]) + "\n"
  }

  /** A group's header line, its item lines and a blank line. */
  function GroupText(g: Group): string {
    g.header + "\n" + ItemsText(g.items) + "\n"
  }

  /** `listText` before the final `trim()`. */
  function Layout(gs: seq<Group>): string {
    if gs == [] then [] else Layout(gs[..|gs| - 1]) + GroupText(gs[|gs| - 1])
  }

  /** The bookers of `items` that are not empty, in order: what `mentions` collects. */
  function Bookers(items: seq<Item>): (r: seq<string>)
    ensures forall m :: m in r ==> m != []
  {
    if items == [] then []
    else
      var b := items[|items| - 1].bookerJid;
      Bookers(items[..|items| - 1]) + (if b != [] then [b] else [])
  }

  lemma {:induction false} BookersAppend(a: seq<Item>, b: seq<Item>)
    ensures Bookers(a + b) == Bookers(a) + Bookers(b)
    decreases |b|
  {
    if b == [] {
      assert a + b == a;
    } else {
      var c := b[..|b| - 1];
      assert (a + b)[..|a + b| - 1] == a + c;
      BookersAppend(a, c);
    }
  }

  lemma FlattenSnoc(gs: seq<Group>, g: Group)
    ensures Flatten(gs + [g]) == Flatten(gs) + g.items
  {
    FlattenAppend(gs, [g]);
    assert Flatten([g]) == g.items + Flatten([]);
  }

  /** The inner `items.forEach`: the lines of one group and the bookers it mentions. */
  method RenderItems(items: seq<Item>) returns (text: string, mentions: seq<string>)
    ensures text == ItemsText(items)
    ensures mentions == Bookers(items)
  {
    text, mentions := [], [];
    var j := 0;
    while j < |items|
      invariant 0 <= j <= |items|
      invariant text == ItemsText(items[..j])
      invariant mentions == Bookers(items[..j])
    {
      var line, mention := RenderItem(items[j]);
      RenderStep(items, j);
      text := text + line + "\n";
      mentions := mentions + mention;
      j := j + 1;
    }
    assert items[..j] == items;
  }

  /** The body of the item loop: one line, and the booker when there is one. */
  method RenderItem(item: Item) returns (line: string, mention: seq<string>)
    ensures line == Line(item)
    ensures mention == (if item.bookerJid != [] then [item.bookerJid] else [])
  {
    line := item.booking.timeRange;
    mention := [];
    if item.bookerJid != [] {
      line := line + " @" + LocalPart(item.bookerJid);
      mention := [item.bookerJid];
    }
    line := line + " [ID: " + NatToString(item.index) + "]";
  }

  lemma RenderStep(items: seq<Item>, j: nat)
    requires j < |items|
    ensures ItemsText(items[..j + 1]) == ItemsText(items[..j]) + Line(items[j]) + "\n"
    ensures Bookers(items[..j + 1])
         == Bookers(items[..j]) + (if items[j].bookerJid != [] then [items[j].bookerJid] else [])
  {
    assert items[..j + 1][..j] == items[..j];
  }

  /** The outer loop over `Object.entries(grouped)` that builds `listText` and
      `mentions`. */
  method Render(entries: seq<Group>) returns (text: string, mentions: seq<string>)
    ensures text == Layout(entries)
    ensures mentions == Bookers(Flatten(entries))
  {
    text, mentions := [], [];
    var i := 0;
    while i < |entries|
      invariant 0 <= i <= |entries|
      invariant text == Layout(entries[..i])
      invariant mentions == Bookers(Flatten(entries[..i]))
    {
      var g := entries[i];
      var lines, bookers := RenderItems(g.items);
      RenderGroupStep(entries, i);
      text := text + (g.header + "\n" + lines + "\n");
      mentions := mentions + bookers;
      i := i + 1;
    }
    assert entries[..i] == entries;
  }

  lemma RenderGroupStep(entries: seq<Group>, i: nat)
    requires i < |entries|
    ensures Layout(entries[..i + 1]) == Layout(entries[..i]) + GroupText(entries[i])
    ensures Bookers(Flatten(entries[..i + 1])) == Bookers(Flatten(entries[..i])) + Bookers(entries[i].items)
  {
    var p := entries[..i + 1];
    assert p == entries[..i] + [entries[i]] && p[..i] == entries[..i];
    FlattenSnoc(entries[..i], entries[i]);
    BookersAppend(Flatten(entries[..i]), entries[i].items);
  }

  // ---------------------------------------------------------------- the reply

  /** The items `/list` shows, in the order it shows them. */
  function Displayed(records: seq<Record>, year: int): seq<Item>
    requires AllParse(records)
  {
    Flatten(Grouping(SortByStart(ToItems(records, year))))
  }

  /** The reply of `/list` for a conversation's records. */
  function ListView(records: seq<Record>, year: int): Reply
    requires AllParse(records)
  {
    if |records| == 0 then Reply("No bookings found.", [])
    else
      var gs := Grouping(SortByStart(ToItems(records, year)));
      Reply(Trim(Layout(gs)), Bookers(Flatten(gs)))
  }

  /** The `/list` handler on the records `getBookings` returned. */
  method ListBookings(records: seq<Record>, year: int) returns (reply: Reply)
    requires AllParse(records)
    ensures reply == ListView(records, year)
  {
    if |records| == 0 {
      return Reply("No bookings found.", []);
    }
    var parsedBookings := ToItems(records, year);
    parsedBookings := SortByStart(parsedBookings);
    var order, grouped := GroupByHeader(parsedBookings);
    var entries := seq(|order|, i requires 0 <= i < |order| => Group(order[i], grouped[order[i]]));
    EntriesAreGrouping(parsedBookings, order, grouped, entries);
    var listText, mentions := Render(entries);
    reply := Reply(Trim(listText), mentions);
  }

  /** `Object.entries(grouped)` after the `forEach` is the grouping of the items. */
  lemma EntriesAreGrouping(items: seq<Item>, order: seq<string>, grouped: map<string, seq<Item>>,
                           entries: seq<Group>)
    requires order == Headers(items)
    requires forall h :: h in grouped <==> h in order
    requires forall h :: h in grouped ==> grouped[h] == WithHeader(items, h)
    requires |entries| == |order|
    requires forall i :: 0 <= i < |order| ==> order[i] in grouped && entries[i] == Group(order[i], grouped[order[i]])
    ensures entries == Grouping(items)
  {
  }

  // ---------------------------------------------------------------- what the list shows

  /** Every stored record is shown exactly once. */
  lemma ListShowsEachRecordOnce(records: seq<Record>, year: int)
    requires AllParse(records)
    ensures multiset(Displayed(records, year)) == multiset(ToItems(records, year))
  {
    GroupingPartition(SortByStart(ToItems(records, year)));
  }

  /** The ID shown with an item is the 1-based position of the record it was read from:
      `/cancel n` removes the record shown with `[ID: n]`. */
  lemma ListIdOf(records: seq<Record>, year: int, e: Item)
    requires AllParse(records) && e in Displayed(records, year)
    ensures 1 <= e.index <= |records|
    ensures ParseBooking(records[e.index - 1].booking, year) == Some(e.booking)
    ensures records[e.index - 1].bookerJid == e.bookerJid
  {
    var items := ToItems(records, year);
    ListShowsEachRecordOnce(records, year);
    assert e in multiset(Displayed(records, year));
    assert e in items;
  }

  /** The same for every displayed item. */
  lemma ListIdIsPosition(records: seq<Record>, year: int)
    requires AllParse(records)
    ensures forall e :: e in Displayed(records, year) ==>
      && 1 <= e.index <= |records|
      && ParseBooking(records[e.index - 1].booking, year) == Some(e.booking)
      && records[e.index - 1].bookerJid == e.bookerJid
  {
    forall e | e in Displayed(records, year)
      ensures 1 <= e.index <= |records|
      ensures ParseBooking(records[e.index - 1].booking, year) == Some(e.booking)
      ensures records[e.index - 1].bookerJid == e.bookerJid
    {
      ListIdOf(records, year, e);
    }
  }

  /** Within each group the items are in order of start, and items with equal starts
      are in store order. */
  lemma ListGroupsChronological(records: seq<Record>, year: int)
    requires AllParse(records)
    ensures forall g :: g in Grouping(SortByStart(ToItems(records, year))) ==> Chronological(g.items)
  {
    var items := ToItems(records, year);
    assert IncreasingIndex(items);
    var sorted := SortByStart(items);
    SortByStartOrder(items);
    forall g | g in Grouping(sorted) ensures Chronological(g.items) {
      WithHeaderChronological(sorted, g.header);
    }
  }

  // ---------------------------------------------------------------- in-range lists

  /** Items that share a header stand together: no item with another header comes
      between two of them. */
  predicate Contiguous(s: seq<Item>) {
    forall i, j, k :: 0 <= i < j < k < |s| && Header(s[i]) == Header(s[k]) ==> Header(s[j]) == Header(s[k])
  }

  lemma ContiguousPrefix(s: seq<Item>)
    requires s != [] && Contiguous(s)
    ensures Contiguous(s[..|s| - 1])
  {
    var p := s[..|s| - 1];
    forall a, b, c | 0 <= a < b < c < |p| && Header(p[a]) == Header(p[c])
      ensures Header(p[b]) == Header(p[c])
    {
      assert p[a] == s[a] && p[b] == s[b] && p[c] == s[c];
    }
  }

  /** With contiguous headers, an item whose header was seen before carries the
      header of the item just before it. */
  lemma SeenHeaderIsPrevious(p: seq<Item>)
    requires |p| >= 2 && Contiguous(p)
    requires Header(p[|p| - 1]) in Headers(p[..|p| - 1])
    ensures Header(p[|p| - 2]) == Header(p[|p| - 1])
  {
    var q := p[..|p| - 1];
    var i :| 0 <= i < |q| && Header(q[i]) == Header(p[|p| - 1]);
    assert q[i] == p[i];
  }

  /** With contiguous headers, the last header to appear is the last item's. */
  lemma {:induction false} LastHeader(p: seq<Item>)
    requires p != [] && Contiguous(p)
    ensures Headers(p) != [] && Headers(p)[|Headers(p)| - 1] == Header(p[|p| - 1])
    decreases |p|
  {
    var q := p[..|p| - 1];
    var y := p[|p| - 1];
    if Header(y) in Headers(q) {
      assert Headers(p) == Headers(q);
      ContiguousPrefix(p);
      LastHeader(q);
      SeenHeaderIsPrevious(p);
      assert q[|q| - 1] == p[|p| - 2];
    } else {
      assert Headers(p) == Headers(q) + [Header(y)];
    }
  }

  /** Groups of headers other than the new item's do not change. */
  lemma GroupsForOthers(p: seq<Item>, x: Item, hs: seq<string>)
    requires Header(x) !in hs
    ensures GroupsFor(p + [x], hs) == GroupsFor(p, hs)
  {
    forall i | 0 <= i < |hs| ensures WithHeader(p + [x], hs[i]) == WithHeader(p, hs[i]) {
      WithHeaderSnoc(p, x, hs[i]);
    }
  }

  /** An item under the last header joins the last group. */
  lemma GroupsForLast(p: seq<Item>, x: Item, hs: seq<string>)
    requires hs != [] && Header(x) == hs[|hs| - 1]
    requires Distinct(hs)
    ensures Flatten(GroupsFor(p + [x], hs)) == Flatten(GroupsFor(p, hs)) + [x]
  {
    var n := |hs|;
    var front, last := hs[..n - 1], hs[n - 1];
    var g1 := Group(last, WithHeader(p + [x], last));
    var g0 := Group(last, WithHeader(p, last));
    GroupsForLastHeader(p + [x], hs);
    GroupsForLastHeader(p, hs);
    assert GroupsFor(p + [x], front) == GroupsFor(p, front) by {
      assert Header(x) !in front by {
        forall i | 0 <= i < n - 1 ensures front[i] != last {
          assert front[i] == hs[i];
        }
      }
      GroupsForOthers(p, x, front);
    }
    assert g1.items == g0.items + [x] by {
      WithHeaderSnoc(p, x, last);
    }
    FlattenLastGrows(GroupsFor(p, front), g0, g1, x);
  }

  lemma FlattenLastGrows(gs: seq<Group>, g0: Group, g1: Group, x: Item)
    requires g1.items == g0.items + [x]
    ensures Flatten(gs + [g1]) == Flatten(gs + [g0]) + [x]
  {
    FlattenSnoc(gs, g1);
    FlattenSnoc(gs, g0);
  }

  lemma GroupsForLastHeader(s: seq<Item>, hs: seq<string>)
    requires hs != []
    ensures GroupsFor(s, hs)
         == GroupsFor(s, hs[..|hs| - 1]) + [Group(hs[|hs| - 1], WithHeader(s, hs[|hs| - 1]))]
  {
  }

  /** One more item that keeps the headers contiguous lands at the end. */
  lemma GroupingSnoc(p: seq<Item>, x: Item)
    requires Contiguous(p + [x])
    ensures Flatten(Grouping(p + [x])) == Flatten(Grouping(p)) + [x]
  {
    if Header(x) !in Headers(p) {
      GroupingSnocNew(p, x);
    } else {
      GroupingSnocSeen(p, x);
    }
  }

  lemma GroupingSnocNew(p: seq<Item>, x: Item)
    requires Header(x) !in Headers(p)
    ensures Flatten(Grouping(p + [x])) == Flatten(Grouping(p)) + [x]
  {
    GroupingNewHeader(p, x);
    GroupsForOthers(p, x, Headers(p));
  }

  lemma GroupingSnocSeen(p: seq<Item>, x: Item)
    requires Contiguous(p + [x]) && Header(x) in Headers(p)
    ensures Flatten(Grouping(p + [x])) == Flatten(Grouping(p)) + [x]
  {
    var s := p + [x];
    var hs := Headers(p);
    assert Grouping(s) == GroupsFor(s, hs) by {
      HeadersSnoc(p, x);
    }
    assert hs != [] && Header(x) == hs[|hs| - 1] by {
      assert s[..|s| - 1] == p && s[|s| - 1] == x && s[|s| - 2] == p[|p| - 1];
      ContiguousPrefix(s);
      LastHeader(p);
      SeenHeaderIsPrevious(s);
    }
    GroupsForLast(p, x, hs);
  }

  /** When headers are contiguous, grouping keeps the items in their order. */
  lemma {:induction false} ContiguousGrouping(s: seq<Item>)
    requires Contiguous(s)
    ensures Flatten(Grouping(s)) == s
    decreases |s|
  {
    if s == [] {
      assert Grouping(s) == [];
    } else {
      var p := s[..|s| - 1];
      assert s == p + [s[|s| - 1]];
      ContiguousPrefix(s);
      ContiguousGrouping(p);
      GroupingSnoc(p, s[|s| - 1]);
    }
  }

  /** Every stored entry's date and start time need no carrying by `Date`. */
  predicate AllInRange(records: seq<Record>, year: int) {
    forall i :: 0 <= i < |records| ==> InRangeEntry(records[i].booking, year)
  }

  /** Among in-range records, two items share a header exactly when they start on the
      same day. */
  lemma ItemsHeaderDay(records: seq<Record>, year: int, x: Item, y: Item)
    requires AllInRange(records, year)
    requires x in ToItems(records, year) && y in ToItems(records, year)
    ensures Header(x) == Header(y) <==> Day(x.booking) == Day(y.booking)
  {
    var items := ToItems(records, year);
    var i := IndexOf(items, x);
    var j := IndexOf(items, y);
    HeaderDayAt(records, year, i, j);
  }

  lemma IndexOf(s: seq<Item>, x: Item) returns (i: nat)
    requires x in s
    ensures i < |s| && s[i] == x
  {
    i :| 0 <= i < |s| && s[i] == x;
  }

  lemma HeaderDayAt(records: seq<Record>, year: int, i: nat, j: nat)
    requires AllInRange(records, year) && i < |records| && j < |records|
    ensures var x, y := ToItems(records, year)[i], ToItems(records, year)[j];
      Header(x) == Header(y) <==> Day(x.booking) == Day(y.booking)
  {
    var s1, s2 := records[i].booking, records[j].booking;
    assert InRangeEntry(s1, year) && InRangeEntry(s2, year);
    SameHeaderSameDay(s1, s2, year);
  }

  lemma DayMonotone(a: Parsed, b: Parsed)
    requires a.start <= b.start
    ensures Day(a) <= Day(b)
  {
  }

  /** Sorting in-range records by start brings each day's items together. */
  lemma SortedInRangeContiguous(records: seq<Record>, year: int)
    requires AllInRange(records, year)
    ensures Contiguous(SortByStart(ToItems(records, year)))
  {
    var items := ToItems(records, year);
    var t := SortByStart(items);
    assert Ascending(t) by {
      SortByStartOrder(items);
    }
    forall x | x in t ensures x in items {
      assert x in multiset(t);
    }
    forall x, y | x in t && y in t
      ensures Header(x) == Header(y) <==> Day(x.booking) == Day(y.booking)
    {
      ItemsHeaderDay(records, year, x, y);
    }
    AscendingContiguous(t);
  }

  /** Ordered by start, items whose header is their day come grouped by header. */
  lemma AscendingContiguous(t: seq<Item>)
    requires Ascending(t)
    requires forall x, y :: x in t && y in t ==> (Header(x) == Header(y) <==> Day(x.booking) == Day(y.booking))
    ensures Contiguous(t)
  {
    forall i, j, k | 0 <= i < j < k < |t| && Header(t[i]) == Header(t[k])
      ensures Header(t[j]) == Header(t[k])
    {
      assert t[i] in t && t[j] in t && t[k] in t;
      DayMonotone(t[i].booking, t[j].booking);
      DayMonotone(t[j].booking, t[k].booking);
    }
  }

  /** When every entry is in range, `/list` shows the items exactly in sorted order:
      by start, and by store position among equal starts. */
  lemma ListInOrder(records: seq<Record>, year: int)
    requires AllInRange(records, year)
    ensures AllParse(records)
    ensures Displayed(records, year) == SortByStart(ToItems(records, year))
    ensures Chronological(Displayed(records, year))
  {
    var items := ToItems(records, year);
    SortedInRangeContiguous(records, year);
    ContiguousGrouping(SortByStart(items));
    assert IncreasingIndex(items);
    SortByStartOrder(items);
  }

  // ---------------------------------------------------------------- carried dates

  /** The keys of three items, the first and last under one header. */
  lemma SplitHeaderKeys(i1: Item, i2: Item, i3: Item)
    requires Header(i1) == Header(i3) != Header(i2)
    ensures Headers([i1, i2, i3]) == [Header(i1), Header(i2)]
  {
    var items := [i1, i2, i3];
    assert items[..2] == [i1, i2] && items[..2][..1] == [i1];
    assert Headers([i1]) == [Header(i1)] by { assert [i1][..0] == []; }
  }

  /** The groups of three items, the first and last under one header. */
  lemma SplitHeaderGroups(i1: Item, i2: Item, i3: Item)
    requires Header(i1) == Header(i3) != Header(i2)
    ensures WithHeader([i1, i2, i3], Header(i1)) == [i1, i3]
    ensures WithHeader([i1, i2, i3], Header(i2)) == [i2]
  {
    var items := [i1, i2, i3];
    var h1, h2 := Header(i1), Header(i2);
    assert items[..2] == [i1, i2] && items[..2][..1] == [i1] && [i1][..0] == [];
    assert WithHeader([i1], h1) == [i1] && WithHeader([i1], h2) == [];
    assert WithHeader([i1, i2], h1) == [i1] && WithHeader([i1, i2], h2) == [i2];
  }

  /** Three items, the first and last under one header and the middle one under
      another, are shown first, last, middle. */
  lemma SplitHeaderGrouping(i1: Item, i2: Item, i3: Item)
    requires Header(i1) == Header(i3) != Header(i2)
    ensures Flatten(Grouping([i1, i2, i3])) == [i1, i3, i2]
  {
    SplitHeaderKeys(i1, i2, i3);
    SplitHeaderGroups(i1, i2, i3);
    var gs := Grouping([i1, i2, i3]);
    assert gs == [Group(Header(i1), [i1, i3]), Group(Header(i2), [i2])];
    assert Flatten(gs) == [i1, i3] + Flatten(gs[1..]);
    assert Flatten(gs[1..]) == [i2] + Flatten([]);
  }

  /** The `/book` pieces of three entries of one conversation, the first and last on
      the carried date `31/4`, which falls on 1 May. */
  const CarriedArgs: seq<Args> := [
    Args("31", '/', "4", " ", Clock("9", "00"), Clock("10", "00")),
    Args("1", '/', "5", " ", Clock("10", "00"), Clock("11", "00")),
    Args("31", '/', "4", " ", Clock("11", "00"), Clock("12", "00"))]

  /** The stored records `31/4 9:00-10:00`, `1/5 10:00-11:00` and `31/4 11:00-12:00`. */
  const CarriedRecords: seq<Record> := [
    Record(Spell(Normalised(CarriedArgs[0])), "", ""),
    Record(Spell(Normalised(CarriedArgs[1])), "", ""),
    Record(Spell(Normalised(CarriedArgs[2])), "", "")]

  /** The minute of the day a clock names, when it needs no carrying. */
  function ClockMinutes(c: Clock): int
    requires ClockWellFormed(c)
  {
    DigitsValue(c.hour) * 60 + DigitsValue(c.minute)
  }

  /** Instants of one day name its week day. */
  lemma WeekDayOfDay(t: int, day: int, offset: int)
    requires 0 <= offset < Calendar.MinutesPerDay && t == day * Calendar.MinutesPerDay + offset
    ensures Calendar.WeekDay(t) == Calendar.WeekDay(day * Calendar.MinutesPerDay)
  {
    Calendar.DayOfMinutes(day, offset);
    Calendar.DayOfMinutes(day, 0);
    Calendar.SameDaySameWeekDay(t, day * Calendar.MinutesPerDay);
  }

  /** A carried day, never 1, displays differently from the first of the next month. */
  lemma CarriedDisplayDiffers(d: nat, m: nat)
    requires d != 1
    ensures NatToString(d) + "/" + NatToString(m + 1) != NatToString(1) + "/" + NatToString(m + 2)
  {
    if NatToString(d) + "/" + NatToString(m + 1) == NatToString(1) + "/" + NatToString(m + 2) {
      DisplayInjective(d, m + 1, 1, m + 2);
    }
  }

  /** How `parseBooking` reads an entry on a day one past the end of month m + 1: on
      day `day` of the calendar, under the display of the typed numbers. */
  lemma CarriedParse(a: Args, year: int, m: nat, day: int) returns (p: Parsed)
    requires WellFormed(a) && m < 11 && ClockMinutes(a.start) < Calendar.MinutesPerDay
    requires DigitsValue(a.month) == m + 1
    requires DigitsValue(a.day) == Calendar.DaysInMonth(Calendar.FullYear(year), m) + 1
    requires day == Calendar.MakeDay(Calendar.FullYear(year), m + 1, 1)
    ensures ParseBooking(Spell(Normalised(a)), year) == Some(p)
    ensures p.start == day * Calendar.MinutesPerDay + ClockMinutes(a.start)
    ensures p.dayName == Calendar.DayNames[Calendar.WeekDay(day * Calendar.MinutesPerDay)]
    ensures p.dateDisplay == NatToString(DigitsValue(a.day)) + "/" + NatToString(m + 1)
    ensures p.dateDisplay != NatToString(1) + "/" + NatToString(m + 2)
  {
    ParseEntry(a, year);
    p := ParseBooking(Spell(Normalised(a)), year).value;
    assert p.start == day * Calendar.MinutesPerDay + ClockMinutes(a.start) by {
      var y := Calendar.FullYear(year);
      Calendar.DayAfterMonthEnd(y, m);
      assert Calendar.MakeDay(y, m, DigitsValue(a.day)) == day;
    }
    assert p.dayName == Calendar.DayNames[Calendar.WeekDay(p.start)];
    WeekDayOfDay(p.start, day, ClockMinutes(a.start));
    CarriedDisplayDiffers(DigitsValue(a.day), m);
  }

  /** How `parseBooking` reads an entry on the first of month m + 2. */
  lemma FirstParse(a: Args, year: int, m: nat, day: int) returns (p: Parsed)
    requires WellFormed(a) && ClockMinutes(a.start) < Calendar.MinutesPerDay
    requires DigitsValue(a.month) == m + 2 && DigitsValue(a.day) == 1
    requires day == Calendar.MakeDay(Calendar.FullYear(year), m + 1, 1)
    ensures ParseBooking(Spell(Normalised(a)), year) == Some(p)
    ensures p.start == day * Calendar.MinutesPerDay + ClockMinutes(a.start)
    ensures p.dayName == Calendar.DayNames[Calendar.WeekDay(day * Calendar.MinutesPerDay)]
    ensures p.dateDisplay == NatToString(1) + "/" + NatToString(m + 2)
  {
    ParseEntry(a, year);
    p := ParseBooking(Spell(Normalised(a)), year).value;
    assert p.dayName == Calendar.DayNames[Calendar.WeekDay(p.start)];
    WeekDayOfDay(p.start, day, ClockMinutes(a.start));
  }

  lemma ThreeElements(t: seq<Item>)
    requires |t| == 3
    ensures t == [t[0], t[1], t[2]]
  {
  }

  /** The items of three records that parse as p1, p2 and p3. */
  lemma ThreeItems(records: seq<Record>, year: int, p1: Parsed, p2: Parsed, p3: Parsed)
    requires |records| == 3
    requires ParseBooking(records[0].booking, year) == Some(p1)
    requires ParseBooking(records[1].booking, year) == Some(p2)
    requires ParseBooking(records[2].booking, year) == Some(p3)
    ensures AllParse(records)
    ensures ToItems(records, year)
         == [Item(p1, records[0].bookerJid, 1), Item(p2, records[1].bookerJid, 2), Item(p3, records[2].bookerJid, 3)]
  {
    forall i | 0 <= i < |records|
      ensures ParseFields(records[i].booking).Some?
    {
      assert ParseBooking(records[i].booking, year).Some? by {
        assert i == 0 || i == 1 || i == 2;
      }
    }
    var t := ToItems(records, year);
    ThreeElements(t);
    assert t[0] == Item(p1, records[0].bookerJid, 1);
    assert t[1] == Item(p2, records[1].bookerJid, 2);
    assert t[2] == Item(p3, records[2].bookerJid, 3);
  }

  /** Three items numbered in store order whose starts ascend are already sorted. */
  lemma ThreeSorted(i1: Item, i2: Item, i3: Item)
    requires i1.index == 1 && i2.index == 2 && i3.index == 3
    requires i1.booking.start < i2.booking.start < i3.booking.start
    ensures SortByStart([i1, i2, i3]) == [i1, i2, i3]
  {
    var items := [i1, i2, i3];
    assert Chronological(items) && IncreasingIndex(items);
    SortIsTheStableSort(items, items);
  }

  /** Items of one week day whose dates display differently have different headers. */
  lemma HeadersDiffer(x: Item, y: Item)
    requires x.booking.dayName == y.booking.dayName && x.booking.dateDisplay != y.booking.dateDisplay
    ensures Header(x) != Header(y)
  {
    assert Header(x)[|x.booking.dayName| + 1..] == x.booking.dateDisplay;
    assert Header(y)[|y.booking.dayName| + 1..] == y.booking.dateDisplay;
  }


  /** Without range checks `/list` can show items out of start order. A day one past
      the end of month m + 1 (such as `31/4`) falls on the first of the next month but
      keeps its own header, so when an entry on that first (`1/5`) starts between two
      entries on the carried date, the later carried entry (ID 3) is shown before it
      (ID 2). */
  lemma CarriedDateOutOfOrder(records: seq<Record>, a1: Args, a2: Args, a3: Args, year: int, m: nat)
    requires |records| == 3 && m < 11
    requires records[0].booking == Spell(Normalised(a1))
    requires records[1].booking == Spell(Normalised(a2))
    requires records[2].booking == Spell(Normalised(a3))
    requires WellFormed(a1) && WellFormed(a2) && WellFormed(a3)
    requires DigitsValue(a1.month) == DigitsValue(a3.month) == m + 1 && DigitsValue(a2.month) == m + 2
    requires DigitsValue(a1.day) == DigitsValue(a3.day) == Calendar.DaysInMonth(Calendar.FullYear(year), m) + 1
    requires DigitsValue(a2.day) == 1
    requires ClockMinutes(a1.start) < ClockMinutes(a2.start) < ClockMinutes(a3.start) < Calendar.MinutesPerDay
    ensures AllParse(records)
    ensures var d := Displayed(records, year);
      && |d| == 3 && d[0].index == 1 && d[1].index == 3 && d[2].index == 2
      && d[1].booking.start > d[2].booking.start
  {
    var day := Calendar.MakeDay(Calendar.FullYear(year), m + 1, 1);
    var p1 := CarriedParse(a1, year, m, day);
    var p2 := FirstParse(a2, year, m, day);
    var p3 := CarriedParse(a3, year, m, day);
    ThreeItems(records, year, p1, p2, p3);
    var i1, i2, i3 := Item(p1, records[0].bookerJid, 1), Item(p2, records[1].bookerJid, 2), Item(p3, records[2].bookerJid, 3);
    ThreeSorted(i1, i2, i3);
    HeadersDiffer(i1, i2);
    assert Header(i1) == Header(i3);
    SplitHeaderGrouping(i1, i2, i3);
  }

  /** The pieces of the carried records are well formed. */
  lemma CarriedWellFormed()
    ensures WellFormed(CarriedArgs[0]) && WellFormed(CarriedArgs[1]) && WellFormed(CarriedArgs[2])
  {
    assert WellFormed(CarriedArgs[0]);
    assert WellFormed(CarriedArgs[1]);
  }

  /** The carried records are on 31/4, 1/5 and 31/4, from 9:00, 10:00 and 11:00. */
  lemma CarriedValues()
    requires WellFormed(CarriedArgs[0]) && WellFormed(CarriedArgs[1]) && WellFormed(CarriedArgs[2])
    ensures DigitsValue(CarriedArgs[0].day) == DigitsValue(CarriedArgs[2].day) == 31
    ensures DigitsValue(CarriedArgs[0].month) == DigitsValue(CarriedArgs[2].month) == 4
    ensures DigitsValue(CarriedArgs[1].day) == 1 && DigitsValue(CarriedArgs[1].month) == 5
    ensures ClockMinutes(CarriedArgs[0].start) == 540
    ensures ClockMinutes(CarriedArgs[1].start) == 600
    ensures ClockMinutes(CarriedArgs[2].start) == 660
  {
    assert DigitsValue("31") == 31 && DigitsValue("4") == 4 && DigitsValue("1") == 1 && DigitsValue("5") == 5;
    assert DigitsValue("9") == 9 && DigitsValue("10") == 10 && DigitsValue("11") == 11 && DigitsValue("00") == 0;
  }

  /** The three stored records `31/4 9:00-10:00`, `1/5 10:00-11:00` and
      `31/4 11:00-12:00` are listed as 9:00, 11:00, 10:00. */
  lemma CarriedExample(year: int)
    ensures AllParse(CarriedRecords)
    ensures var d := Displayed(CarriedRecords, year);
      && |d| == 3 && d[0].index == 1 && d[1].index == 3 && d[2].index == 2
      && d[1].booking.start > d[2].booking.start
  {
    var a := CarriedArgs;
    CarriedWellFormed();
    CarriedValues();
    assert Calendar.DaysInMonth(Calendar.FullYear(year), 3) == 30;
    CarriedDateOutOfOrder(CarriedRecords, a[0], a[1], a[2], year, 3);
  }
}
