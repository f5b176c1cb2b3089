/**
 * The grocery list: items with an expiry date, the case-insensitive search of the
 * "your items" page (each hit tagged with its true index), the three-band expiry
 * classification, and the filter behind "clear expired".
 *
 * The number of days left before an expiry date depends on the wall clock; it is a
 * parameter `daysLeft` here, one day count per expiry string. A day count is a whole
 * number, or NaN when the expiry text is not a date the `Date` constructor can read.
 */
module Groceries {
  import opened Text
  import opened Seqs

  /** One grocery item as stored: `{ name, expiry }`. */
  datatype Item = Item(name: string, expiry: string)

  /** A search hit: the item with its index in the full, unfiltered list. */
  datatype Tagged = Tagged(item: Item, idx: int)

  /** `groceries.map((g, idx) => ({ ...g, idx }))`. */
  function Tag(gs: seq<Item>): seq<Tagged> {
    seq(|gs|, k requires 0 <= k < |gs| => Tagged(gs[k], k))
  }

  /** The term typed in the search box, as the filter uses it. */
  function SearchTerm(input: string): string {
    ToLower(Trim(input))
  }

  function NameMatches(term: string): Tagged -> bool {
    (t: Tagged) => Contains(ToLower(t.item.name), term)
  }

  /** The rows the "your items" page shows for the text in the search box. */
  function Search(gs: seq<Item>, input: string): seq<Tagged> {
    Filter(NameMatches(SearchTerm(input)), Tag(gs))
  }

  /**
   * A row is shown exactly when it carries a true index into the list, the item at that
   * index, and that item's lower-cased name contains the term.
   */
  lemma SearchMembers(gs: seq<Item>, input: string, t: Tagged)
    ensures t in Search(gs, input) <==>
      0 <= t.idx < |gs| && t.item == gs[t.idx] && Contains(ToLower(gs[t.idx].name), SearchTerm(input))
  {
    FilterMember(NameMatches(SearchTerm(input)), Tag(gs), t);
    if 0 <= t.idx < |gs| && t.item == gs[t.idx] {
      assert Tag(gs)[t.idx] == t;
    }
  }

  /** Rows appear in the order of the list: their true indices strictly increase. */
  lemma SearchOrdered(gs: seq<Item>, input: string)
    ensures forall i, j :: 0 <= i < j < |Search(gs, input)| ==> Search(gs, input)[i].idx < Search(gs, input)[j].idx
  {
    var key := (t: Tagged) => t.idx;
    FilterIncreasing(NameMatches(SearchTerm(input)), key, Tag(gs));
  }

  /** An empty or all-whitespace search shows every item, each at its own index. */
  lemma SearchBlank(gs: seq<Item>, input: string)
    requires forall k :: 0 <= k < |input| ==> IsSpace(input[k])
    ensures Search(gs, input) == Tag(gs)
    ensures forall k :: 0 <= k < |gs| ==> Search(gs, input)[k] == Tagged(gs[k], k)
  {
    TrimEmptyIff(input);
    forall t | t in Tag(gs)
      ensures NameMatches(SearchTerm(input))(t)
    {
      ContainsEmpty(ToLower(t.item.name));
    }
    FilterAll(NameMatches(SearchTerm(input)), Tag(gs));
  }

  /** After an item is appended, the unfiltered list shows one more row, at the end. */
  lemma SearchAfterAppend(gs: seq<Item>, g: Item)
    ensures Search(gs + [g], "") == Search(gs, "") + [Tagged(g, |gs|)]
  {
    SearchBlank(gs + [g], "");
    SearchBlank(gs, "");
  }

  /**
   * The delete button of a row removes the item the row shows, even when the list is
   * filtered: the true index is used, so exactly that one item leaves the list.
   */
  lemma DeleteSearchHit(gs: seq<Item>, input: string, t: Tagged)
    requires t in Search(gs, input)
    ensures 0 <= t.idx < |gs| && gs[t.idx] == t.item
    ensures RemoveAt(gs, t.idx) == gs[..t.idx] + gs[t.idx + 1..]
    ensures multiset(RemoveAt(gs, t.idx)) + multiset{t.item} == multiset(gs)
  {
    SearchMembers(gs, input, t);
    RemoveAtInRange(gs, t.idx);
  }

  /** An item the add form could have stored: a trimmed, non-empty name and some expiry text. */
  predicate ValidItem(g: Item) {
    g.name != [] && NoEdgeSpace(g.name) && g.expiry != []
  }

  /** The colour band of an item on the "your items" page. */
  datatype Urgency = Expired | Soon | Normal {
    /** The CSS class name the page gives the band. */
    function Name(): string {
      match this
      case Expired => "expired"
      case Soon => "soon"
      case Normal => "normal"
    }
  }

  /** What `daysLeft` returns: `Math.ceil` of a day difference, or NaN for an unreadable date. */
  datatype DayCount = Days(n: int) | NotANumber

  /**
   * Past expiry, within three days of it, or further away. Every comparison with NaN is
   * false, so an unreadable date falls through both tests to the normal band.
   */
  function Classify(days: DayCount): (u: Urgency)
    ensures u == Expired <==> days.Days? && days.n < 0
    ensures u == Soon <==> days.Days? && 0 <= days.n <= 3
    ensures u == Normal <==> days.NotANumber? || days.n > 3
  {
    match days
    case NotANumber => Normal
    case Days(n) => if n < 0 then Expired else if n <= 3 then Soon else Normal
  }

  function Rank(u: Urgency): nat {
    match u
    case Expired => 0
    case Soon => 1
    case Normal => 2
  }

  /** More days left never gives a more urgent band, and the bands have distinct names. */
  lemma ClassifyMonotone(d1: int, d2: int)
    requires d1 <= d2
    ensures Rank(Classify(Days(d1))) <= Rank(Classify(Days(d2)))
    ensures Classify(Days(d1)) != Classify(Days(d2)) ==> Classify(Days(d1)).Name() != Classify(Days(d2)).Name()
  {
  }

  /** `daysLeft(g.expiry) >= 0`, which NaN fails. */
  function Fresh(daysLeft: string -> DayCount): Item -> bool {
    (g: Item) => daysLeft(g.expiry).Days? && daysLeft(g.expiry).n >= 0
  }

  function Stale(daysLeft: string -> DayCount): Item -> bool {
    (g: Item) => !(daysLeft(g.expiry).Days? && daysLeft(g.expiry).n >= 0)
  }

  /** `groceries.filter(g => daysLeft(g.expiry) >= 0)`. */
  function Unexpired(gs: seq<Item>, daysLeft: string -> DayCount): seq<Item> {
    Filter(Fresh(daysLeft), gs)
  }

  /** The items "clear expired" takes away. */
  function ExpiredItems(gs: seq<Item>, daysLeft: string -> DayCount): seq<Item> {
    Filter(Stale(daysLeft), gs)
  }

  /** An item is kept exactly when it was in the list and has not expired. */
  lemma UnexpiredMembers(gs: seq<Item>, daysLeft: string -> DayCount, g: Item)
    ensures g in Unexpired(gs, daysLeft) <==> g in gs && daysLeft(g.expiry).Days? && daysLeft(g.expiry).n >= 0
  {
    FilterMember(Fresh(daysLeft), gs, g);
  }

  /** Clearing works piecewise, so the kept items stay in their original order. */
  lemma UnexpiredConcat(a: seq<Item>, b: seq<Item>, daysLeft: string -> DayCount)
    ensures Unexpired(a + b, daysLeft) == Unexpired(a, daysLeft) + Unexpired(b, daysLeft)
  {
    FilterConcat(Fresh(daysLeft), a, b);
  }

  /**
   * The count reported, `before - groceries.length`, is the number of expired items,
   * and the removed and kept items together are the old list.
   */
  lemma RemovedCount(gs: seq<Item>, daysLeft: string -> DayCount)
    ensures |gs| - |Unexpired(gs, daysLeft)| == |ExpiredItems(gs, daysLeft)|
    ensures multiset(Unexpired(gs, daysLeft)) + multiset(ExpiredItems(gs, daysLeft)) == multiset(gs)
  {
    FilterPartition(Fresh(daysLeft), Stale(daysLeft), gs);
  }

  /** Clearing twice with the same day counts removes nothing more. */
  lemma UnexpiredIdempotent(gs: seq<Item>, daysLeft: string -> DayCount)
    ensures Unexpired(Unexpired(gs, daysLeft), daysLeft) == Unexpired(gs, daysLeft)
  {
    FilterIdempotent(Fresh(daysLeft), gs);
  }

  /** After clearing, no row is shown in the "expired" band, and none with an unreadable date. */
  lemma UnexpiredNoneExpired(gs: seq<Item>, daysLeft: string -> DayCount)
    ensures forall k :: 0 <= k < |Unexpired(gs, daysLeft)| ==>
      Classify(daysLeft(Unexpired(gs, daysLeft)[k].expiry)) != Expired &&
      daysLeft(Unexpired(gs, daysLeft)[k].expiry) != NotANumber
  {
  }

  /** An egg due tomorrow is kept and a loaf two days past is removed: one item reported. */
  lemma ClearScenario(egg: Item, bread: Item, daysLeft: string -> DayCount)
    requires daysLeft(egg.expiry) == Days(1) && daysLeft(bread.expiry) == Days(-2)
    ensures Unexpired([egg, bread], daysLeft) == [egg]
    ensures |[egg, bread]| - |Unexpired([egg, bread], daysLeft)| == 1
  {
    var keep := Fresh(daysLeft);
    assert [bread][1..] == [];
    assert Filter(keep, [bread]) == [];
    assert [egg, bread][1..] == [bread];
    assert Filter(keep, [egg, bread]) == [egg] + Filter(keep, [bread]);
  }

  /**
   * An item whose expiry text is not a date is shown in the normal band, yet "clear
   * expired" removes it and counts it among the expired items.
   */
  lemma UnreadableDateCleared(gs: seq<Item>, daysLeft: string -> DayCount, g: Item)
    requires g in gs && daysLeft(g.expiry) == NotANumber
    ensures Classify(daysLeft(g.expiry)) == Normal
    ensures g !in Unexpired(gs, daysLeft)
    ensures g in ExpiredItems(gs, daysLeft)
  {
    UnexpiredMembers(gs, daysLeft, g);
    FilterMember(Stale(daysLeft), gs, g);
  }
}
