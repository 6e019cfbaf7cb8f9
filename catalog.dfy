/**
 * The endpoint catalog of the explorer page (rest-api-v1-main/api-page/script.js):
 * each category's items are sorted in place by name, rendered as cards whose
 * class marks the last card of a row, and filtered by the live search box.
 */
module Catalog {
  import opened Wrappers
  import opened JsText

  /** One endpoint of the settings file. */
  datatype Item = Item(name: string, desc: string, path: string, innerDesc: Option<string>)

  /** A rendered `.api-item` card with the data its attributes and GET button carry. */
  datatype Card = Card(name: string, desc: string, cls: string, apiPath: string)

  /** A category of the settings file; `items` is the array the page sorts in place. */
  class Category {
    const name: string
    const items: array<Item>

    constructor(name: string, items: array<Item>)
      ensures this.name == name && this.items == items
    {
      this.name := name;
      this.items := items;
    }
  }

  // ---------------------------------------------------------------------------
  // The name order

  /** Swapping the arguments flips the sign of the comparison. */
  predicate Flips(cmp: (string, string) -> int, a: string, b: string) {
    cmp(a, b) < 0 <==> cmp(b, a) > 0
  }

  /** "Not after" is transitive through `b`. */
  predicate Chains(cmp: (string, string) -> int, a: string, b: string, c: string) {
    cmp(a, b) <= 0 && cmp(b, c) <= 0 ==> cmp(a, c) <= 0
  }

  /** What `localeCompare` guarantees and the sort relies on. */
  ghost predicate ComparatorLaws(cmp: (string, string) -> int) {
    (forall a, b :: Flips(cmp, a, b)) && (forall a, b, c :: Chains(cmp, a, b, c))
  }

  predicate SortedByName(s: seq<Item>, cmp: (string, string) -> int) {
    forall i, j :: 0 <= i < j < |s| ==> cmp(s[i].name, s[j].name) <= 0
  }

  /** Insert `x` after every item that does not sort after it. */
  function Insert(t: seq<Item>, x: Item, cmp: (string, string) -> int): seq<Item> {
    if t == [] then [x]
    else if cmp(x.name, t[0].name) < 0 then [x] + t
    else [t[0]] + Insert(t[1..], x, cmp)
  }

  /**
   * The order a stable sort by `cmp` leaves: the items inserted one by one,
   * each after the equal ones before it.
   */
  function SortByName(s: seq<Item>, cmp: (string, string) -> int): seq<Item> {
    if s == [] then [] else Insert(SortByName(s[..|s| - 1], cmp), s[|s| - 1], cmp)
  }

  lemma {:induction false} InsertPermutes(t: seq<Item>, x: Item, cmp: (string, string) -> int)
    ensures multiset(Insert(t, x, cmp)) == multiset(t) + multiset{x}
  {
    if t != [] && cmp(x.name, t[0].name) >= 0 {
      InsertPermutes(t[1..], x, cmp);
      assert t == [t[0]] + t[1..];
    }
  }

  lemma ConsSorted(y: Item, r: seq<Item>, cmp: (string, string) -> int)
    requires SortedByName(r, cmp)
    requires forall k :: 0 <= k < |r| ==> cmp(y.name, r[k].name) <= 0
    ensures SortedByName([y] + r, cmp)
  {
    var s := [y] + r;
    forall i, j | 0 <= i < j < |s| ensures cmp(s[i].name, s[j].name) <= 0 {
      if i > 0 {
        assert s[i] == r[i - 1] && s[j] == r[j - 1];
      } else {
        assert s[j] == r[j - 1];
      }
    }
  }

  /** An item not after `x` and not after any item of `t` is not after anything in `Insert(t, x)`. */
  lemma {:induction false} InsertBound(t: seq<Item>, x: Item, y: string, cmp: (string, string) -> int)
    requires cmp(y, x.name) <= 0
    requires forall k :: 0 <= k < |t| ==> cmp(y, t[k].name) <= 0
    ensures forall k :: 0 <= k < |Insert(t, x, cmp)| ==> cmp(y, Insert(t, x, cmp)[k].name) <= 0
  {
    if t != [] && cmp(x.name, t[0].name) >= 0 {
      InsertBound(t[1..], x, y, cmp);
    }
  }

  lemma {:induction false} InsertSorted(t: seq<Item>, x: Item, cmp: (string, string) -> int)
    requires ComparatorLaws(cmp) && SortedByName(t, cmp)
    ensures SortedByName(Insert(t, x, cmp), cmp)
  {
    if t == [] {
    } else if cmp(x.name, t[0].name) >= 0 {
      assert SortedByName(t[1..], cmp);
      InsertSorted(t[1..], x, cmp);
      assert Flips(cmp, x.name, t[0].name);
      InsertBound(t[1..], x, t[0].name, cmp);
      ConsSorted(t[0], Insert(t[1..], x, cmp), cmp);
    } else {
      forall k | 0 <= k < |t| ensures cmp(x.name, t[k].name) <= 0 {
        assert Chains(cmp, x.name, t[0].name, t[k].name);
      }
      ConsSorted(x, t, cmp);
    }
  }

  /** The sort keeps every item and orders them by name. */
  lemma {:induction false} SortByNameFacts(s: seq<Item>, cmp: (string, string) -> int)
    requires ComparatorLaws(cmp)
    ensures SortedByName(SortByName(s, cmp), cmp)
    ensures multiset(SortByName(s, cmp)) == multiset(s)
  {
    if s != [] {
      var init := s[..|s| - 1];
      SortByNameFacts(init, cmp);
      InsertSorted(SortByName(init, cmp), s[|s| - 1], cmp);
      InsertPermutes(SortByName(init, cmp), s[|s| - 1], cmp);
      assert s == init + [s[|s| - 1]];
    }
  }

  /** Inserting into a sorted list lands exactly where the items that sort after `x` begin. */
  lemma {:induction false} InsertAt(t: seq<Item>, x: Item, j: nat, cmp: (string, string) -> int)
    requires j <= |t|
    requires forall k :: 0 <= k < j ==> cmp(x.name, t[k].name) >= 0
    requires forall k :: j <= k < |t| ==> cmp(x.name, t[k].name) < 0
    ensures Insert(t, x, cmp) == t[..j] + [x] + t[j..]
  {
    if t != [] && j > 0 {
      InsertAt(t[1..], x, j - 1, cmp);
      assert t[..j] == [t[0]] + t[1..][..j - 1];
      assert t[j..] == t[1..][j - 1..];
    }
  }

  /** `x` placed at position `j` of `t`. */
  function Splice(t: seq<Item>, x: Item, j: nat): seq<Item>
    requires j <= |t|
  {
    t[..j] + [x] + t[j..]
  }

  /**
   * `j` is where an insertion that scans from the back stops: behind an item
   * `x` does not sort before (or at the front), with only items that sort
   * after `x` from `j` on.
   */
  predicate StopsAt(t: seq<Item>, x: Item, j: nat, cmp: (string, string) -> int) {
    j <= |t| && (j == 0 || cmp(x.name, t[j - 1].name) >= 0) &&
    forall k :: j <= k < |t| ==> cmp(x.name, t[k].name) < 0
  }

  /** In a sorted list, the place where the backward scan stops is where `Insert` puts `x`. */
  lemma InsertStep(t: seq<Item>, x: Item, j: nat, cmp: (string, string) -> int)
    requires ComparatorLaws(cmp) && SortedByName(t, cmp) && StopsAt(t, x, j, cmp)
    ensures Insert(t, x, cmp) == Splice(t, x, j)
  {
    forall k | 0 <= k < j - 1 ensures cmp(x.name, t[k].name) >= 0 {
      assert cmp(t[k].name, t[j - 1].name) <= 0;
      assert Flips(cmp, x.name, t[j - 1].name) && Flips(cmp, x.name, t[k].name);
      assert Chains(cmp, t[k].name, t[j - 1].name, x.name);
    }
    InsertAt(t, x, j, cmp);
  }

  /** Sorting one more item splices it in where the backward scan over the sorted rest stops. */
  lemma SortStep(s: seq<Item>, j: nat, cmp: (string, string) -> int)
    requires ComparatorLaws(cmp) && s != []
    requires StopsAt(SortByName(s[..|s| - 1], cmp), s[|s| - 1], j, cmp)
    ensures SortByName(s, cmp) == Splice(SortByName(s[..|s| - 1], cmp), s[|s| - 1], j)
  {
    SortByNameFacts(s[..|s| - 1], cmp);
    InsertStep(SortByName(s[..|s| - 1], cmp), s[|s| - 1], j, cmp);
  }

  /**
   * The inner loop of the insertion: shift up by one the items before `a[i]`
   * that sort after it, stopping behind an item it does not sort before (or at
   * the front), and return the position left free.
   */
  method ShiftUp(a: array<Item>, i: nat, cmp: (string, string) -> int) returns (j: nat)
    requires i < a.Length
    modifies a
    ensures j <= i
    ensures forall k :: 0 <= k < j ==> a[k] == old(a[k])
    ensures forall k :: j < k <= i ==> a[k] == old(a[k - 1])
    ensures forall k :: i < k < a.Length ==> a[k] == old(a[k])
    ensures j == 0 || cmp(old(a[i]).name, old(a[j - 1]).name) >= 0
    ensures forall k :: j <= k < i ==> cmp(old(a[i]).name, old(a[k]).name) < 0
  {
    var x := a[i];
    j := i;
    while j > 0 && cmp(x.name, a[j - 1].name) < 0
      invariant 0 <= j <= i
      invariant forall k :: 0 <= k < j ==> a[k] == old(a[k])
      invariant forall k :: j < k <= i ==> a[k] == old(a[k - 1])
      invariant forall k :: i < k < a.Length ==> a[k] == old(a[k])
      invariant forall k :: j <= k < i ==> cmp(x.name, old(a[k]).name) < 0
    {
      a[j] := a[j - 1];
      j := j - 1;
    }
  }

  /**
   * One insertion step: `a[i]` moves down past the items before it that sort
   * after it, and the prefix `a[..i + 1]` becomes `a[i]` spliced in where the
   * backward scan stopped.
   */
  method InsertLast(a: array<Item>, i: nat, cmp: (string, string) -> int) returns (j: nat)
    requires i < a.Length
    modifies a
    ensures StopsAt(old(a[..i]), old(a[i]), j, cmp)
    ensures a[..i + 1] == Splice(old(a[..i]), old(a[i]), j)
    ensures a[i + 1..] == old(a[i + 1..])
  {
    ghost var t := a[..i];
    ghost var rest := a[i + 1..];
    var x := a[i];
    j := ShiftUp(a, i, cmp);
    a[j] := x;
    ghost var spliced := Splice(t, x, j);
    forall k | 0 <= k <= i ensures a[k] == spliced[k] {
      if k < j {
        assert spliced[k] == t[k];
      } else if j < k {
        assert spliced[k] == t[k - 1];
      }
    }
    assert a[..i + 1] == spliced;
    assert a[i + 1..] == rest;
  }

  /**
   * `category.items.sort((a, b) => a.name.localeCompare(b.name))`: an in-place
   * insertion sort, which is stable as the sort of ECMA-262 is.
   */
  method SortItems(a: array<Item>, cmp: (string, string) -> int)
    requires ComparatorLaws(cmp)
    modifies a
    ensures a[..] == SortByName(old(a[..]), cmp)
  {
    ghost var orig := a[..];
    var i := 0;
    while i < a.Length
      invariant 0 <= i <= a.Length
      invariant a[..i] == SortByName(orig[..i], cmp)
      invariant a[i..] == orig[i..]
    {
      assert orig[..i + 1][..i] == orig[..i];
      var j := InsertLast(a, i, cmp);
      SortStep(orig[..i + 1], j, cmp);
      i := i + 1;
    }
    assert a[..] == a[..a.Length] && orig == orig[..a.Length];
  }

  // ---------------------------------------------------------------------------
  // Cards

  /** The class of card `index` of `count`: `mb-4` for the last one, `mb-2` before it. */
  function CardClass(index: nat, count: nat): string {
    "col-md-6 col-lg-4 api-item " + (if index == count - 1 then "mb-4" else "mb-2")
  }

  /** The cards of one category row, in item order. */
  function CategoryCards(items: seq<Item>): (cards: seq<Card>)
    ensures |cards| == |items|
  {
    seq(|items|, i requires 0 <= i < |items| =>
      Card(items[i].name, items[i].desc, CardClass(i, |items|), items[i].path))
  }

  /** Every card of a row is an `api-item`; the last one ends in `mb-4`, every other one in `mb-2`. */
  lemma CardClassSuffix(items: seq<Item>, i: nat)
    requires i < |items|
    ensures var cls := CategoryCards(items)[i].cls;
            |cls| > 4 && "col-md-6 col-lg-4 api-item " <= cls &&
            (cls[|cls| - 4..] == "mb-4" <==> i == |items| - 1) &&
            (cls[|cls| - 4..] == "mb-2" <==> i < |items| - 1)
  {
    var cls := CategoryCards(items)[i].cls;
    if i == |items| - 1 {
      assert cls[|cls| - 4..] == "mb-4";
    } else {
      assert cls[|cls| - 4..] == "mb-2";
    }
  }

  /** A card matches when the lower-cased term occurs in its lower-cased name or description. */
  predicate CardMatches(c: Card, term: string) {
    Includes(Lower(c.name), term) || Includes(Lower(c.desc), term)
  }

  /** The empty search term matches every card. */
  lemma EmptyTermMatches(c: Card)
    ensures CardMatches(c, Lower(""))
  {
    IncludesBounds(Lower(c.name), "");
  }

  /** Whether some card in `shown[lo..hi]` is shown. */
  predicate RowHasShown(shown: seq<bool>, lo: nat, hi: nat)
    requires lo <= hi <= |shown|
  {
    exists i :: lo <= i < hi && shown[i]
  }

  /** The number of shown cards in `shown[lo..hi]`. */
  function CountShown(shown: seq<bool>, lo: nat, hi: nat): nat
    requires lo <= hi <= |shown|
    decreases hi - lo
  {
    if lo == hi then 0 else CountShown(shown, lo, hi - 1) + (if shown[hi - 1] then 1 else 0)
  }

  /** `visibleItems.length` is non-zero exactly when some card of the row is shown. */
  lemma {:induction false} CountShownPositive(shown: seq<bool>, lo: nat, hi: nat)
    requires lo <= hi <= |shown|
    ensures CountShown(shown, lo, hi) > 0 <==> RowHasShown(shown, lo, hi)
    decreases hi - lo
  {
    if lo < hi {
      CountShownPositive(shown, lo, hi - 1);
      if shown[hi - 1] {
        assert lo <= hi - 1 < hi && shown[hi - 1];
      } else if RowHasShown(shown, lo, hi) {
        var i :| lo <= i < hi && shown[i];
        assert i < hi - 1;
      }
    }
  }

  // ---------------------------------------------------------------------------
  // The page

  /** A snapshot of the page's fields. */
  datatype PageState = PageState(headers: seq<string>, cards: seq<Card>, bounds: seq<nat>,
                                 cardShown: seq<bool>, headerShown: seq<bool>)

  /**
   * `b` is `a` with headers and cards appended: everything in `a` is kept as it
   * was, and every appended card and header is shown.
   */
  predicate Grown(a: PageState, b: PageState) {
    a.headers <= b.headers && a.cards <= b.cards && a.bounds <= b.bounds &&
    a.cardShown <= b.cardShown && a.headerShown <= b.headerShown &&
    (forall i :: |a.cardShown| <= i < |b.cardShown| ==> b.cardShown[i]) &&
    (forall h :: |a.headerShown| <= h < |b.headerShown| ==> b.headerShown[h])
  }

  lemma GrownTrans(a: PageState, b: PageState, c: PageState)
    requires Grown(a, b) && Grown(b, c)
    ensures Grown(a, c)
  {
    assert a.cardShown <= c.cardShown && a.headerShown <= c.headerShown;
  }

  /** Growing a page keeps every row whose bounds it already had. */
  lemma GrownKeepsRow(a: PageState, b: PageState, h: nat)
    requires Grown(a, b) && h + 1 < |a.bounds| && a.bounds[h] <= a.bounds[h + 1] <= |a.cards|
    ensures b.bounds[h] == a.bounds[h] && b.bounds[h + 1] == a.bounds[h + 1]
    ensures b.cards[b.bounds[h]..b.bounds[h + 1]] == a.cards[a.bounds[h]..a.bounds[h + 1]]
  {
    assert b.bounds[..|a.bounds|] == a.bounds;
    assert b.cards[..|a.cards|] == a.cards;
  }

  /**
   * The rendered catalog: one header per category followed by its row of cards.
   * Row `h` holds the cards `cards[bounds[h]..bounds[h + 1]]`; `cardShown` and
   * `headerShown` are the `style.display` states (`''` shown, `'none'` hidden).
   */
  class CatalogPage {
    var headers: seq<string>
    var cards: seq<Card>
    var bounds: seq<nat>
    var cardShown: seq<bool>
    var headerShown: seq<bool>

    predicate Valid()
      reads this
    {
      |bounds| == |headers| + 1 && bounds[0] == 0 && bounds[|headers|] == |cards| &&
      (forall g, h :: 0 <= g <= h <= |headers| ==> bounds[g] <= bounds[h]) &&
      |cardShown| == |cards| && |headerShown| == |headers|
    }

    constructor()
      ensures Valid()
      ensures headers == [] && cards == []
    {
      headers := [];
      cards := [];
      bounds := [0];
      cardShown := [];
      headerShown := [];
    }

    function State(): PageState
      reads this
    {
      PageState(headers, cards, bounds, cardShown, headerShown)
    }

    /** The row of cards under header `h`. */
    function Row(h: nat): seq<Card>
      reads this
      requires Valid() && h < |headers|
    {
      cards[bounds[h]..bounds[h + 1]]
    }

    /** Append a header and the row of cards under it, all shown. */
    method AppendRow(name: string, row: seq<Card>)
      requires Valid()
      modifies this
      ensures Valid()
      ensures headers == old(headers) + [name]
      ensures cards == old(cards) + row
      ensures bounds == old(bounds) + [|cards|]
      ensures cardShown == old(cardShown) + seq(|row|, _ => true)
      ensures headerShown == old(headerShown) + [true]
      ensures Row(|headers| - 1) == row
      ensures forall h :: 0 <= h < old(|headers|) ==> Row(h) == old(Row(h))
      ensures Grown(old(State()), State())
    {
      ghost var before := cards;
      headers := headers + [name];
      cards := cards + row;
      bounds := bounds + [|cards|];
      cardShown := cardShown + seq(|row|, _ => true);
      headerShown := headerShown + [true];
      forall h | 0 <= h < |headers| - 1 ensures Row(h) == before[bounds[h]..bounds[h + 1]] {
        assert bounds[h + 1] <= bounds[|headers| - 1] == |before|;
      }
    }

    /** One step of `settings.categories.forEach`: sort the items, append the header and the row. */
    method AddCategory(cat: Category, cmp: (string, string) -> int)
      requires Valid() && ComparatorLaws(cmp)
      modifies this, cat.items
      ensures Valid()
      ensures cat.items[..] == SortByName(old(cat.items[..]), cmp)
      ensures headers == old(headers) + [cat.name]
      ensures cards == old(cards) + CategoryCards(cat.items[..])
      ensures bounds == old(bounds) + [|cards|]
      ensures cardShown == old(cardShown) + seq(|cat.items[..]|, _ => true)
      ensures headerShown == old(headerShown) + [true]
      ensures Row(|headers| - 1) == CategoryCards(cat.items[..])
      ensures forall h :: 0 <= h < old(|headers|) ==> Row(h) == old(Row(h))
      ensures Grown(old(State()), State())
    {
      SortItems(cat.items, cmp);
      AppendRow(cat.name, CategoryCards(cat.items[..]));
    }

    /** `settings.categories.forEach(...)`: render every category in order. */
    method Render(cats: seq<Category>, cmp: (string, string) -> int)
      requires Valid() && ComparatorLaws(cmp)
      requires forall p, q :: 0 <= p < q < |cats| ==> cats[p].items != cats[q].items
      modifies this, set c | c in cats :: c.items
      ensures Valid()
      ensures forall p :: 0 <= p < |cats| ==> cats[p].items[..] == SortByName(old(cats[p].items[..]), cmp)
      ensures |headers| == old(|headers|) + |cats|
      ensures forall p :: 0 <= p < |cats| ==>
                headers[old(|headers|) + p] == cats[p].name && Row(old(|headers|) + p) == CategoryCards(cats[p].items[..])
      ensures Grown(old(State()), State())
      ensures forall h :: 0 <= h < old(|headers|) ==> Row(h) == old(Row(h))
    {
      ghost var h0 := |headers|;
      ghost var s0 := State();
      ghost var orig := seq(|cats|, q requires 0 <= q < |cats| reads set c | c in cats :: c.items => cats[q].items[..]);
      var p := 0;
      while p < |cats|
        invariant 0 <= p <= |cats| && Valid()
        invariant |headers| == h0 + p
        invariant Grown(s0, State())
        invariant forall q :: 0 <= q < p ==> cats[q].items[..] == SortByName(orig[q], cmp)
        invariant forall q :: p <= q < |cats| ==> cats[q].items[..] == orig[q]
        invariant forall q :: 0 <= q < p ==>
                    headers[h0 + q] == cats[q].name && Row(h0 + q) == CategoryCards(cats[q].items[..])
      {
        RenderStep(cats, p, cmp, h0, s0, orig);
        p := p + 1;
      }
      forall h | 0 <= h < h0
        ensures Row(h) == old(Row(h))
      {
        GrownKeepsRow(s0, State(), h);
      }
    }

    /** One turn of the `forEach` in `Render`: category `p` is sorted and appended, the earlier ones kept. */
    method RenderStep(cats: seq<Category>, p: nat, cmp: (string, string) -> int,
                      ghost h0: nat, ghost s0: PageState, ghost orig: seq<seq<Item>>)
      requires Valid() && ComparatorLaws(cmp) && p < |cats| == |orig|
      requires forall p, q :: 0 <= p < q < |cats| ==> cats[p].items != cats[q].items
      requires |headers| == h0 + p && Grown(s0, State())
      requires forall q :: 0 <= q < p ==> cats[q].items[..] == SortByName(orig[q], cmp)
      requires forall q :: p <= q < |cats| ==> cats[q].items[..] == orig[q]
      requires forall q :: 0 <= q < p ==>
                 headers[h0 + q] == cats[q].name && Row(h0 + q) == CategoryCards(cats[q].items[..])
      modifies this, cats[p].items
      ensures Valid() && |headers| == h0 + p + 1 && Grown(s0, State())
      ensures forall q :: 0 <= q < p + 1 ==> cats[q].items[..] == SortByName(orig[q], cmp)
      ensures forall q :: p + 1 <= q < |cats| ==> cats[q].items[..] == orig[q]
      ensures forall q :: 0 <= q < p + 1 ==>
                headers[h0 + q] == cats[q].name && Row(h0 + q) == CategoryCards(cats[q].items[..])
    {
      ghost var s1 := State();
      AddCategory(cats[p], cmp);
      GrownTrans(s0, s1, State());
    }

    /** Show exactly the cards whose name or description includes `term`. */
    method ShowMatchingCards(term: string)
      requires Valid()
      modifies this
      ensures Valid()
      ensures headers == old(headers) && cards == old(cards) && bounds == old(bounds)
      ensures headerShown == old(headerShown)
      ensures forall i :: 0 <= i < |cards| ==> cardShown[i] == CardMatches(cards[i], term)
    {
      var i := 0;
      while i < |cards|
        invariant 0 <= i <= |cards| && Valid()
        invariant headers == old(headers) && cards == old(cards) && bounds == old(bounds)
        invariant headerShown == old(headerShown)
        invariant forall k :: 0 <= k < i ==> cardShown[k] == CardMatches(cards[k], term)
      {
        cardShown := cardShown[i := CardMatches(cards[i], term)];
        i := i + 1;
      }
    }

    /** `visibleItems.length` for row `h`: the number of shown cards under header `h`. */
    method CountVisible(h: nat) returns (count: nat)
      requires Valid() && h < |headers|
      ensures count == CountShown(cardShown, bounds[h], bounds[h + 1])
    {
      var lo, hi := bounds[h], bounds[h + 1];
      count := 0;
      var k := lo;
      while k < hi
        invariant lo <= k <= hi
        invariant count == CountShown(cardShown, lo, k)
      {
        if cardShown[k] {
          count := count + 1;
        }
        k := k + 1;
      }
    }

    /** Show exactly the headers whose row still has a shown card. */
    method ShowNonEmptyRows()
      requires Valid()
      modifies this
      ensures Valid()
      ensures headers == old(headers) && cards == old(cards) && bounds == old(bounds)
      ensures cardShown == old(cardShown)
      ensures forall h :: 0 <= h < |headers| ==> headerShown[h] == RowHasShown(cardShown, bounds[h], bounds[h + 1])
    {
      var h := 0;
      while h < |headers|
        invariant 0 <= h <= |headers| && Valid()
        invariant headers == old(headers) && cards == old(cards) && bounds == old(bounds)
        invariant cardShown == old(cardShown)
        invariant forall g :: 0 <= g < h ==> headerShown[g] == RowHasShown(cardShown, bounds[g], bounds[g + 1])
      {
        var count := CountVisible(h);
        CountShownPositive(cardShown, bounds[h], bounds[h + 1]);
        headerShown := headerShown[h := count > 0];
        h := h + 1;
      }
    }

    /**
     * The search box's `input` handler: show exactly the cards the lower-cased
     * term matches, then show exactly the headers whose row kept a shown card.
     */
    method Search(input: string)
      requires Valid()
      modifies this
      ensures Valid()
      ensures headers == old(headers) && cards == old(cards) && bounds == old(bounds)
      ensures forall i :: 0 <= i < |cards| ==> cardShown[i] == CardMatches(cards[i], Lower(input))
      ensures forall h :: 0 <= h < |headers| ==>
                (headerShown[h] <==> exists i :: bounds[h] <= i < bounds[h + 1] && CardMatches(cards[i], Lower(input)))
    {
      ShowMatchingCards(Lower(input));
      ShowNonEmptyRows();
      forall h | 0 <= h < |headers|
        ensures headerShown[h] <==> exists i :: bounds[h] <= i < bounds[h + 1] && CardMatches(cards[i], Lower(input))
      {
        if exists i :: bounds[h] <= i < bounds[h + 1] && CardMatches(cards[i], Lower(input)) {
          var i :| bounds[h] <= i < bounds[h + 1] && CardMatches(cards[i], Lower(input));
          assert cardShown[i];
        }
      }
    }
  }
}
