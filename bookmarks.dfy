/**
 * The outline the baler adds from `{bookid}_toc.json` (`add_bookmarks`): a
 * walk over the table of contents in document order that adds one outline
 * item for every entry whose page text is a page of the PDF, nested under the
 * outline item its parent entry produced.
 */
module Bookmarks {
  import opened Wrappers
  import opened Decimal
  import PageFiles

  /**
   * `children` as read from JSON: absent reads as the empty list; any other
   * value that is not a list is `NotAList`.
   */
  datatype Kids = NotAList | Items(list: seq<TocItem>)

  /** One table-of-contents entry; `None` means the key is absent. */
  datatype TocItem = TocItem(name: Option<string>, page: Option<string>, children: Kids)

  /** An outline item of the PDF: title, page index, and the position of its parent item in the outline. */
  datatype Outline = Outline(title: string, index: nat, parent: Option<nat>)

  function Title(item: TocItem): string {
    item.name.GetOr("Untitled")
  }

  /**
   * `page_num - start_page` when the page text is a digit string and lands on
   * one of the `numPages` pages of the PDF.
   */
  function Target(pageText: Option<string>, startPage: int, numPages: nat): (r: Option<nat>)
    ensures r.Some? <==>
      IsDigitString(pageText.GetOr("")) && 0 <= Value(pageText.GetOr("")) - startPage < numPages
    ensures r.Some? ==> r.value < numPages && r.value + startPage == Value(pageText.GetOr(""))
  {
    var text := pageText.GetOr("");
    if IsDigitString(text) && 0 <= Value(text) - startPage < numPages then Some(Value(text) - startPage)
    else None
  }

  predicate Descends(item: TocItem) {
    item.children.Items? && |item.children.list| > 0
  }

  /**
   * `add_bookmarks(items, parent)` when `base` outline items exist already:
   * the outline items it adds, in order.
   */
  function PlanItems(items: seq<TocItem>, parent: Option<nat>, base: nat, startPage: int, numPages: nat): seq<Outline>
    decreases items
  {
    if items == [] then []
    else
      var first := PlanItem(items[0], parent, base, startPage, numPages);
      first + PlanItems(items[1..], parent, base + |first|, startPage, numPages)
  }

  /** One pass of the loop body: the entry's own item, if its page is valid, then its children's. */
  function PlanItem(item: TocItem, parent: Option<nat>, base: nat, startPage: int, numPages: nat): seq<Outline>
    decreases item
  {
    var target := Target(item.page, startPage, numPages);
    var own := if target.Some? then [Outline(Title(item), target.value, parent)] else [];
    var newParent := if target.Some? then Some(base) else None;
    own + (if Descends(item) then PlanItems(item.children.list, newParent, base + |own|, startPage, numPages) else [])
  }

  // ---------------------------------------------------------------------------
  // A reference: the entries visited, in document order

  /** The entries `add_bookmarks` visits, parents before their children. */
  function Visited(items: seq<TocItem>): seq<TocItem>
    decreases items
  {
    if items == [] then [] else VisitedFrom(items[0]) + Visited(items[1..])
  }

  function VisitedFrom(item: TocItem): seq<TocItem>
    decreases item
  {
    [item] + (if Descends(item) then Visited(item.children.list) else [])
  }

  /** Title and page index of each visited entry whose page is valid. */
  function Marks(entries: seq<TocItem>, startPage: int, numPages: nat): seq<(string, nat)> {
    if entries == [] then []
    else
      var t := Target(entries[0].page, startPage, numPages);
      (if t.Some? then [(Title(entries[0]), t.value)] else []) + Marks(entries[1..], startPage, numPages)
  }

  function Strip(r: seq<Outline>): seq<(string, nat)> {
    if r == [] then [] else [(r[0].title, r[0].index)] + Strip(r[1..])
  }

  lemma {:induction false} MarksAppend(a: seq<TocItem>, b: seq<TocItem>, startPage: int, numPages: nat)
    ensures Marks(a + b, startPage, numPages) == Marks(a, startPage, numPages) + Marks(b, startPage, numPages)
  {
    if a != [] {
      assert (a + b)[1..] == a[1..] + b;
      MarksAppend(a[1..], b, startPage, numPages);
    } else {
      assert a + b == b;
    }
  }

  lemma {:induction false} StripAppend(a: seq<Outline>, b: seq<Outline>)
    ensures Strip(a + b) == Strip(a) + Strip(b)
  {
    if a != [] {
      assert (a + b)[1..] == a[1..] + b;
      StripAppend(a[1..], b);
    } else {
      assert a + b == b;
    }
  }

  /**
   * The outline holds one item per visited entry with a valid page, with its
   * title and page index, in document order; entries with an invalid page add
   * nothing, their children are still visited.
   */
  lemma {:induction false} PlanItemsFollowsDocument(items: seq<TocItem>, parent: Option<nat>, base: nat, startPage: int, numPages: nat)
    ensures Strip(PlanItems(items, parent, base, startPage, numPages)) == Marks(Visited(items), startPage, numPages)
    decreases items
  {
    if items != [] {
      var first := PlanItem(items[0], parent, base, startPage, numPages);
      PlanItemFollowsDocument(items[0], parent, base, startPage, numPages);
      PlanItemsFollowsDocument(items[1..], parent, base + |first|, startPage, numPages);
      StripAppend(first, PlanItems(items[1..], parent, base + |first|, startPage, numPages));
      MarksAppend(VisitedFrom(items[0]), Visited(items[1..]), startPage, numPages);
    }
  }

  lemma {:induction false} PlanItemFollowsDocument(item: TocItem, parent: Option<nat>, base: nat, startPage: int, numPages: nat)
    ensures Strip(PlanItem(item, parent, base, startPage, numPages)) == Marks(VisitedFrom(item), startPage, numPages)
    decreases item
  {
    var target := Target(item.page, startPage, numPages);
    var own := if target.Some? then [Outline(Title(item), target.value, parent)] else [];
    var newParent := if target.Some? then Some(base) else None;
    var kids := if Descends(item) then PlanItems(item.children.list, newParent, base + |own|, startPage, numPages) else [];
    var below := if Descends(item) then Visited(item.children.list) else [];
    assert PlanItem(item, parent, base, startPage, numPages) == own + kids;
    assert VisitedFrom(item) == [item] + below;
    OwnMark(item, parent, startPage, numPages);
    if Descends(item) {
      PlanItemsFollowsDocument(item.children.list, newParent, base + |own|, startPage, numPages);
    }
    assert Strip(kids) == Marks(below, startPage, numPages);
    StripAppend(own, kids);
    MarksAppend([item], below, startPage, numPages);
  }

  lemma OwnMark(item: TocItem, parent: Option<nat>, startPage: int, numPages: nat)
    ensures var t := Target(item.page, startPage, numPages);
      Strip(if t.Some? then [Outline(Title(item), t.value, parent)] else []) == Marks([item], startPage, numPages)
  {
    assert [item][1..] == [];
  }

  // ---------------------------------------------------------------------------
  // Parents

  /**
   * Every item is top-level, or hangs from the parent given to the call, or
   * from an item added earlier by the same call (items are numbered from
   * `base`); every page index lies within the PDF.
   */
  predicate ParentsBefore(r: seq<Outline>, parent: Option<nat>, base: nat, numPages: nat) {
    forall k :: 0 <= k < |r| ==>
      r[k].index < numPages &&
      (r[k].parent.None? || r[k].parent == parent || base <= r[k].parent.value < base + k)
  }

  lemma {:induction false} PlanItemsParents(items: seq<TocItem>, parent: Option<nat>, base: nat, startPage: int, numPages: nat)
    ensures ParentsBefore(PlanItems(items, parent, base, startPage, numPages), parent, base, numPages)
    decreases items
  {
    if items != [] {
      var first := PlanItem(items[0], parent, base, startPage, numPages);
      var rest := PlanItems(items[1..], parent, base + |first|, startPage, numPages);
      PlanItemParents(items[0], parent, base, startPage, numPages);
      PlanItemsParents(items[1..], parent, base + |first|, startPage, numPages);
      ParentsJoin(first, rest, parent, parent, base, numPages);
    }
  }

  /** Items added after `first` keep their parents before them. */
  lemma ParentsJoin(first: seq<Outline>, rest: seq<Outline>, parent: Option<nat>, restParent: Option<nat>, base: nat, numPages: nat)
    requires ParentsBefore(first, parent, base, numPages)
    requires ParentsBefore(rest, restParent, base + |first|, numPages)
    requires restParent.None? || restParent == parent || base <= restParent.value < base + |first|
    ensures ParentsBefore(first + rest, parent, base, numPages)
  {
    var r := first + rest;
    forall k | 0 <= k < |r|
      ensures r[k].index < numPages &&
        (r[k].parent.None? || r[k].parent == parent || base <= r[k].parent.value < base + k)
    {
      if k < |first| {
        assert r[k] == first[k];
      } else {
        assert r[k] == rest[k - |first|];
      }
    }
  }

  lemma {:induction false} PlanItemParents(item: TocItem, parent: Option<nat>, base: nat, startPage: int, numPages: nat)
    ensures ParentsBefore(PlanItem(item, parent, base, startPage, numPages), parent, base, numPages)
    decreases item
  {
    var r := PlanItem(item, parent, base, startPage, numPages);
    var target := Target(item.page, startPage, numPages);
    var own := if target.Some? then [Outline(Title(item), target.value, parent)] else [];
    var newParent := if target.Some? then Some(base) else None;
    assert ParentsBefore(own, parent, base, numPages);
    if Descends(item) {
      var kids := PlanItems(item.children.list, newParent, base + |own|, startPage, numPages);
      PlanItemsParents(item.children.list, newParent, base + |own|, startPage, numPages);
      ParentsJoin(own, kids, parent, newParent, base, numPages);
      PlanItemDescends(item, parent, base, own, newParent, base + |own|, startPage, numPages);
      ParentsSame(r, own + kids, parent, base, numPages);
    } else {
      PlanItemLeaf(item, parent, base, own, startPage, numPages);
      assert own + [] == own;
      ParentsSame(r, own, parent, base, numPages);
    }
  }

  lemma ParentsSame(r: seq<Outline>, r': seq<Outline>, parent: Option<nat>, base: nat, numPages: nat)
    requires r == r' && ParentsBefore(r', parent, base, numPages)
    ensures ParentsBefore(r, parent, base, numPages)
  {
  }

  /** The whole table of contents: top-level entries have no parent. */
  function Plan(toc: seq<TocItem>, startPage: int, numPages: nat): (r: seq<Outline>)
    ensures forall k :: 0 <= k < |r| ==> r[k].index < numPages
    ensures forall k :: 0 <= k < |r| && r[k].parent.Some? ==> r[k].parent.value < k
  {
    PlanItemsParents(toc, None, 0, startPage, numPages);
    PlanItems(toc, None, 0, startPage, numPages)
  }

  // ---------------------------------------------------------------------------
  // Nesting: a reference tree walk that knows nothing of page validity

  /** A visited entry with the walk position of the entry whose children list holds it. */
  datatype Node = Node(entry: TocItem, up: Option<nat>)

  /** The entries in visiting order, numbered from `at`, each with its parent entry's number. */
  function Walk(items: seq<TocItem>, up: Option<nat>, at: nat): seq<Node>
    decreases items
  {
    if items == [] then []
    else
      var first := WalkFrom(items[0], up, at);
      first + Walk(items[1..], up, at + |first|)
  }

  function WalkFrom(item: TocItem, up: Option<nat>, at: nat): seq<Node>
    decreases item
  {
    [Node(item, up)] + (if Descends(item) then Walk(item.children.list, Some(at), at + 1) else [])
  }

  /** Entry k of a walk numbered from `at` is a child of an earlier entry of the same walk. */
  predicate ChildOf(w: seq<Node>, at: nat, k: nat)
    requires k < |w|
  {
    w[k].up.Some? && at <= w[k].up.value < at + k &&
    Descends(w[w[k].up.value - at].entry) && w[k].entry in w[w[k].up.value - at].entry.children.list
  }

  /**
   * What a walk position's parent number means: an entry of a walk over
   * `items` is one of `items` (parent `up`), or a child of an earlier entry of
   * the same walk.
   */
  predicate UpsFollowTree(w: seq<Node>, items: seq<TocItem>, up: Option<nat>, at: nat) {
    forall k :: 0 <= k < |w| ==> (w[k].up == up && w[k].entry in items) || ChildOf(w, at, k)
  }

  lemma ChildOfPrefix(w1: seq<Node>, w2: seq<Node>, at: nat, k: nat)
    requires k < |w1| && ChildOf(w1, at, k)
    ensures ChildOf(w1 + w2, at, k)
  {
    assert (w1 + w2)[w1[k].up.value - at] == w1[w1[k].up.value - at];
  }

  lemma ChildOfShift(w1: seq<Node>, w2: seq<Node>, at: nat, k: nat)
    requires k < |w2| && ChildOf(w2, at + |w1|, k)
    ensures ChildOf(w1 + w2, at, k + |w1|)
  {
    var w := w1 + w2;
    assert w[k + |w1|] == w2[k];
    assert w[w2[k].up.value - at] == w2[w2[k].up.value - at - |w1|];
  }

  lemma WalkCons(items: seq<TocItem>, up: Option<nat>, at: nat, first: seq<Node>, next: nat)
    requires items != [] && first == WalkFrom(items[0], up, at) && next == at + |first|
    ensures Walk(items, up, at) == first + Walk(items[1..], up, next)
  {
  }

  lemma WalkFromKids(item: TocItem, up: Option<nat>, at: nat, next: nat)
    requires next == at + 1
    ensures WalkFrom(item, up, at) == [Node(item, up)] + (if Descends(item) then Walk(item.children.list, Some(at), next) else [])
  {
  }

  /** The parents of an entry's own walk: the entry itself, then entries below it. */
  predicate HeadedBy(w: seq<Node>, item: TocItem, up: Option<nat>, at: nat) {
    |w| > 0 && w[0] == Node(item, up) && forall k :: 0 < k < |w| ==> ChildOf(w, at, k)
  }

  lemma {:induction false} WalkUps(items: seq<TocItem>, up: Option<nat>, at: nat)
    ensures UpsFollowTree(Walk(items, up, at), items, up, at)
    decreases items
  {
    if items != [] {
      var w1 := WalkFrom(items[0], up, at);
      var next := at + |w1|;
      var w2 := Walk(items[1..], up, next);
      WalkCons(items, up, at, w1, next);
      WalkFromUps(items[0], up, at);
      WalkUps(items[1..], up, next);
      UpsAppend(items, up, at, w1, w2);
    }
  }

  lemma UpsAppend(items: seq<TocItem>, up: Option<nat>, at: nat, w1: seq<Node>, w2: seq<Node>)
    requires items != [] && HeadedBy(w1, items[0], up, at) && UpsFollowTree(w2, items[1..], up, at + |w1|)
    ensures UpsFollowTree(w1 + w2, items, up, at)
  {
    var w := w1 + w2;
    forall k | 0 <= k < |w|
      ensures (w[k].up == up && w[k].entry in items) || ChildOf(w, at, k)
    {
      if k == 0 {
        assert w[0] == Node(items[0], up);
      } else if k < |w1| {
        ChildOfPrefix(w1, w2, at, k);
      } else {
        assert w[k] == w2[k - |w1|];
        if !(w2[k - |w1|].up == up && w2[k - |w1|].entry in items[1..]) {
          ChildOfShift(w1, w2, at, k - |w1|);
        }
      }
    }
  }

  lemma {:induction false} WalkFromUps(item: TocItem, up: Option<nat>, at: nat)
    ensures HeadedBy(WalkFrom(item, up, at), item, up, at)
    decreases item
  {
    var next := at + 1;
    WalkFromKids(item, up, at, next);
    if Descends(item) {
      var kids := Walk(item.children.list, Some(at), next);
      WalkUps(item.children.list, Some(at), next);
      KidsUps(item, up, at, kids);
    } else {
      assert WalkFrom(item, up, at) == [Node(item, up)];
    }
  }

  lemma KidsUps(item: TocItem, up: Option<nat>, at: nat, kids: seq<Node>)
    requires Descends(item) && UpsFollowTree(kids, item.children.list, Some(at), at + 1)
    ensures HeadedBy([Node(item, up)] + kids, item, up, at)
  {
    var w := [Node(item, up)] + kids;
    forall k | 0 < k < |w|
      ensures ChildOf(w, at, k)
    {
      assert w[k] == kids[k - 1];
      if !(kids[k - 1].up == Some(at) && kids[k - 1].entry in item.children.list) {
        ChildOfShift([Node(item, up)], kids, at, k - 1);
      }
    }
  }

  /** A walk lists the entries of `v`, position by position. */
  predicate SameEntries(w: seq<Node>, v: seq<TocItem>) {
    |w| == |v| && forall k :: 0 <= k < |w| ==> w[k].entry == v[k]
  }

  lemma SameEntriesAppend(w1: seq<Node>, w2: seq<Node>, v1: seq<TocItem>, v2: seq<TocItem>)
    requires SameEntries(w1, v1) && SameEntries(w2, v2)
    ensures SameEntries(w1 + w2, v1 + v2)
  {
    forall k | 0 <= k < |w1 + w2|
      ensures (w1 + w2)[k].entry == (v1 + v2)[k]
    {
      if k >= |w1| {
        assert (w1 + w2)[k] == w2[k - |w1|];
      }
    }
  }

  /** The walk visits the same entries, in the same order, as `Visited`. */
  lemma {:induction false} WalkVisits(items: seq<TocItem>, up: Option<nat>, at: nat)
    ensures SameEntries(Walk(items, up, at), Visited(items))
    decreases items
  {
    if items != [] {
      var w1 := WalkFrom(items[0], up, at);
      var next := at + |w1|;
      WalkCons(items, up, at, w1, next);
      WalkFromVisits(items[0], up, at);
      WalkVisits(items[1..], up, next);
      SameEntriesAppend(w1, Walk(items[1..], up, next), VisitedFrom(items[0]), Visited(items[1..]));
    }
  }

  lemma {:induction false} WalkFromVisits(item: TocItem, up: Option<nat>, at: nat)
    ensures SameEntries(WalkFrom(item, up, at), VisitedFrom(item))
    decreases item
  {
    var next := at + 1;
    WalkFromKids(item, up, at, next);
    if Descends(item) {
      WalkVisits(item.children.list, Some(at), next);
      SameEntriesAppend([Node(item, up)], Walk(item.children.list, Some(at), next), [item], Visited(item.children.list));
    }
  }

  predicate Valid(n: Node, startPage: int, numPages: nat) {
    Target(n.entry.page, startPage, numPages).Some?
  }

  /** How many of the first j visited entries have a valid page: the outline position of entry j. */
  function Rank(g: seq<Node>, j: nat, startPage: int, numPages: nat): nat
    requires j <= |g|
  {
    if j == 0 then 0 else Rank(g, j - 1, startPage, numPages) + (if Valid(g[j - 1], startPage, numPages) then 1 else 0)
  }

  /** The outline parent an entry gets: its parent entry's item when that entry has one, else the top level. */
  function ParentItem(g: seq<Node>, up: Option<nat>, startPage: int, numPages: nat): Option<nat> {
    if up.Some? && up.value < |g| && Valid(g[up.value], startPage, numPages) then Some(Rank(g, up.value, startPage, numPages))
    else None
  }

  /** The outline item entry j should produce, if any. */
  function ItemOf(g: seq<Node>, j: nat, startPage: int, numPages: nat): seq<Outline>
    requires j < |g|
  {
    var t := Target(g[j].entry.page, startPage, numPages);
    if t.Some? then [Outline(Title(g[j].entry), t.value, ParentItem(g, g[j].up, startPage, numPages))] else []
  }

  /** The items of entries lo..hi-1 of the walk. */
  function Expected(g: seq<Node>, lo: nat, hi: nat, startPage: int, numPages: nat): seq<Outline>
    requires lo <= hi <= |g|
    decreases hi - lo
  {
    if lo == hi then [] else ItemOf(g, lo, startPage, numPages) + Expected(g, lo + 1, hi, startPage, numPages)
  }

  lemma {:induction false} ExpectedSplit(g: seq<Node>, a: nat, b: nat, c: nat, startPage: int, numPages: nat)
    requires a <= b <= c <= |g|
    ensures Expected(g, a, c, startPage, numPages) == Expected(g, a, b, startPage, numPages) + Expected(g, b, c, startPage, numPages)
    decreases b - a
  {
    if a < b {
      ExpectedSplit(g, a + 1, b, c, startPage, numPages);
    }
  }

  lemma {:induction false} ExpectedLength(g: seq<Node>, a: nat, b: nat, startPage: int, numPages: nat)
    requires a <= b <= |g|
    ensures |Expected(g, a, b, startPage, numPages)| + Rank(g, a, startPage, numPages) == Rank(g, b, startPage, numPages)
    decreases b - a
  {
    if a < b {
      ExpectedLength(g, a + 1, b, startPage, numPages);
      RankStep(g, a, startPage, numPages);
    }
  }

  lemma RankStep(g: seq<Node>, a: nat, startPage: int, numPages: nat)
    requires a < |g|
    ensures Rank(g, a + 1, startPage, numPages) == Rank(g, a, startPage, numPages) + |ItemOf(g, a, startPage, numPages)|
  {
  }

  lemma PlanItemsCons(items: seq<TocItem>, parent: Option<nat>, base: nat, first: seq<Outline>, next: nat, startPage: int, numPages: nat)
    requires items != [] && first == PlanItem(items[0], parent, base, startPage, numPages) && next == base + |first|
    ensures PlanItems(items, parent, base, startPage, numPages) == first + PlanItems(items[1..], parent, next, startPage, numPages)
  {
  }

  /** The item an entry adds for itself, if its page is valid. */
  function OwnItem(item: TocItem, parent: Option<nat>, startPage: int, numPages: nat): seq<Outline> {
    var t := Target(item.page, startPage, numPages);
    if t.Some? then [Outline(Title(item), t.value, parent)] else []
  }

  lemma PlanItemDescends(item: TocItem, parent: Option<nat>, base: nat, own: seq<Outline>, newParent: Option<nat>, next: nat, startPage: int, numPages: nat)
    requires Descends(item)
    requires own == OwnItem(item, parent, startPage, numPages) && next == base + |own|
    requires newParent == (if Target(item.page, startPage, numPages).Some? then Some(base) else None)
    ensures PlanItem(item, parent, base, startPage, numPages) ==
      own + PlanItems(item.children.list, newParent, next, startPage, numPages)
  {
  }

  lemma PlanItemLeaf(item: TocItem, parent: Option<nat>, base: nat, own: seq<Outline>, startPage: int, numPages: nat)
    requires !Descends(item)
    requires own == OwnItem(item, parent, startPage, numPages)
    ensures PlanItem(item, parent, base, startPage, numPages) == own + []
  {
  }

  lemma ExpectedCons(g: seq<Node>, lo: nat, hi: nat, startPage: int, numPages: nat)
    requires lo < hi <= |g|
    ensures Expected(g, lo, hi, startPage, numPages) == ItemOf(g, lo, startPage, numPages) + Expected(g, lo + 1, hi, startPage, numPages)
  {
  }

  /** Two concatenations of equal parts are equal. */
  lemma Rejoin(x: seq<Outline>, a: seq<Outline>, b: seq<Outline>, a': seq<Outline>, b': seq<Outline>, y: seq<Outline>)
    requires x == a + b
    requires a == a'
    requires b == b'
    requires y == a' + b'
    ensures x == y
  {
  }

  /** The walk `w` is the stretch of `g` from position `at`. */
  predicate Embeds(g: seq<Node>, at: nat, w: seq<Node>) {
    at + |w| <= |g| && forall k :: 0 <= k < |w| ==> g[at + k] == w[k]
  }

  lemma EmbedsSplit(g: seq<Node>, at: nat, w1: seq<Node>, w2: seq<Node>)
    requires Embeds(g, at, w1 + w2)
    ensures Embeds(g, at, w1) && Embeds(g, at + |w1|, w2)
  {
    forall k | 0 <= k < |w1|
      ensures g[at + k] == w1[k]
    {
      assert (w1 + w2)[k] == w1[k];
    }
    forall k | 0 <= k < |w2|
      ensures g[at + |w1| + k] == w2[k]
    {
      assert (w1 + w2)[|w1| + k] == w2[k];
    }
  }

  /**
   * `add_bookmarks(items, parent)` run on a stretch `at..` of the whole walk
   * `g`, with `base` items before it and `parent` the item of the stretch's
   * parent entry, adds exactly the items the walk prescribes for that stretch.
   */
  lemma {:induction false} PlanItemsMatchWalk(g: seq<Node>, items: seq<TocItem>, up: Option<nat>, at: nat, hi: nat, parent: Option<nat>, base: nat, startPage: int, numPages: nat)
    requires Embeds(g, at, Walk(items, up, at)) && hi == at + |Walk(items, up, at)|
    requires base == Rank(g, at, startPage, numPages) && parent == ParentItem(g, up, startPage, numPages)
    ensures hi <= |g| && PlanItems(items, parent, base, startPage, numPages) == Expected(g, at, hi, startPage, numPages)
    decreases items
  {
    if items == [] {
      assert Walk(items, up, at) == [];
    } else {
      var w1 := WalkFrom(items[0], up, at);
      var w2 := Walk(items[1..], up, at + |w1|);
      var mid := at + |w1|;
      WalkCons(items, up, at, w1, mid);
      EmbedsSplit(g, at, w1, w2);
      PlanItemMatchesWalk(g, items[0], up, at, mid, parent, base, startPage, numPages);
      var first := PlanItem(items[0], parent, base, startPage, numPages);
      var next := base + |first|;
      ExpectedLength(g, at, mid, startPage, numPages);
      PlanItemsMatchWalk(g, items[1..], up, mid, hi, parent, next, startPage, numPages);
      var rest := PlanItems(items[1..], parent, next, startPage, numPages);
      PlanItemsCons(items, parent, base, first, next, startPage, numPages);
      ExpectedSplit(g, at, mid, hi, startPage, numPages);
      Rejoin(PlanItems(items, parent, base, startPage, numPages), first, rest,
             Expected(g, at, mid, startPage, numPages), Expected(g, mid, hi, startPage, numPages),
             Expected(g, at, hi, startPage, numPages));
    }
  }

  lemma {:induction false} PlanItemMatchesWalk(g: seq<Node>, item: TocItem, up: Option<nat>, at: nat, hi: nat, parent: Option<nat>, base: nat, startPage: int, numPages: nat)
    requires Embeds(g, at, WalkFrom(item, up, at)) && hi == at + |WalkFrom(item, up, at)|
    requires base == Rank(g, at, startPage, numPages) && parent == ParentItem(g, up, startPage, numPages)
    ensures hi <= |g| && PlanItem(item, parent, base, startPage, numPages) == Expected(g, at, hi, startPage, numPages)
    decreases item
  {
    var w := WalkFrom(item, up, at);
    assert g[at + 0] == w[0] == Node(item, up);
    var own := OwnItem(item, parent, startPage, numPages);
    var next := base + |own|;
    var newParent := if Target(item.page, startPage, numPages).Some? then Some(base) else None;
    OwnIsItemOf(g, item, up, at, parent, base, next, newParent, startPage, numPages);
    ExpectedCons(g, at, hi, startPage, numPages);
    if Descends(item) {
      KidsEmbedded(g, item, up, at, hi);
      PlanItemsMatchWalk(g, item.children.list, Some(at), at + 1, hi, newParent, next, startPage, numPages);
      PlanItemDescends(item, parent, base, own, newParent, next, startPage, numPages);
      Rejoin(PlanItem(item, parent, base, startPage, numPages), own,
             PlanItems(item.children.list, newParent, next, startPage, numPages),
             ItemOf(g, at, startPage, numPages), Expected(g, at + 1, hi, startPage, numPages),
             Expected(g, at, hi, startPage, numPages));
    } else {
      WalkFromKids(item, up, at, at + 1);
      assert hi == at + 1;
      PlanItemLeaf(item, parent, base, own, startPage, numPages);
      Rejoin(PlanItem(item, parent, base, startPage, numPages), own, [],
             ItemOf(g, at, startPage, numPages), Expected(g, at + 1, hi, startPage, numPages),
             Expected(g, at, hi, startPage, numPages));
    }
  }

  /** Entry `at` of the walk adds its own item, and its valid page makes it the parent of its children. */
  lemma OwnIsItemOf(g: seq<Node>, item: TocItem, up: Option<nat>, at: nat, parent: Option<nat>, base: nat, next: nat, newParent: Option<nat>, startPage: int, numPages: nat)
    requires at < |g| && g[at] == Node(item, up)
    requires parent == ParentItem(g, up, startPage, numPages) && base == Rank(g, at, startPage, numPages)
    requires next == base + |OwnItem(item, parent, startPage, numPages)|
    requires newParent == (if Target(item.page, startPage, numPages).Some? then Some(base) else None)
    ensures OwnItem(item, parent, startPage, numPages) == ItemOf(g, at, startPage, numPages)
    ensures next == Rank(g, at + 1, startPage, numPages)
    ensures newParent == ParentItem(g, Some(at), startPage, numPages)
  {
    RankStep(g, at, startPage, numPages);
  }

  /** The children's walk is the stretch of `g` right after the entry. */
  lemma KidsEmbedded(g: seq<Node>, item: TocItem, up: Option<nat>, at: nat, hi: nat)
    requires Descends(item)
    requires Embeds(g, at, WalkFrom(item, up, at)) && hi == at + |WalkFrom(item, up, at)|
    ensures Embeds(g, at + 1, Walk(item.children.list, Some(at), at + 1))
    ensures hi == at + 1 + |Walk(item.children.list, Some(at), at + 1)|
  {
    var kids := Walk(item.children.list, Some(at), at + 1);
    WalkFromKids(item, up, at, at + 1);
    EmbedsSplit(g, at, [Node(item, up)], kids);
  }

  /**
   * The nesting rule of the whole outline: numbering the visited entries in
   * document order, the outline holds, in that order, one item per entry with
   * a valid page; the item of entry j sits at position Rank(j), and its parent
   * is the item of j's parent entry when that entry has a valid page, and the
   * top level when it has none or j is a top-level entry.
   */
  lemma PlanNesting(toc: seq<TocItem>, startPage: int, numPages: nat)
    ensures var g := Walk(toc, None, 0); var r := Plan(toc, startPage, numPages);
      && |r| == Rank(g, |g|, startPage, numPages)
      && forall j :: 0 <= j < |g| && Valid(g[j], startPage, numPages) ==>
           && Rank(g, j, startPage, numPages) < |r|
           && r[Rank(g, j, startPage, numPages)] ==
                Outline(Title(g[j].entry), Target(g[j].entry.page, startPage, numPages).value,
                        ParentItem(g, g[j].up, startPage, numPages))
  {
    var g := Walk(toc, None, 0);
    var r := Plan(toc, startPage, numPages);
    assert Embeds(g, 0, g);
    PlanItemsMatchWalk(g, toc, None, 0, |g|, None, 0, startPage, numPages);
    assert r == Expected(g, 0, |g|, startPage, numPages);
    ExpectedLength(g, 0, |g|, startPage, numPages);
    forall j | 0 <= j < |g| && Valid(g[j], startPage, numPages)
      ensures Rank(g, j, startPage, numPages) < |r|
      ensures r[Rank(g, j, startPage, numPages)] ==
                Outline(Title(g[j].entry), Target(g[j].entry.page, startPage, numPages).value,
                        ParentItem(g, g[j].up, startPage, numPages))
    {
      ExpectedSplit(g, 0, j, |g|, startPage, numPages);
      ExpectedLength(g, 0, j, startPage, numPages);
      assert Expected(g, j, |g|, startPage, numPages) == ItemOf(g, j, startPage, numPages) + Expected(g, j + 1, |g|, startPage, numPages);
    }
  }

  // ---------------------------------------------------------------------------
  // Page indices and page files

  /**
   * When the page files found run without a gap from the chosen start page,
   * an outline item lands on the file whose number the entry names, and every
   * such file can be the target.
   */
  lemma TargetIsNamedPage(files: seq<PageFiles.PageEntry>, startPage: nat, text: string)
    requires forall i :: 0 <= i < |files| ==> files[i].page == startPage + i
    ensures Target(Some(text), startPage, |files|).Some? ==>
      files[Target(Some(text), startPage, |files|).value].page == Value(text)
    ensures IsDigitString(text) && (exists i :: 0 <= i < |files| && files[i].page == Value(text)) ==>
      Target(Some(text), startPage, |files|).Some?
  {
  }

  /**
   * After a gap the mapping drifts: with page files 1, 2 and 4 and start page
   * 1, an entry for page 3 lands on the image of page 4, and an entry for page
   * 4 is dropped as lying beyond the last PDF page.
   */
  lemma GapShiftsTargets(files: seq<PageFiles.PageEntry>)
    requires |files| == 3 && files[0].page == 1 && files[1].page == 2 && files[2].page == 4
    ensures Target(Some("3"), 1, |files|) == Some(2) && files[2].page == 4
    ensures Target(Some("4"), 1, |files|) == None
  {
    assert Value("3") == 3 by { assert "3"[..0] == []; }
    assert Value("4") == 4 by { assert "4"[..0] == []; }
  }
}
