/**
 * What the harvester reads from the reader's document, and the two choices it
 * makes from it: which page is most visible (`getCurrentVisiblePage`) and which
 * page to visit next (the scan in `findAndJumpToNextPage`), in
 * wqharvester.user.js.
 */
module Navigation {
  import opened Wrappers
  import opened SliceLayout

  /**
   * One `.page-img-box` element: its `index` attribute, the number of `img`
   * elements in its `.plg` container (0 when the container is missing), and its
   * bounding rectangle's top and bottom relative to the viewport.
   */
  datatype PageBox = PageBox(index: int, slots: nat, top: int, bottom: int)

  /** The page boxes in document order, the scroll position and the window height. */
  datatype Document = Document(boxes: seq<PageBox>, scrollTop: int, windowHeight: int)

  /** The page indices present in the document, in document order. */
  function Indices(doc: Document): (r: seq<int>)
    ensures |r| == |doc.boxes|
    ensures forall k :: 0 <= k < |r| ==> r[k] == doc.boxes[k].index
  {
    IndicesOf(doc.boxes)
  }

  function IndicesOf(boxes: seq<PageBox>): (r: seq<int>)
    ensures |r| == |boxes|
    ensures forall k :: 0 <= k < |r| ==> r[k] == boxes[k].index
  {
    if boxes == [] then []
    else
      var r := IndicesOf(boxes[..|boxes| - 1]) + [boxes[|boxes| - 1].index];
      assert forall k :: 0 <= k < |boxes| - 1 ==> boxes[..|boxes| - 1][k] == boxes[k];
      r
  }

  /**
   * The declared slice count of a page: the `img` count of the first box with
   * that index (what `querySelector` finds), 0 when there is no such box.
   */
  function SlotsOf(boxes: seq<PageBox>, page: int): (n: nat)
    ensures (forall k :: 0 <= k < |boxes| ==> boxes[k].index != page) ==> n == 0
    ensures n > 0 ==> exists k :: 0 <= k < |boxes| && boxes[k].index == page && boxes[k].slots == n
    ensures forall k :: 0 <= k < |boxes| && boxes[k].index == page && (forall j :: 0 <= j < k ==> boxes[j].index != page) ==>
      n == boxes[k].slots
  {
    if boxes == [] then 0
    else if boxes[0].index == page then boxes[0].slots
    else
      var n := SlotsOf(boxes[1..], page);
      assert forall k :: 0 <= k < |boxes| - 1 ==> boxes[1..][k] == boxes[k + 1];
      n
  }

  function Min(a: int, b: int): int {
    if a < b then a else b
  }

  /** How many pixels of a page box lie inside the window, never negative. */
  function VisibleHeight(doc: Document, b: PageBox): (h: int)
    ensures h >= 0
  {
    var pageTop := b.top + doc.scrollTop;
    var pageBottom := b.bottom + doc.scrollTop;
    var visibleTop := Max(pageTop, doc.scrollTop);
    var visibleBottom := Min(pageBottom, doc.scrollTop + doc.windowHeight);
    Max(0, visibleBottom - visibleTop)
  }

  /** The page kept after looking at the first n boxes, with its visible height. */
  function BestUpTo(doc: Document, n: nat): (Option<int>, int)
    requires n <= |doc.boxes|
  {
    if n == 0 then (None, 0)
    else
      var (page, best) := BestUpTo(doc, n - 1);
      var h := VisibleHeight(doc, doc.boxes[n - 1]);
      if h > best then (Some(doc.boxes[n - 1].index), h) else (page, best)
  }

  /** The page the viewport shows most of, or None when no page is visible. */
  function VisiblePage(doc: Document): Option<int> {
    BestUpTo(doc, |doc.boxes|).0
  }

  /**
   * Box k is the first among the first n boxes with the greatest visible
   * height, and that height is positive.
   */
  ghost predicate WinsAt(doc: Document, n: nat, k: nat, best: int) {
    && k < n <= |doc.boxes|
    && best == VisibleHeight(doc, doc.boxes[k]) > 0
    && (forall j :: 0 <= j < k ==> VisibleHeight(doc, doc.boxes[j]) < best)
    && (forall j :: k <= j < n ==> VisibleHeight(doc, doc.boxes[j]) <= best)
  }

  lemma {:induction false} BestUpToMeaning(doc: Document, n: nat)
    requires n <= |doc.boxes|
    ensures BestUpTo(doc, n).0.None? ==>
              BestUpTo(doc, n).1 == 0 && forall j :: 0 <= j < n ==> VisibleHeight(doc, doc.boxes[j]) == 0
    ensures BestUpTo(doc, n).0.Some? ==>
              exists k: nat :: WinsAt(doc, n, k, BestUpTo(doc, n).1) && BestUpTo(doc, n).0 == Some(doc.boxes[k].index)
  {
    if n > 0 {
      BestUpToMeaning(doc, n - 1);
      var (page, best) := BestUpTo(doc, n - 1);
      var h := VisibleHeight(doc, doc.boxes[n - 1]);
      if h > best {
        assert WinsAt(doc, n, n - 1, h);
      } else if page.Some? {
        var k: nat :| WinsAt(doc, n - 1, k, best) && page == Some(doc.boxes[k].index);
        assert WinsAt(doc, n, k, best);
      }
    }
  }

  /**
   * The chosen page is the first box with the strictly greatest positive
   * visible height; there is none exactly when no box is visible at all.
   */
  lemma VisiblePageMeaning(doc: Document)
    ensures VisiblePage(doc).None? <==> forall j :: 0 <= j < |doc.boxes| ==> VisibleHeight(doc, doc.boxes[j]) == 0
    ensures VisiblePage(doc).Some? ==>
              exists k: nat, best :: WinsAt(doc, |doc.boxes|, k, best) && VisiblePage(doc) == Some(doc.boxes[k].index)
  {
    BestUpToMeaning(doc, |doc.boxes|);
  }

  /** `getCurrentVisiblePage`: one pass keeping the best page so far. */
  method CurrentVisiblePage(doc: Document) returns (bestPage: Option<int>)
    ensures bestPage == VisiblePage(doc)
  {
    if |doc.boxes| == 0 {
      return None;
    }
    bestPage := None;
    var bestVisibility := 0;
    for i := 0 to |doc.boxes|
      invariant (bestPage, bestVisibility) == BestUpTo(doc, i)
    {
      var h := VisibleHeight(doc, doc.boxes[i]);
      if h > bestVisibility {
        bestVisibility := h;
        bestPage := Some(doc.boxes[i].index);
      }
    }
  }

  /** Pages of the document at or after the start page that are not completed yet. */
  function Unfinished(pages: seq<int>, startPage: int, completed: set<int>): set<int> {
    set p | p in pages && p >= startPage && p !in completed
  }

  /**
   * The page `findAndJumpToNextPage` goes to: the smallest page index of the
   * document that is at least the start page and not completed; None when
   * every such page is completed.
   */
  function NextPage(pages: seq<int>, startPage: int, completed: set<int>): (r: Option<int>)
    ensures r.None? <==> forall p :: p in pages && p >= startPage ==> p in completed
    ensures r.Some? ==> r.value in pages && r.value >= startPage && r.value !in completed
    ensures r.Some? ==> forall p :: p in pages && p >= startPage && p !in completed ==> r.value <= p
  {
    var u := Unfinished(pages, startPage, completed);
    assert forall p :: p in pages && p >= startPage && p !in completed ==> p in u;
    if u == {} then None else Some(Least(u))
  }

  /** Stopping the ascending scan at the first page not completed finds NextPage. */
  lemma ScanFindsNext(pages: seq<int>, startPage: int, completed: set<int>, sorted: seq<int>, stop: nat)
    requires StrictlyIncreasing(sorted)
    requires forall p :: p in sorted <==> p in pages && p >= startPage
    requires stop <= |sorted|
    requires forall j :: 0 <= j < stop ==> sorted[j] in completed
    ensures stop < |sorted| && sorted[stop] !in completed ==> NextPage(pages, startPage, completed) == Some(sorted[stop])
    ensures stop == |sorted| ==> NextPage(pages, startPage, completed) == None
  {
    var u := Unfinished(pages, startPage, completed);
    assert forall p :: p in u ==> p in sorted;
    if stop < |sorted| && sorted[stop] !in completed {
      var n := sorted[stop];
      assert n in sorted;
      forall p | p in u
        ensures n <= p
      {
        var j :| 0 <= j < |sorted| && sorted[j] == p;
        assert stop <= j;
      }
      assert n in u;
    } else if stop == |sorted| {
      forall p | p in sorted
        ensures p in completed
      {
        var j :| 0 <= j < |sorted| && sorted[j] == p;
      }
      assert u == {};
    }
  }

  /**
   * The scan itself: collect the indices at or after the start page, sort them,
   * and take the first that is not completed.
   */
  method NextUnfinishedPage(pages: seq<int>, startPage: int, completed: set<int>) returns (next: Option<int>)
    ensures next == NextPage(pages, startPage, completed)
  {
    var indices: seq<int> := [];
    for i := 0 to |pages|
      invariant forall p :: p in indices <==> p in pages[..i] && p >= startPage
    {
      assert pages[..i + 1] == pages[..i] + [pages[i]];
      if pages[i] >= startPage {
        indices := indices + [pages[i]];
      }
    }
    assert pages[..|pages|] == pages;
    var sorted := SortedKeys(set p | p in indices);
    var i := 0;
    while i < |sorted| && !(sorted[i] !in completed && sorted[i] >= startPage)
      invariant 0 <= i <= |sorted|
      invariant forall j :: 0 <= j < i ==> sorted[j] in completed
    {
      assert sorted[i] in sorted;
      i := i + 1;
    }
    next := if i < |sorted| then Some(sorted[i]) else None;
    ScanFindsNext(pages, startPage, completed, sorted, i);
  }
}
