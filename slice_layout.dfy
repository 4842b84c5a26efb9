/**
 * The layout arithmetic of `mergeAndSavePage` (wqharvester.user.js): slices of
 * one page are ordered by their horizontal offset, the canvas is as wide as
 * all slices together and as tall as the tallest, and each slice is drawn at
 * the sum of the widths before it.  Pixels, canvases and encoding are not
 * modelled; only the numbers that place the slices.
 */
module SliceLayout {

  /**
   * One recorded slice: the natural size of the first image seen at its
   * offset, and how many times an image arrived at that offset.
   */
  datatype Slice = Slice(width: nat, height: nat, count: nat)

  /** Where the slices of one page go: canvas size and the x position of each slice. */
  datatype Canvas = Canvas(width: nat, height: nat, xs: seq<nat>)

  predicate StrictlyIncreasing(r: seq<int>) {
    forall i, j :: 0 <= i < j < |r| ==> r[i] < r[j]
  }

  /** A set is empty or has a member (stated positively so that callers can pick one). */
  lemma EmptyOrMember(s: set<int>)
    ensures s == {} || exists y :: y in s
  {
    if forall y :: y !in s {
      assert s == {};
    }
  }

  lemma {:induction false} LeastExists(s: set<int>)
    requires s != {}
    ensures exists m :: m in s && forall x :: x in s ==> m <= x
    decreases |s|
  {
    EmptyOrMember(s);
    var y :| y in s;
    var rest := s - {y};
    assert forall x :: x in s ==> x == y || x in rest;
    if rest == {} {
      assert forall x :: x in s ==> y <= x;
    } else {
      LeastExists(rest);
      var m :| m in rest && forall x :: x in rest ==> m <= x;
      var least := if y < m then y else m;
      assert forall x :: x in s ==> least <= x;
      assert least in s;
    }
  }

  /** The smallest element of a non-empty finite set of integers. */
  function Least(s: set<int>): (m: int)
    requires s != {}
    ensures m in s && forall x :: x in s ==> m <= x
  {
    LeastExists(s);
    var m :| m in s && forall x :: x in s ==> m <= x;
    m
  }

  /** The offsets of a page in ascending order, as the comparator `a[0] - b[0]` sorts them. */
  function SortedKeys(s: set<int>): (r: seq<int>)
    ensures |r| == |s|
    ensures forall x :: x in s <==> x in r
    ensures StrictlyIncreasing(r)
    decreases |s|
  {
    if s == {} then []
    else
      var m := Least(s);
      var rest := SortedKeys(s - {m});
      var r := [m] + rest;
      assert |s - {m}| == |s| - 1;
      assert forall x :: x in r <==> x == m || x in rest;
      forall i, j | 0 <= i < j < |r|
        ensures r[i] < r[j]
      {
        assert r[j] == rest[j - 1];
        if i > 0 {
          assert r[i] == rest[i - 1];
        } else {
          assert rest[j - 1] in rest;
        }
      }
      r
  }

  /**
   * Any strictly ascending listing of the offsets is SortedKeys: the merge order
   * depends on the set of offsets only, never on the order in which the slices
   * arrived.
   */
  lemma {:induction false} SortedKeysUnique(s: set<int>, r: seq<int>)
    requires StrictlyIncreasing(r)
    requires forall x :: x in s <==> x in r
    ensures r == SortedKeys(s)
    decreases |s|
  {
    if r == [] {
      assert forall x :: x !in s;
      assert s == {};
    } else {
      var m := r[0];
      assert m in s;
      HeadIsLeast(s, r);
      assert SortedKeys(s) == [m] + SortedKeys(s - {m});
      TailListsRest(s, r);
      SortedKeysUnique(s - {m}, r[1..]);
      assert r == [m] + r[1..];
    }
  }

  lemma HeadIsLeast(s: set<int>, r: seq<int>)
    requires StrictlyIncreasing(r)
    requires forall x :: x in s <==> x in r
    requires r != []
    ensures s != {} && Least(s) == r[0]
  {
    assert r[0] in r;
    assert r[0] in s;
    var m := Least(s);
    assert m in r;
    assert forall i :: 0 < i < |r| ==> r[0] < r[i];
    var k :| 0 <= k < |r| && r[k] == m;
  }

  lemma TailListsRest(s: set<int>, r: seq<int>)
    requires StrictlyIncreasing(r)
    requires forall x :: x in s <==> x in r
    requires r != []
    ensures StrictlyIncreasing(r[1..])
    ensures forall x :: x in s - {r[0]} <==> x in r[1..]
  {
    var tail := r[1..];
    forall x | x in tail
      ensures x in s - {r[0]}
    {
      var i :| 0 <= i < |tail| && tail[i] == x;
      assert r[i + 1] == x && r[0] < r[i + 1];
    }
    forall x | x in s - {r[0]}
      ensures x in tail
    {
      var i :| 0 <= i < |r| && r[i] == x;
      assert tail[i - 1] == x;
    }
  }

  /** The slices stored at `keys`, in that order. */
  function SlicesAt(m: map<int, Slice>, keys: seq<int>): (r: seq<Slice>)
    requires forall k :: 0 <= k < |keys| ==> keys[k] in m
    ensures |r| == |keys|
  {
    if keys == [] then [] else [m[keys[0]]] + SlicesAt(m, keys[1..])
  }

  lemma {:induction false} SlicesAtIndex(m: map<int, Slice>, keys: seq<int>)
    requires forall k :: 0 <= k < |keys| ==> keys[k] in m
    ensures forall k :: 0 <= k < |keys| ==> SlicesAt(m, keys)[k] == m[keys[k]]
  {
    if keys != [] {
      SlicesAtIndex(m, keys[1..]);
      assert forall k :: 0 < k < |keys| ==> keys[1..][k - 1] == keys[k];
    }
  }

  /** The slices of one page in merge order. */
  function Ordered(m: map<int, Slice>): (r: seq<Slice>)
    ensures |r| == |m|
  {
    var keys := SortedKeys(m.Keys);
    assert |m.Keys| == |m|;
    assert forall k :: 0 <= k < |keys| ==> keys[k] in keys;
    SlicesAt(m, keys)
  }

  /**
   * The merge order is the slices listed by increasing offset: for any listing
   * `offsets` of the page's offsets in increasing order, slice k of the merge is
   * the one stored at `offsets[k]`.
   */
  lemma OrderedByOffset(m: map<int, Slice>, offsets: seq<int>)
    requires StrictlyIncreasing(offsets)
    requires forall x :: x in m <==> x in offsets
    ensures |Ordered(m)| == |offsets|
    ensures forall k :: 0 <= k < |offsets| ==> Ordered(m)[k] == m[offsets[k]]
  {
    SortedKeysUnique(m.Keys, offsets);
    assert forall k :: 0 <= k < |offsets| ==> offsets[k] in offsets;
    SlicesAtIndex(m, offsets);
  }

  function TotalWidth(s: seq<Slice>): nat {
    if s == [] then 0 else TotalWidth(s[..|s| - 1]) + s[|s| - 1].width
  }

  function Max(a: int, b: int): int {
    if a < b then b else a
  }

  /** `Math.max` over the heights, starting from 0. */
  function MaxHeight(s: seq<Slice>): nat {
    if s == [] then 0 else Max(MaxHeight(s[..|s| - 1]), s[|s| - 1].height)
  }

  /** The x of each slice: the total width of the slices before it. */
  function Offsets(s: seq<Slice>): (xs: seq<nat>)
    ensures |xs| == |s|
  {
    if s == [] then [] else Offsets(s[..|s| - 1]) + [TotalWidth(s[..|s| - 1])]
  }

  /** The canvas the merge draws. */
  function LayoutOf(s: seq<Slice>): (c: Canvas)
    ensures |c.xs| == |s|
  {
    Canvas(TotalWidth(s), MaxHeight(s), Offsets(s))
  }

  lemma {:induction false} OffsetsIndex(s: seq<Slice>)
    ensures forall k :: 0 <= k < |s| ==> Offsets(s)[k] == TotalWidth(s[..k])
  {
    if s != [] {
      var init := s[..|s| - 1];
      OffsetsIndex(init);
      assert forall k :: 0 <= k < |init| ==> init[..k] == s[..k];
    }
  }

  lemma {:induction false} MaxHeightBounds(s: seq<Slice>)
    ensures forall k :: 0 <= k < |s| ==> s[k].height <= MaxHeight(s)
    ensures |s| > 0 ==> exists k :: 0 <= k < |s| && s[k].height == MaxHeight(s)
    ensures |s| == 0 ==> MaxHeight(s) == 0
  {
    if |s| > 0 {
      var init := s[..|s| - 1];
      MaxHeightBounds(init);
      assert forall k :: 0 <= k < |init| ==> s[k] == init[k];
      if MaxHeight(s) != s[|s| - 1].height {
        var k :| 0 <= k < |init| && init[k].height == MaxHeight(init);
        assert s[k].height == MaxHeight(s);
      }
    }
  }

  /**
   * The layout places the slices edge to edge: the first at x = 0, each next one
   * right after the previous, and the last one ends exactly at the canvas width;
   * the canvas height is the height of the tallest slice.
   */
  lemma LayoutMeaning(s: seq<Slice>)
    ensures |s| > 0 ==> LayoutOf(s).xs[0] == 0
    ensures forall k :: 0 <= k < |s| - 1 ==> LayoutOf(s).xs[k + 1] == LayoutOf(s).xs[k] + s[k].width
    ensures |s| > 0 ==> LayoutOf(s).xs[|s| - 1] + s[|s| - 1].width == LayoutOf(s).width
    ensures forall k :: 0 <= k < |s| ==> s[k].height <= LayoutOf(s).height
    ensures |s| > 0 ==> exists k :: 0 <= k < |s| && s[k].height == LayoutOf(s).height
    ensures |s| == 0 ==> LayoutOf(s) == Canvas(0, 0, [])
  {
    MaxHeightBounds(s);
    OffsetsIndex(s);
    forall k | 0 <= k < |s| - 1
      ensures LayoutOf(s).xs[k + 1] == LayoutOf(s).xs[k] + s[k].width
    {
      assert s[..k + 1][..k] == s[..k];
    }
    if |s| > 0 {
      assert s[..|s|][..|s| - 1] == s[..|s| - 1];
      assert s[..|s|] == s;
    }
  }

  /**
   * The two loops of the merge: one sums the widths and takes the largest
   * height, the other walks `currentX` across the canvas.
   */
  method PlanLayout(s: seq<Slice>) returns (c: Canvas)
    ensures c == LayoutOf(s)
  {
    var totalWidth, maxHeight := 0, 0;
    for i := 0 to |s|
      invariant totalWidth == TotalWidth(s[..i])
      invariant maxHeight == MaxHeight(s[..i])
    {
      assert s[..i + 1][..i] == s[..i];
      totalWidth := totalWidth + s[i].width;
      maxHeight := Max(maxHeight, s[i].height);
    }
    assert s[..|s|] == s;
    var xs: seq<nat> := [];
    var currentX := 0;
    for i := 0 to |s|
      invariant currentX == TotalWidth(s[..i])
      invariant xs == Offsets(s[..i])
    {
      assert s[..i + 1][..i] == s[..i];
      xs := xs + [currentX];
      currentX := currentX + s[i].width;
    }
    c := Canvas(totalWidth, maxHeight, xs);
  }
}
