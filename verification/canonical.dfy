/** The margin-built nine-patch end to end: with positive margins that fit the
    source, the grid slices without a panic into nine images of the expected
    extents, and the panel gives the corners fixed sizes, the edges one growing
    axis and the centre both, with the content slot in the centre only. */
module Canonical {
  import opened Prim
  import opened Grid
  import opened Patches
  import opened Slicing
  import opened Builder
  import opened Layout

  /** Margins that are positive and together fit in the image's extent, which is
      below 2^31 on each axis. */
  predicate MarginsFit(top: u32, bottom: u32, left: u32, right: u32, total: Extent3d) {
    0 < left && 0 < right && left + right <= total.width < TWO_31 &&
    0 < top && 0 < bottom && top + bottom <= total.height < TWO_31
  }

  /** Flex weight of the middle span of an axis: the only one that grows. */
  function MiddleWeight(j: nat): real {
    if j == 1 then 1.0 else 0.0
  }

  /** Size rule of span `j` of an axis after the sizing table: the margins are
      fixed to their pixel lengths, the middle is `Auto`. */
  function MarginLength(first: u32, last: u32, j: nat): Val {
    if j == 0 then Px(first) else if j == 1 then Auto else Px(last)
  }

  /** Every rectangle of the margin grid lies inside a source whose extent the
      margins fit: `apply` can slice it. */
  lemma MarginGridSliceable<T>(top: u32, bottom: u32, left: u32, right: u32, content: T, src: Image)
    requires WellFormed(src) && MarginsFit(top, bottom, left, right, src.size)
    ensures Sliceable(MarginGrid(top, bottom, left, right, content), src)
  {
    var g: PatchGrid<T> := MarginGrid(top, bottom, left, right, content);
    var total := src.size;
    MarginCellSizes(top, bottom, left, right, content, total);
    MarginTiling(top, bottom, left, right, content, total);
    forall i, k | 0 <= i < 3 && 0 <= k < 3
      ensures Inside(PatchRect(g, total, i, k), total)
    {
      var r := PatchRect(g, total, i, k);
      assert r.x + r.w <= ColumnLeft(g[i], total, 3);
      assert r.h == ToHeight(g[i][0].originalSize, total);
      assert RowTop(g, total, i + 1) <= RowTop(g, total, 3);
    }
  }

  /** Slicing the margin grid yields nine images; image `3 * i + k` is the cut of
      patch `(i, k)`, `Spans(left, right, width)[k]` by `Spans(top, bottom,
      height)[i]` pixels. */
  lemma MarginSlices<T>(top: u32, bottom: u32, left: u32, right: u32, content: T, src: Image, i: nat, k: nat)
    requires WellFormed(src) && MarginsFit(top, bottom, left, right, src.size) && i < 3 && k < 3
    ensures var g := MarginGrid(top, bottom, left, right, content);
      Sliceable(g, src) && |GridSlices(g, src)| == 9 && FlatIndex(g, i, k) == 3 * i + k &&
      GridSlices(g, src)[3 * i + k].size ==
        Extent3d(Spans(left, right, src.size.width)[k], Spans(top, bottom, src.size.height)[i])
  {
    var g: PatchGrid<T> := MarginGrid(top, bottom, left, right, content);
    MarginGridSliceable(top, bottom, left, right, content, src);
    MarginCellSizes(top, bottom, left, right, content, src.size);
    assert CellsBefore(g, 3) == 9 && CellsBefore(g, i) == 3 * i by {
      assert CellsBefore(g, 1) == 3;
      assert CellsBefore(g, 2) == 6;
    }
    SliceAt(g, src, i, k);
  }

  /** The margin-built nine-patch can be laid out once it has a handle per patch. */
  lemma MarginPlaceable<T>(top: u32, bottom: u32, left: u32, right: u32, content: T, total: Extent3d, handles: seq<Handle>)
    requires |handles| >= 9
    ensures Placeable(NinePatch(MarginGrid(top, bottom, left, right, content), total, handles))
  {
    var g: PatchGrid<T> := MarginGrid(top, bottom, left, right, content);
    assert CellsBefore(g, 1) == 3;
    assert CellsBefore(g, 2) == 6;
  }

  /** The panel of the margin-built nine-patch: row `i` is `MarginLength(top,
      bottom, i)` high and grows only for the middle row; cell `(i, k)` is
      `MarginLength(left, right, k)` wide and `MarginLength(top, bottom, i)` high,
      grows only in the middle column, and only the centre cell carries the
      content marker. The centre's height rule is `Auto`, so it is `Auto` high. */
  lemma MarginPanel<T>(top: u32, bottom: u32, left: u32, right: u32, content: T, total: Extent3d,
                       handles: seq<Handle>, parent: Entity, contents: Option<map<T, Entity>>, i: nat, k: nat)
    requires MarginsFit(top, bottom, left, right, total) && |handles| >= 9 && i < 3 && k < 3
    ensures var np := NinePatch(MarginGrid(top, bottom, left, right, content), total, handles);
      Placeable(np) &&
      RowSizing(np, i) == Sizing(Percent(100), MarginLength(top, bottom, i), MiddleWeight(i), MiddleWeight(i)) &&
      var c := LayoutCell(np, i, k, parent, contents);
      c.sizing == Sizing(MarginLength(left, right, k), MarginLength(top, bottom, i), MiddleWeight(k), MiddleWeight(k)) &&
      (c.marker.Some? <==> i == 1 && k == 1) &&
      (c.marker.Some? ==> c.marker.value == ContentMarker(content, false, parent))
  {
    var g: PatchGrid<T> := MarginGrid(top, bottom, left, right, content);
    MarginPlaceable(top, bottom, left, right, content, total, handles);
    MarginCellSizes(top, bottom, left, right, content, total);
    assert ToWidth(g[i][k].originalSize, total) == Spans(left, right, total.width)[k];
    assert ToHeight(g[i][k].originalSize, total) == Spans(top, bottom, total.height)[i];
    assert ToHeight(g[i][0].originalSize, total) == Spans(top, bottom, total.height)[i];
  }

  /** A 100 x 100 source with margins of 20 on every side slices into four
      20 x 20 corners, a 60 x 20 top and bottom edge, a 20 x 60 left and right
      edge and a 60 x 60 centre. */
  lemma SquareMargins<T>(content: T, src: Image)
    requires WellFormed(src) && src.size == Extent3d(100, 100)
    ensures Sliceable(MarginGrid(20, 20, 20, 20, content), src)
    ensures var slices := GridSlices(MarginGrid(20, 20, 20, 20, content), src);
      |slices| == 9 &&
      slices[0].size == Extent3d(20, 20) && slices[2].size == Extent3d(20, 20) &&
      slices[6].size == Extent3d(20, 20) && slices[8].size == Extent3d(20, 20) &&
      slices[1].size == Extent3d(60, 20) && slices[7].size == Extent3d(60, 20) &&
      slices[3].size == Extent3d(20, 60) && slices[5].size == Extent3d(20, 60) &&
      slices[4].size == Extent3d(60, 60)
  {
    MarginSlices(20, 20, 20, 20, content, src, 0, 0);
    MarginSlices(20, 20, 20, 20, content, src, 0, 1);
    MarginSlices(20, 20, 20, 20, content, src, 0, 2);
    MarginSlices(20, 20, 20, 20, content, src, 1, 0);
    MarginSlices(20, 20, 20, 20, content, src, 1, 1);
    MarginSlices(20, 20, 20, 20, content, src, 1, 2);
    MarginSlices(20, 20, 20, 20, content, src, 2, 0);
    MarginSlices(20, 20, 20, 20, content, src, 2, 1);
    MarginSlices(20, 20, 20, 20, content, src, 2, 2);
  }
}
