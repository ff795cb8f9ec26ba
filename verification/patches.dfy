/** The patch grid of a nine-patch: patch descriptors, the signed size encoding and
    its resolution against the source image, the slicing cursors, and the canonical
    3x3 grid derived from four margins. */
module Patches {
  import opened Prim

  /** bevy's `Val`, reduced to the variants the nine-patch code matches on; `Other`
      stands for every remaining variant. Lengths are whole pixels or whole percents. */
  datatype Val = Px(px: int) | Percent(pct: int) | Auto | Other

  /** Target sizing rule of a patch, one rule per axis. */
  datatype Size = Size(width: Val, height: Val)

  datatype IVec2 = IVec2(x: i32, y: i32)

  /** Extent of an image in pixels (the layer count is not modelled). */
  datatype Extent3d = Extent3d(width: u32, height: u32)

  /** A patch: its extent in the source image (positive = pixels, non-positive =
      image extent plus that value), how it is sized when rendered, and an optional
      content-slot tag. */
  datatype Patch<T> = Patch(originalSize: IVec2, targetSize: Size, content: Option<T>)

  /** Row-major grid of patches; rows may have different lengths. */
  type PatchGrid<T> = seq<seq<Patch<T>>>

  /** Resolved width of a patch, `to_width`: a positive component is taken as is,
      any other is added to the image width; the casts and the addition wrap. */
  function ToWidth(patch: IVec2, total: Extent3d): (r: u32)
    ensures patch.x > 0 ==> r == patch.x
    ensures patch.x <= 0 && total.width < TWO_31 && total.width + patch.x >= 0 ==> r == total.width + patch.x
    ensures patch.x <= 0 && total.width < TWO_31 && total.width + patch.x < 0 ==> r == total.width + patch.x + TWO_32
  {
    if patch.x > 0 then AsU32(patch.x) else AsU32(WrapI32(AsI32(total.width) + patch.x))
  }

  /** Resolved height of a patch, `to_height`, the vertical twin of `ToWidth`. */
  function ToHeight(patch: IVec2, total: Extent3d): (r: u32)
    ensures patch.y > 0 ==> r == patch.y
    ensures patch.y <= 0 && total.height < TWO_31 && total.height + patch.y >= 0 ==> r == total.height + patch.y
    ensures patch.y <= 0 && total.height < TWO_31 && total.height + patch.y < 0 ==> r == total.height + patch.y + TWO_32
  {
    if patch.y > 0 then AsU32(patch.y) else AsU32(WrapI32(AsI32(total.height) + patch.y))
  }

  predicate NonEmptyRows<T>(rows: PatchGrid<T>) {
    forall i :: 0 <= i < |rows| ==> |rows[i]| > 0
  }

  /** The horizontal cursor `accu_x` before patch `k` of a row: the sum of the
      resolved widths of the patches before it. It starts at 0 and never moves
      back along the row. */
  function ColumnLeft<T>(row: seq<Patch<T>>, total: Extent3d, k: nat): (x: nat)
    requires k <= |row|
    ensures k == 0 ==> x == 0
    ensures forall j :: 0 <= j <= k ==> ColumnLeft(row, total, j) <= x
  {
    if k == 0 then 0 else ColumnLeft(row, total, k - 1) + ToWidth(row[k - 1].originalSize, total)
  }

  /** The vertical cursor `accu_y` before row `i`: each row advances it by the
      resolved height of that row's FIRST patch only. It starts at 0 and never
      moves back up the grid. */
  function RowTop<T>(rows: PatchGrid<T>, total: Extent3d, i: nat): (y: nat)
    requires i <= |rows| && NonEmptyRows(rows)
    ensures i == 0 ==> y == 0
    ensures forall j :: 0 <= j <= i ==> RowTop(rows, total, j) <= y
  {
    if i == 0 then 0 else RowTop(rows, total, i - 1) + ToHeight(rows[i - 1][0].originalSize, total)
  }

  /** A pixel rectangle: top-left corner, width and height. */
  datatype Rect = Rect(x: nat, y: nat, w: nat, h: nat)

  /** The source rectangle that slicing cuts for patch `k` of row `i`. */
  function PatchRect<T>(rows: PatchGrid<T>, total: Extent3d, i: nat, k: nat): (r: Rect)
    requires NonEmptyRows(rows) && i < |rows| && k < |rows[i]|
    ensures r.x == ColumnLeft(rows[i], total, k) && r.y == RowTop(rows, total, i)
    ensures r.x + r.w == ColumnLeft(rows[i], total, k + 1)
    ensures k == 0 ==> r.y + r.h == RowTop(rows, total, i + 1)
  {
    var p := rows[i][k].originalSize;
    Rect(ColumnLeft(rows[i], total, k), RowTop(rows, total, i), ToWidth(p, total), ToHeight(p, total))
  }

  predicate Inside(r: Rect, total: Extent3d) {
    r.x + r.w <= total.width && r.y + r.h <= total.height
  }

  /** The canonical grid of `by_margins_with_content`: fixed corners, edges that
      stretch along one axis, and a centre that stretches along both and alone
      carries the content tag. */
  function MarginGrid<T>(top: u32, bottom: u32, left: u32, right: u32, content: T): (g: PatchGrid<T>)
    ensures |g| == 3 && forall i :: 0 <= i < 3 ==> |g[i]| == 3
    ensures forall i, k :: 0 <= i < 3 && 0 <= k < 3 ==> (g[i][k].content.Some? <==> i == 1 && k == 1)
    ensures g[1][1].content == Some(content)
    ensures forall i, k :: 0 <= i < 3 && 0 <= k < 3 ==>
      g[i][k].targetSize == Size(if k == 1 then Auto else Px(0), if i == 1 then Auto else Px(0))
  {
    var l, r, t, b := AsI32(left), AsI32(right), AsI32(top), AsI32(bottom);
    var midX, midY := WrapI32(WrapI32(-(l as int)) as int - r), WrapI32(WrapI32(-(t as int)) as int - b);
    var topRow := [
      Patch(IVec2(l, t), Size(Px(0), Px(0)), None),
      Patch(IVec2(midX, t), Size(Auto, Px(0)), None),
      Patch(IVec2(r, t), Size(Px(0), Px(0)), None)
    ];
    var middleRow := [
      Patch(IVec2(l, midY), Size(Px(0), Auto), None),
      Patch(IVec2(midX, midY), Size(Auto, Auto), Some(content)),
      Patch(IVec2(r, midY), Size(Px(0), Auto), None)
    ];
    var bottomRow := [
      Patch(IVec2(l, b), Size(Px(0), Px(0)), None),
      Patch(IVec2(midX, b), Size(Auto, Px(0)), None),
      Patch(IVec2(r, b), Size(Px(0), Px(0)), None)
    ];
    [topRow, middleRow, bottomRow]
  }

  /** The three spans a pair of margins cuts an extent into. */
  function Spans(first: nat, last: nat, total: nat): seq<nat>
    requires first + last <= total
  {
    [first, total - first - last, last]
  }

  /** The extents `by_margins_with_content` gives the patches along one axis, when
      the margins' sum stays below 2^31 (so that no cast or negation wraps). */
  function MarginOffsets(first: u32, last: u32): seq<i32>
    requires first + last < TWO_31
  {
    [first, -(first + last), last]
  }

  lemma MarginExtents<T>(top: u32, bottom: u32, left: u32, right: u32, content: T)
    requires left + right < TWO_31 && top + bottom < TWO_31
    ensures var g := MarginGrid(top, bottom, left, right, content);
      forall i, k :: 0 <= i < 3 && 0 <= k < 3 ==>
        g[i][k].originalSize == IVec2(MarginOffsets(left, right)[k], MarginOffsets(top, bottom)[i])
  {
    MarginAxis(left, right);
    MarginAxis(top, bottom);
  }

  /** The three extents of one axis resolve to the spans `first`, `total - first - last`, `last`. */
  lemma ResolveMarginOffsets(first: u32, last: u32, total: Extent3d, k: nat, y: i32)
    requires 0 < first && 0 < last && first + last <= total.width < TWO_31 && k < 3
    ensures ToWidth(IVec2(MarginOffsets(first, last)[k], y), total) == Spans(first, last, total.width)[k]
  {
  }

  lemma ResolveMarginOffsetsVertical(first: u32, last: u32, total: Extent3d, i: nat, x: i32)
    requires 0 < first && 0 < last && first + last <= total.height < TWO_31 && i < 3
    ensures ToHeight(IVec2(x, MarginOffsets(first, last)[i]), total) == Spans(first, last, total.height)[i]
  {
  }

  /** With positive margins that fit the image, patch `(i, k)` of the margin grid
      resolves to span `k` of the width and span `i` of the height. */
  lemma MarginCellSizes<T>(top: u32, bottom: u32, left: u32, right: u32, content: T, total: Extent3d)
    requires 0 < left && 0 < right && left + right <= total.width < TWO_31
    requires 0 < top && 0 < bottom && top + bottom <= total.height < TWO_31
    ensures var g := MarginGrid(top, bottom, left, right, content);
      forall i, k :: 0 <= i < 3 && 0 <= k < 3 ==>
        ToWidth(g[i][k].originalSize, total) == Spans(left, right, total.width)[k] &&
        ToHeight(g[i][k].originalSize, total) == Spans(top, bottom, total.height)[i]
  {
    var g: PatchGrid<T> := MarginGrid(top, bottom, left, right, content);
    MarginExtents(top, bottom, left, right, content);
    forall i, k | 0 <= i < 3 && 0 <= k < 3
      ensures ToWidth(g[i][k].originalSize, total) == Spans(left, right, total.width)[k]
      ensures ToHeight(g[i][k].originalSize, total) == Spans(top, bottom, total.height)[i]
    {
      ResolveMarginOffsets(left, right, total, k, MarginOffsets(top, bottom)[i]);
      ResolveMarginOffsetsVertical(top, bottom, total, i, MarginOffsets(left, right)[k]);
    }
  }

  /** With positive margins that fit the image, the cursors end exactly at the
      image extent: every row of the margin grid covers the width and the rows
      together cover the height. */
  lemma MarginTiling<T>(top: u32, bottom: u32, left: u32, right: u32, content: T, total: Extent3d)
    requires 0 < left && 0 < right && left + right <= total.width < TWO_31
    requires 0 < top && 0 < bottom && top + bottom <= total.height < TWO_31
    ensures var g := MarginGrid(top, bottom, left, right, content);
      NonEmptyRows(g) &&
      (forall i :: 0 <= i < 3 ==> ColumnLeft(g[i], total, 3) == total.width) &&
      RowTop(g, total, 3) == total.height
  {
    var g: PatchGrid<T> := MarginGrid(top, bottom, left, right, content);
    var xs, ys := Spans(left, right, total.width), Spans(top, bottom, total.height);
    MarginCellSizes(top, bottom, left, right, content, total);
    forall i | 0 <= i < 3
      ensures ColumnLeft(g[i], total, 3) == total.width
    {
      assert ColumnLeft(g[i], total, 1) == xs[0];
      assert ColumnLeft(g[i], total, 2) == xs[0] + xs[1];
    }
    assert RowTop(g, total, 1) == ys[0];
    assert RowTop(g, total, 2) == ys[0] + ys[1];
  }

  /** The casts of `by_margins_with_content` are exact for margins whose sum stays
      below 2^31. */
  lemma MarginAxis(first: u32, last: u32)
    requires first + last < TWO_31
    ensures AsI32(first) == first && AsI32(last) == last
    ensures WrapI32(WrapI32(-(AsI32(first) as int)) as int - AsI32(last)) == -(first + last)
  {
  }

  /** A zero margin is not a zero-width patch: the component 0 is non-positive,
      so it resolves to the whole image width. */
  lemma ZeroMarginSpansImage<T>(top: u32, bottom: u32, right: u32, content: T, total: Extent3d)
    requires total.width < TWO_31
    ensures var g := MarginGrid(top, bottom, 0, right, content);
      forall i :: 0 <= i < 3 ==> ToWidth(g[i][0].originalSize, total) == total.width
  {
  }

  /** An explicit row of extents 30, -10 and 10 on a 50-pixel-wide image resolves
      to widths 30, 40 and 10 (the -10 is taken from the whole width, not from what
      the other patches leave), and a height component of 0 to the full height. */
  lemma ExplicitRowResolution(height: u32)
    requires height < TWO_31
    ensures var total := Extent3d(50, height);
      var row := [IVec2(30, 0), IVec2(-10, 0), IVec2(10, 0)];
      ToWidth(row[0], total) == 30 && ToWidth(row[1], total) == 40 && ToWidth(row[2], total) == 10 &&
      forall k :: 0 <= k < 3 ==> ToHeight(row[k], total) == height
  {
  }
}
