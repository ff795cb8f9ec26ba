/** `add_with_parent`: the UI tree a nine-patch becomes. The parent node becomes a
    column container holding one row node per patch row; each row holds one image
    cell per patch, showing that patch's slice. Cells tagged with content carry an
    unloaded content marker and adopt the content entity supplied for their tag.
    Node sizes and flex weights come from each patch's sizing rule. */
module Layout {
  import opened Prim
  import opened Grid
  import opened Patches
  import opened Slicing
  import opened Builder

  type Entity = nat

  datatype FlexDirection = Row | Column

  /** The size and flex fields the nine-patch sets on a node; flex weights are
      exact reals. */
  datatype Sizing = Sizing(width: Val, height: Val, grow: real, shrink: real)

  /** `NinePatchContent`: the tag of a content slot, whether its content has been
      placed yet, and the entity the nine-patch was added to. */
  datatype ContentMarker<T> = ContentMarker(content: T, loaded: bool, parent: Entity)

  /** An image cell: the slice it shows, its sizing, its content marker (if the
      patch is tagged) and the entities re-parented under it. */
  datatype Cell<T> = Cell(texture: Handle, sizing: Sizing, marker: Option<ContentMarker<T>>, children: seq<Entity>)

  /** A row node: `Row` direction, stretched content, its cells left to right. */
  datatype RowNode<T> = RowNode(sizing: Sizing, direction: FlexDirection, stretch: bool, cells: seq<Cell<T>>)

  /** The node inserted on the parent entity: the caller's style with a `Column`
      direction and stretched content, and the row nodes top to bottom. */
  datatype Panel<S, T> = Panel(parent: Entity, style: S, direction: FlexDirection, stretch: bool, rows: seq<RowNode<T>>)

  /** The sizing table shared by row heights and cell widths. A rule `Px(0)` means
      "the patch's resolved length in the source", `Px(i)` is fixed, `Auto` grows
      with weight 1 and `Percent(x)` grows with weight x/100. `Other` rules have no
      entry (the source stops with `todo!`). */
  function ResolveSizing(rule: Val, original: u32): (r: (Val, real))
    requires !rule.Other?
    ensures r.0.Px? <==> rule.Px?
    ensures r.0.Px? ==> r.1 == 0.0
    ensures rule.Px? ==> r.0 == if rule.px == 0 then Px(original) else rule
    ensures !rule.Px? ==> r.0 == Auto
    ensures rule.Auto? ==> r.1 == 1.0
    ensures rule.Percent? ==> r.1 * 100.0 == rule.pct as real
  {
    match rule
    case Px(value) => if value == 0 then (Px(original), 0.0) else (Px(value), 0.0)
    case Auto => (Auto, 1.0)
    case Percent(x) => (Auto, x as real / 100.0)
  }

  /** The height of a cell: `Px(0)` is the patch's resolved height except in the
      cell at row 1, column 1, which keeps `Px(0)`; `Percent` becomes `Auto`; any
      other rule is kept as given. */
  function CellHeight(rule: Val, i: nat, k: nat, original: u32): (h: Val)
    ensures rule != Px(0) && !rule.Percent? ==> h == rule
    ensures rule.Percent? ==> h == Auto
    ensures rule == Px(0) ==> h == if i == 1 && k == 1 then Px(0) else Px(original)
  {
    match rule
    case Px(value) =>
      if value == 0 then (if i == 1 && k == 1 then Px(value) else Px(original)) else rule
    case Percent(_) => Auto
    case _ => rule
  }

  /** The layout never panics: every sizing rule it looks up in the table has an
      entry, and there is a slice handle for every patch. */
  predicate Placeable<T>(np: NinePatch<T>) {
    var rows := np.patches;
    (forall i :: 0 <= i < |rows| && |rows[i]| > 0 ==> !rows[i][0].targetSize.height.Other?) &&
    (forall i, k :: 0 <= i < |rows| && 0 <= k < |rows[i]| ==> !rows[i][k].targetSize.width.Other?) &&
    TotalCells(rows) <= |np.splittedTexture|
  }

  /** Height and weight of row `i`: the table applied to the height rule and
      resolved height of the row's first patch; `(Px(0), 0)` for an empty row. */
  function RowSizing<T>(np: NinePatch<T>, i: nat): (s: Sizing)
    requires Placeable(np) && i < |np.patches|
    ensures s.width == Percent(100) && s.grow == s.shrink
    ensures |np.patches[i]| == 0 ==> s == Sizing(Percent(100), Px(0), 0.0, 0.0)
    ensures |np.patches[i]| > 0 ==> var p := np.patches[i][0];
      (s.height, s.grow) == ResolveSizing(p.targetSize.height, ToHeight(p.originalSize, np.textureSize))
  {
    var row := np.patches[i];
    var (height, growth) :=
      if |row| > 0 then ResolveSizing(row[0].targetSize.height, ToHeight(row[0].originalSize, np.textureSize))
      else (Px(0), 0.0);
    Sizing(Percent(100), height, growth, growth)
  }

  /** The cell of patch `k` of row `i`: the table applied to its width rule, its
      height by `CellHeight`, the slice handle numbered row-major, and for a tagged
      patch an unloaded marker plus the content entity mapped to the tag, if any. */
  function LayoutCell<T(==)>(np: NinePatch<T>, i: nat, k: nat, parent: Entity, contents: Option<map<T, Entity>>): (c: Cell<T>)
    requires Placeable(np) && i < |np.patches| && k < |np.patches[i]|
    ensures FlatIndex(np.patches, i, k) < |np.splittedTexture|
    ensures c.texture == np.splittedTexture[FlatIndex(np.patches, i, k)]
    ensures var p := np.patches[i][k];
      (c.sizing.width, c.sizing.grow) == ResolveSizing(p.targetSize.width, ToWidth(p.originalSize, np.textureSize)) &&
      c.sizing.height == CellHeight(p.targetSize.height, i, k, ToHeight(p.originalSize, np.textureSize))
    ensures c.sizing.grow == c.sizing.shrink
  {
    var p := np.patches[i][k];
    var (width, growth) := ResolveSizing(p.targetSize.width, ToWidth(p.originalSize, np.textureSize));
    var height := CellHeight(p.targetSize.height, i, k, ToHeight(p.originalSize, np.textureSize));
    var marker := if p.content.Some? then Some(ContentMarker(p.content.value, false, parent)) else None;
    var children :=
      if p.content.Some? && contents.Some? && p.content.value in contents.value
      then [contents.value[p.content.value]] else [];
    Cell(np.splittedTexture[FlatIndex(np.patches, i, k)], Sizing(width, height, growth, growth), marker, children)
  }

  /** The row node of row `i`. */
  function LayoutRow<T(==)>(np: NinePatch<T>, i: nat, parent: Entity, contents: Option<map<T, Entity>>): (r: RowNode<T>)
    requires Placeable(np) && i < |np.patches|
    ensures r.direction == Row && r.stretch && r.sizing == RowSizing(np, i)
    ensures |r.cells| == |np.patches[i]|
    ensures forall k :: 0 <= k < |np.patches[i]| ==> r.cells[k] == LayoutCell(np, i, k, parent, contents)
  {
    RowNode(RowSizing(np, i), Row, true,
      seq(|np.patches[i]|, k requires 0 <= k < |np.patches[i]| => LayoutCell(np, i, k, parent, contents)))
  }

  /** The cells of row `i`, the texture counter `n` running on from the cells of
      the rows above. */
  method LayoutCells<T(==)>(np: NinePatch<T>, i: nat, n0: nat, parent: Entity, contents: Option<map<T, Entity>>)
    returns (cells: seq<Cell<T>>, n: nat)
    requires Placeable(np) && i < |np.patches| && n0 == CellsBefore(np.patches, i)
    ensures cells == LayoutRow(np, i, parent, contents).cells
    ensures n == CellsBefore(np.patches, i + 1)
  {
    var row := np.patches[i];
    var size := np.textureSize;
    cells := [];
    n := n0;
    var k := 0;
    while k < |row|
      invariant k <= |row| && n == CellsBefore(np.patches, i) + k
      invariant |cells| == k
      invariant forall k' :: 0 <= k' < k ==> cells[k'] == LayoutCell(np, i, k', parent, contents)
    {
      var item := row[k];
      var (width, growth) := ResolveSizing(item.targetSize.width, ToWidth(item.originalSize, size));
      var height := CellHeight(item.targetSize.height, i, k, ToHeight(item.originalSize, size));
      assert n == FlatIndex(np.patches, i, k);
      var marker: Option<ContentMarker<T>> := None;
      var children: seq<Entity> := [];
      if item.content.Some? {
        marker := Some(ContentMarker(item.content.value, false, parent));
        if contents.Some? && item.content.value in contents.value {
          children := [contents.value[item.content.value]];
        }
      }
      cells := cells + [Cell(np.splittedTexture[n], Sizing(width, height, growth, growth), marker, children)];
      n := n + 1;
      k := k + 1;
    }
  }

  /** `add_with_parent`: the container on the parent, then for each patch row its
      row node and the row's cells, the texture counter `n` advancing by one per
      cell across the whole grid. */
  method AddWithParent<S, T(==)>(np: NinePatch<T>, parent: Entity, style: S, contents: Option<map<T, Entity>>)
    returns (panel: Panel<S, T>)
    requires Placeable(np)
    ensures panel.parent == parent && panel.style == style && panel.direction == Column && panel.stretch
    ensures |panel.rows| == |np.patches|
    ensures forall i :: 0 <= i < |np.patches| ==> panel.rows[i] == LayoutRow(np, i, parent, contents)
  {
    var rows: seq<RowNode<T>> := [];
    var n := 0;
    var rowIndex := 0;
    while rowIndex < |np.patches|
      invariant rowIndex <= |np.patches| && n == CellsBefore(np.patches, rowIndex)
      invariant |rows| == rowIndex
      invariant forall i :: 0 <= i < rowIndex ==> rows[i] == LayoutRow(np, i, parent, contents)
    {
      var sizing := RowSizing(np, rowIndex);
      var cells;
      cells, n := LayoutCells(np, rowIndex, n, parent, contents);
      rows := rows + [RowNode(sizing, Row, true, cells)];
      rowIndex := rowIndex + 1;
    }
    panel := Panel(parent, style, Column, true, rows);
  }

  /** With the handles `apply` hands out on a miss (`start, start + 1, ...`), the
      cells show pairwise different slices, and every one of those handles is shown
      by a cell (by exactly one, given the first property). */
  lemma CellTexturesBijective<T>(np: NinePatch<T>, start: nat, parent: Entity, contents: Option<map<T, Entity>>)
    requires Placeable(np) && np.splittedTexture == HandleRange(start, TotalCells(np.patches))
    ensures forall i, k, i', k' ::
      0 <= i < |np.patches| && 0 <= k < |np.patches[i]| && 0 <= i' < |np.patches| && 0 <= k' < |np.patches[i']| &&
      (i, k) != (i', k') ==>
        LayoutCell(np, i, k, parent, contents).texture != LayoutCell(np, i', k', parent, contents).texture
    ensures forall m :: 0 <= m < TotalCells(np.patches) ==>
      np.splittedTexture[m] == start + m &&
      exists i, k :: 0 <= i < |np.patches| && 0 <= k < |np.patches[i]| &&
        LayoutCell(np, i, k, parent, contents).texture == np.splittedTexture[m]
  {
    var rows := np.patches;
    forall i, k, i', k' |
      0 <= i < |rows| && 0 <= k < |rows[i]| && 0 <= i' < |rows| && 0 <= k' < |rows[i']| && (i, k) != (i', k')
      ensures LayoutCell(np, i, k, parent, contents).texture != LayoutCell(np, i', k', parent, contents).texture
    {
      if i < i' || (i == i' && k < k') {
        FlatIndexOrder(rows, i, k, i', k');
      } else {
        FlatIndexOrder(rows, i', k', i, k);
      }
    }
    forall m | 0 <= m < TotalCells(rows)
      ensures exists i, k ::
        0 <= i < |rows| && 0 <= k < |rows[i]| && LayoutCell(np, i, k, parent, contents).texture == np.splittedTexture[m]
    {
      var i, k := Unflatten(rows, m);
      assert LayoutCell(np, i, k, parent, contents).texture == np.splittedTexture[m];
    }
  }

  /** `apply` then `add_with_parent`: after a cache miss on a source `src`, the
      image under the texture of cell `(i, k)` is the cut of patch `k` of row `i`. */
  lemma CellShowsItsSlice<T>(images: seq<Image>, rows: PatchGrid<T>, src: Image, i: nat, k: nat,
                                parent: Entity, contents: Option<map<T, Entity>>)
    requires Sliceable(rows, src) && i < |rows| && k < |rows[i]|
    requires Placeable(NinePatch(rows, src.size, HandleRange(|images|, TotalCells(rows))))
    ensures var np := NinePatch(rows, src.size, HandleRange(|images|, TotalCells(rows)));
      var table := images + GridSlices(rows, src);
      var h := LayoutCell(np, i, k, parent, contents).texture;
      h < |table| && table[h] == Cut(src, PatchRect(rows, src.size, i, k))
  {
    AppliedSliceAt(images, rows, src, i, k);
  }

  /** A cell carries a content marker exactly when its patch is tagged; the marker
      is unloaded and names the parent; the cell adopts the entity `contents` maps
      the tag to, and nothing otherwise. */
  lemma ContentPlacement<T>(np: NinePatch<T>, i: nat, k: nat, parent: Entity, contents: Option<map<T, Entity>>)
    requires Placeable(np) && i < |np.patches| && k < |np.patches[i]|
    ensures var c := LayoutCell(np, i, k, parent, contents);
      var tag := np.patches[i][k].content;
      (c.marker.Some? <==> tag.Some?) &&
      (tag.Some? ==> c.marker.value == ContentMarker(tag.value, false, parent)) &&
      (|c.children| > 0 <==> tag.Some? && contents.Some? && tag.value in contents.value) &&
      (|c.children| > 0 ==> c.children == [contents.value[tag.value]])
  {
  }
}
