# bevy_ninepatch core, modelled in Dafny

This project models the core of `bevy_ninepatch`, the file `src/ninepatch.rs`. The crate turns an image into a nine-patch UI element. The model covers four things:

- **The patch grid.** A `NinePatchBuilder` holds a row-major grid of patches. Each patch has an extent in the source image, a sizing rule per axis and an optional content tag.
  - In an extent, a positive component is taken as given. Any other component means "the image extent plus this value". `to_width` and `to_height` resolve it, with Rust's `as` casts and wrapping `i32` arithmetic (release build).
  - `by_margins_with_content` and `by_margins` derive the canonical 3x3 grid from four margins.
- **Slicing (`apply`).**
  - The cursors `accu_x` and `accu_y` walk the grid. `accu_x` restarts at each row. `accu_y` advances by the height of the row's first patch.
  - For each patch, the walk copies RGBA scanlines into a new image. It registers the images in the image table in row-major order.
  - It caches their handles together with the source handle, and reuses them when the same source comes back.
- **Layout (`add_with_parent`).** The nine-patch becomes a tree:
  - a column container on the parent entity
  - one row node per patch row
  - one image cell per patch, showing slice number `n` (counted row-major)
  - a sizing table for node sizes and flex weights
  - an unloaded content marker on tagged cells, which also adopt the content entity given for their tag.
- **End to end.** Lemmas about the margin-built nine-patch: that it can be sliced, the extents of its nine slices, and the sizing of its panel.

Modules, one per file:

| File | Module | Contents |
|---|---|---|
| `prim.dfy` | `Prim` | `i32`/`u32`/byte, the casts, wrap-around, `Option` |
| `grid.dfy` | `Grid` | row-major numbering and flattening of a ragged grid |
| `patches.dfy` | `Patches` | `Val`, `Patch`, `to_width`/`to_height`, cursors and rectangles, the margin grid |
| `slicing.dfy` | `Slicing` | `Image`, the image table `Assets`, scanline copy, the slicing walk |
| `builder.dfy` | `Builder` | the `NinePatchBuilder` class and `apply` |
| `layout.dfy` | `Layout` | `add_with_parent` |
| `canonical.dfy` | `Canonical` | the margin-built nine-patch end to end |

How images are represented:

- **Images.** An image is an extent and a byte sequence, four bytes per pixel, scanline after scanline.
- **Scanline offsets.** Offsets are written as sums of whole scanlines, `Area(stride, n)`. `Slicing.AreaIsProduct` proves that `Area(stride, n)` equals `stride * n`, and `Slicing.OffsetsAsAreas` converts the copy loop's own products to that form.
- **The image table.** It is a sequence indexed by handle. A handle is the image's position in the table.

Behaviour of the code worth noting:

- A row of extents `(30, 0), (-10, 0), (10, 0)` on a 50-pixel-wide image resolves to widths 30, **40** and 10. A non-positive component is added to the whole width, whatever the other patches take. A height component of 0 resolves to the full height (`Patches.ExplicitRowResolution`).
- The centre of the margin grid has the height rule `Auto`. The row 1 / column 1 case of `add_with_parent`, which keeps a `Px(0)` height, therefore never fires for it, and the centre cell is `Auto` high (`Canonical.MarginPanel`).
- A margin of 0 gives no zero-length patch. It resolves to the whole extent (`Patches.ZeroMarginSpansImage`).
- bevy's remaining `Val` variants, `Undefined` among them, become `Other`. The sizing table has no entry for them.

## Model

| member | source | states |
|---|---|---|
| Prim.WrapI32 | src/ninepatch.rs:160-173 | `i32` addition in a release build: the exact value when it is in range, otherwise the value moved back into range |
| Prim.WrapI32Congruent | src/ninepatch.rs:160-173 | the wrapped result differs from the exact one by a multiple of 2^32 |
| Prim.AsI32 | src/ninepatch.rs:164 | `u32 as i32` keeps values below 2^31; values from 2^31 up become negative |
| Prim.AsU32 | src/ninepatch.rs:164 | `i32 as u32` keeps non-negative values; negative ones become 2^31 or more |
| Prim.CastsRoundTrip | src/ninepatch.rs:160-173 | the two casts undo each other |
| Grid.FlatIndex | src/ninepatch.rs:278-365 | the row-major number of cell `(i, k)` lies between the cell counts of the rows before row `i` and up to row `i`, below the total |
| Grid.FlatIndexOrder | src/ninepatch.rs:193-222 | row-major numbering is strictly increasing in reading order |
| Grid.Unflatten | src/ninepatch.rs:278-365 | every number below the total is the number of exactly one cell |
| Grid.FlattenAt | src/ninepatch.rs:189-227 | the flattened grid holds cell `(i, k)` at position `FlatIndex(i, k)` |
| Patches.ToWidth | src/ninepatch.rs:160-165 | a positive component is the width; otherwise the width is image width + component, plus 2^32 when that is negative |
| Patches.ToHeight | src/ninepatch.rs:167-173 | the same for heights |
| Patches.ColumnLeft | src/ninepatch.rs:194-220 | the cursor `accu_x` before patch `k` of a row: 0 at the start of the row, and never smaller than at any earlier patch |
| Patches.RowTop | src/ninepatch.rs:192-222 | the cursor `accu_y` before row `i`, advanced by the height of each row's first patch only: 0 at the top, and never smaller than at any earlier row |
| Patches.PatchRect | src/ninepatch.rs:192-222 | a patch's rectangle starts at the cursors `accu_x`, `accu_y` and ends at the next `accu_x`; for the first patch of a row, at the next `accu_y` |
| Patches.MarginGrid | src/ninepatch.rs:79-157 | 3 rows of 3 patches; only the centre carries the content tag; corners are `Px(0)` x `Px(0)`, top/bottom edges `Auto` x `Px(0)`, left/right edges `Px(0)` x `Auto`, the centre `Auto` x `Auto` |
| Patches.MarginExtents | src/ninepatch.rs:86-150 | when the margins' sums are below 2^31, patch `(i, k)` has extent (`[l, -(l+r), r][k]`, `[t, -(t+b), b][i]`) |
| Patches.MarginAxis | src/ninepatch.rs:94 | `-(l as i32) - r as i32` is exactly `-(l + r)` when `l + r < 2^31` |
| Patches.ResolveMarginOffsets | src/ninepatch.rs:160-165 | the three horizontal extents resolve to `l`, `w - l - r`, `r` |
| Patches.ResolveMarginOffsetsVertical | src/ninepatch.rs:167-173 | the three vertical extents resolve to `t`, `h - t - b`, `b` |
| Patches.MarginCellSizes | src/ninepatch.rs:86-173 | with positive margins that fit, every row of the margin grid resolves to widths `l, w-l-r, r` and every column to heights `t, h-t-b, b` |
| Patches.MarginTiling | src/ninepatch.rs:192-222 | for the margin grid, `accu_x` ends at the image width in every row, and `accu_y` ends at the image height |
| Patches.ZeroMarginSpansImage | src/ninepatch.rs:88-164 | a zero left margin gives the left column the whole image width |
| Patches.ExplicitRowResolution | src/ninepatch.rs:160-173 | extents 30, -10, 10 on a 50-wide image resolve to 30, 40, 10; a 0 height resolves to the full height |
| Slicing.AreaIsProduct | src/ninepatch.rs:203-205 | a sum of `n` scanlines of `stride` bytes is `stride * n` |
| Slicing.WellFormedSize | src/ninepatch.rs:208-216 | an image is well formed exactly when it holds `width * height * 4` bytes |
| Slicing.Assets.Get | src/ninepatch.rs:184-186 | a handle finds an image exactly when it is below the table size, and finds the image at that position |
| Slicing.Assets.Add | src/ninepatch.rs:225 | adding appends the image and returns its position as the new handle |
| Slicing.Lines | src/ninepatch.rs:202-207 | the windows `lo .. lo + len` of `n` consecutive scanlines, concatenated: `n` windows of `len` bytes, `Area(len, n)` bytes in all |
| Slicing.Cut | src/ninepatch.rs:203-217 | the slice under a rectangle inside a well-formed source is a well-formed image of the rectangle's extent |
| Slicing.CutByte | src/ninepatch.rs:203-207 | byte `i` of scanline `row` of a slice is byte `x * 4 + i` of source scanline `y + row` |
| Slicing.CutByteAt | src/ninepatch.rs:203-207 | byte `(j - y) * w * 4 + b` of a slice is source byte `(x + j * W) * 4 + b`, the offset the loop reads |
| Slicing.OffsetsAsAreas | src/ninepatch.rs:204-205 | the loop's product offsets equal the scanline-sum offsets |
| Slicing.Sliceable | src/ninepatch.rs:196-222 | the condition under which the walk cannot index past the source: a well-formed source, non-empty rows, every patch rectangle inside the extent (a predicate; its consequences are `PatchInside` and `CursorsInside`) |
| Slicing.SliceGrid | src/ninepatch.rs:193-222 | one slice per patch, laid out like the patches; slice `(i, k)` is the cut of patch `(i, k)` |
| Slicing.GridSlices | src/ninepatch.rs:189-223 | the slices in row-major order, one per patch |
| Slicing.SliceAt | src/ninepatch.rs:189-223 | slice number `FlatIndex(i, k)` is the cut of patch `(i, k)` |
| Slicing.SliceByte | src/ninepatch.rs:195-219 | in the slice of patch `(i, k)`, byte `(j - start_y) * w * 4 + b` is source byte `(start_x + j * W) * 4 + b` |
| Slicing.PatchInside | src/ninepatch.rs:196-200 | the rectangle of a patch of a sliceable grid runs from the cursors over the resolved extent and fits in the source |
| Slicing.CursorsInside | src/ninepatch.rs:192-222 | on a sliceable grid `accu_x` never exceeds the image width and `accu_y` never exceeds the image height |
| Slicing.LineStart | src/ninepatch.rs:204-205 | `(x + j * W) * 4` is `j` scanlines of `W * 4` bytes plus `x * 4` |
| Slicing.LineWindow | src/ninepatch.rs:203-206 | the window `start_line .. end_line` of scanline `j` lies in the texture and has `(end_x - start_x) * 4` bytes |
| Slicing.CopyPatch | src/ninepatch.rs:202-207 | the loop over `j in start_y..end_y` produces the columns `start_x .. end_x` of those scanlines, one after the other |
| Slicing.SlicePatch | src/ninepatch.rs:196-218 | the image built for the patch at the cursors is its slice |
| Slicing.SliceRow | src/ninepatch.rs:194-221 | the inner loop pushes the slices of row `i`, left to right, after what was pushed before |
| Slicing.SliceTextures | src/ninepatch.rs:189-223 | the walk produces exactly the row-major sequence of slices |
| Builder.HandleRange | src/ninepatch.rs:224-227 | `n` consecutive handles from `start`, in order |
| Builder.AddAll | src/ninepatch.rs:224-227 | the images are appended to the table in order, and their handles are the consecutive positions after the old end |
| Builder.NinePatchBuilder.FromPatches | src/ninepatch.rs:50-56 | the given grid, with an empty cache |
| Builder.NinePatchBuilder.ByMarginsWithContent | src/ninepatch.rs:79-157 | the margin grid, with an empty cache |
| Builder.NinePatchBuilder.ByMargins | src/ninepatch.rs:61-75 | the margin grid with the default tag, with an empty cache |
| Builder.NinePatchBuilder.CacheHit | src/ninepatch.rs:190 | the cache is used exactly when it holds slices and they were cut from the requested handle (a predicate; `Apply`'s hit and miss clauses are stated with it) |
| Builder.NinePatchBuilder.Apply | src/ninepatch.rs:178-237 | hit: table and cache unchanged; miss: the table grows by exactly the row-major slices, and the cache holds their fresh handles and the source handle; always: patches unchanged, and the result holds the patches, the source extent and the cached handles |
| Builder.AppliedSliceAt | src/ninepatch.rs:189-227 | after a miss, the handle of patch `(i, k)` names its cut: `to_width` x `to_height` pixels, `to_width * to_height * 4` bytes |
| Layout.ResolveSizing | src/ninepatch.rs:282-292 | `Px(0)` gives the resolved length and `Px(i)` stays, both with weight 0; `Auto` gives weight 1; `Percent(x)` gives `Auto` with weight x/100 |
| Layout.CellHeight | src/ninepatch.rs:325-335 | `Px(0)` gives the resolved height, except at row 1 / column 1 where it stays `Px(0)`; `Percent` gives `Auto`; anything else is kept |
| Layout.RowSizing | src/ninepatch.rs:280-303 | a row is 100% wide and sized by the table on its first patch's height rule; an empty row is `(Px(0), 0)`; grow equals shrink |
| Layout.LayoutCell | src/ninepatch.rs:314-365 | the cell of patch `(i, k)` shows handle `splitted_texture[FlatIndex(i, k)]`; its width and weight are the sizing table applied to its width rule and resolved width; its height is `CellHeight` of its height rule, position and resolved height; grow equals shrink |
| Layout.LayoutRow | src/ninepatch.rs:293-364 | a row node has `Row` direction, stretched content and one cell per patch |
| Layout.LayoutCells | src/ninepatch.rs:313-365 | the cell loop with the running counter `n` builds exactly the cells of the row, and leaves `n` at the cell count up to that row |
| Layout.AddWithParent | src/ninepatch.rs:260-370 | the container keeps the caller's style, with `Column` direction and stretched content; row `i` is `LayoutRow(i)` |
| Layout.CellTexturesBijective | src/ninepatch.rs:278-365 | with the handles of a miss, distinct cells show distinct slices, and every fresh handle is shown by some cell |
| Layout.CellShowsItsSlice | src/ninepatch.rs:189-338 | after a miss, the image under cell `(i, k)`'s texture is the cut of patch `(i, k)` |
| Layout.ContentPlacement | src/ninepatch.rs:353-364 | a cell has a marker exactly when its patch is tagged; the marker is unloaded and names the parent; the cell adopts the mapped content entity exactly when there is one |
| Canonical.MarginGridSliceable | src/ninepatch.rs:86-222 | with positive margins that fit, every rectangle of the margin grid is inside the source |
| Canonical.MarginSlices | src/ninepatch.rs:79-222 | the margin grid slices into 9 images; image `3i + k` is `[l, w-l-r, r][k]` by `[t, h-t-b, b][i]` |
| Canonical.MarginPlaceable | src/ninepatch.rs:260-365 | the margin nine-patch can be laid out once it has 9 handles |
| Canonical.MarginPanel | src/ninepatch.rs:79-365 | margin panel: rows are `Px(t)`, `Auto`, `Px(b)` high with weights 0, 1, 0; cell `(i, k)` is `[Px(l), Auto, Px(r)][k]` wide with weight `[0, 1, 0][k]`; only the centre has the marker |
| Canonical.SquareMargins | src/ninepatch.rs:79-222 | margins of 20 on a 100 x 100 source give nine slices: 20 x 20 corners (0, 2, 6, 8), 60 x 20 top and bottom edges (1, 7), 20 x 60 left and right edges (3, 5) and a 60 x 60 centre (4) |

## Left out

- ECS plumbing is not modelled: `Commands`, entity spawning, `NodeBundle`/`ImageBundle` fields other than size, direction, stretch and flex weights, background colour, focus policy, `UiRect` margins, and the `TypeUuid`/`TypePath` registration. The layout is a returned tree of values, and rows have no entity ids.
- `Image::new`, the texture format and dimension, and `depth_or_array_layers` are not modelled. An image keeps only its width, height and bytes.
- Floating point is not modelled. `Val::Px` holds whole pixels and `Percent` whole percents. Flex weights are exact reals, so `x / 100.` is exact. Converting a `u32` length to `f32` (inexact above 2^24) is modelled as exact.
- Panics are modelled as preconditions: the `expect` on a missing texture handle, the `todo!()` arms for `Other` sizing rules, and an index past `splitted_texture` (`Layout.Placeable`), and `row[0]` on an empty row while slicing (the `NonEmptyRows` part of `Slicing.Sliceable`).
- Overflow panics of a debug build are not modelled. The `i32` arithmetic of `to_width`, `to_height` and the margin extents wraps as in a release build. The `u32` cursor sums of `apply` (`accu_x`, `accu_y`, `end_x`, `end_y`) and its `usize` byte offsets are unbounded integers in the model. Under `Slicing.Sliceable` every cursor stays at or below the image extent (`Slicing.CursorsInside`), and every byte offset at or below the buffer length (`Slicing.LineWindow`), so for images whose byte count fits in `usize` none of these sums would wrap.
- `T::default()` has no counterpart. `ByMargins` takes the default tag as a parameter.
- The plugin that schedules `apply` and `add_with_parent`, and the example applications, are not part of this model.
- Builder.NinePatchBuilder.Apply: on a miss it requires every patch rectangle to lie inside a well-formed source (`Slicing.Sliceable`). The code only panics when a copied byte range leaves the buffer. A rectangle that runs past the right edge, but not past the end of the data, reads bytes of the next scanline, and that behaviour is not modelled.
- Slicing.SliceTextures: has the same precondition as `Apply`, for the same reason.
- Patches.ToWidth: its contract states the result only for image widths below 2^31. The body also models the wrap of `total.width as i32` above that.
- Patches.ToHeight: has the same limit, for heights.
- Patches.MarginExtents: is stated only for margin sums below 2^31. Larger margins wrap in `-(l as i32) - r as i32`, which `MarginGrid` models but no lemma describes.
- The cache key is handle equality. `Handle` clones and weak handles (`clone_weak`) are plain numbers.
