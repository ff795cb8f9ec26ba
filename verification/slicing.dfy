/** Cutting the source image into one RGBA buffer per patch, and the image table
    the buffers are registered in. */
module Slicing {
  import opened Prim
  import opened Grid
  import opened Patches

  /** An RGBA image: its extent and its bytes, four per pixel, row by row. */
  datatype Image = Image(size: Extent3d, data: seq<byte>)

  /** `rows` times `width`, added up one row at a time. Byte offsets into an image
      are sums of whole scanlines; this form keeps them linear for the solver
      (`AreaIsProduct` relates it to the product). */
  function Area(width: nat, rows: nat): nat {
    if rows == 0 then 0 else Area(width, rows - 1) + width
  }

  lemma {:induction false} AreaIsProduct(width: nat, rows: nat)
    ensures Area(width, rows) == width * rows
  {
    if rows > 0 {
      AreaIsProduct(width, rows - 1);
      assert width * (rows - 1) + width == width * rows;
    }
  }

  lemma {:induction false} AreaAdd(width: nat, a: nat, b: nat)
    ensures Area(width, a) + Area(width, b) == Area(width, a + b)
    decreases b
  {
    if b > 0 {
      AreaAdd(width, a, b - 1);
      assert a + b - 1 == a + (b - 1);
    }
  }

  /** Scanlines `y0 .. y0 + n` lie inside a buffer of `height` scanlines. */
  lemma {:induction false} RowsFit(stride: nat, y0: nat, n: nat, height: nat)
    requires y0 + n <= height
    ensures Area(stride, y0) + Area(stride, n) <= Area(stride, height)
    decreases height
  {
    if height == y0 + n {
      AreaAdd(stride, y0, n);
    } else {
      RowsFit(stride, y0, n, height - 1);
    }
  }

  /** An image holds four bytes for each of its pixels, scanline after scanline. */
  predicate WellFormed(img: Image) {
    |img.data| == Area(img.size.width * 4, img.size.height)
  }

  lemma WellFormedSize(img: Image)
    ensures WellFormed(img) <==> |img.data| == img.size.width * img.size.height * 4
  {
    var w: nat, h: nat := img.size.width, img.size.height;
    AreaIsProduct(w * 4, h);
    assert (w * 4) * h == w * h * 4;
  }

  /** A handle is the image's index in the table. */
  type Handle = nat

  /** The image table (`Assets<Image>`); only adding an image is modelled. */
  class Assets {
    var images: seq<Image>

    constructor (images: seq<Image>)
      ensures this.images == images
    {
      this.images := images;
    }

    function Get(handle: Handle): (r: Option<Image>)
      reads this
      ensures r.Some? <==> handle < |images|
      ensures r.Some? ==> r.value == images[handle]
    {
      if handle < |images| then Some(images[handle]) else None
    }

    /** Registers an image under a fresh handle. */
    method Add(image: Image) returns (handle: Handle)
      modifies this
      ensures images == old(images) + [image]
      ensures handle == |old(images)| && Get(handle) == Some(image)
    {
      handle := |images|;
      images := images + [image];
    }
  }

  /** Bytes `lo .. lo + len` of each of `n` scanlines of `stride` bytes, the first
      scanline starting at byte `base`, one scanline after the other: `n` windows
      of `len` bytes each. */
  function Lines(data: seq<byte>, stride: nat, lo: nat, len: nat, base: nat, n: nat): (s: seq<byte>)
    requires lo + len <= stride && base + Area(stride, n) <= |data|
    ensures |s| == Area(len, n)
    decreases n
  {
    if n == 0 then []
    else data[base + lo .. base + lo + len] + Lines(data, stride, lo, len, base + stride, n - 1)
  }

  lemma LinesUncons(data: seq<byte>, stride: nat, lo: nat, len: nat, base: nat, n: nat)
    requires lo + len <= stride && base + Area(stride, n) <= |data| && 0 < n
    ensures base + stride + Area(stride, n - 1) <= |data|
    ensures |data[base + lo .. base + lo + len]| == len
    ensures Lines(data, stride, lo, len, base, n) ==
      data[base + lo .. base + lo + len] + Lines(data, stride, lo, len, base + stride, n - 1)
  {
  }

  lemma AppendLeft(a: seq<byte>, b: seq<byte>, k: nat)
    requires k < |a|
    ensures (a + b)[k] == a[k]
  {
  }

  lemma AppendRight(a: seq<byte>, b: seq<byte>, k: nat)
    requires k < |b|
    ensures |a| + k < |a + b| && (a + b)[|a| + k] == b[k]
  {
  }

  lemma LinesByteFirst(data: seq<byte>, stride: nat, lo: nat, len: nat, base: nat, n: nat, i: nat)
    requires lo + len <= stride && base + Area(stride, n) <= |data|
    requires 0 < n && i < len
    ensures Area(len, 0) + i < |Lines(data, stride, lo, len, base, n)|
    ensures base + Area(stride, 0) + lo + i < |data|
    ensures Lines(data, stride, lo, len, base, n)[Area(len, 0) + i] == data[base + Area(stride, 0) + lo + i]
  {
    LinesUncons(data, stride, lo, len, base, n);
    AppendLeft(data[base + lo .. base + lo + len], Lines(data, stride, lo, len, base + stride, n - 1), i);
  }

  lemma LinesByteNext(data: seq<byte>, stride: nat, lo: nat, len: nat, base: nat, n: nat, row: nat, i: nat)
    requires lo + len <= stride && base + Area(stride, n) <= |data|
    requires 0 < row < n && i < len
    requires base + stride + Area(stride, n - 1) <= |data|
    requires Area(len, row - 1) + i < |Lines(data, stride, lo, len, base + stride, n - 1)|
    requires base + stride + Area(stride, row - 1) + lo + i < |data|
    requires Lines(data, stride, lo, len, base + stride, n - 1)[Area(len, row - 1) + i] ==
      data[base + stride + Area(stride, row - 1) + lo + i]
    ensures Area(len, row) + i < |Lines(data, stride, lo, len, base, n)|
    ensures base + Area(stride, row) + lo + i < |data|
    ensures Lines(data, stride, lo, len, base, n)[Area(len, row) + i] == data[base + Area(stride, row) + lo + i]
  {
    LinesUncons(data, stride, lo, len, base, n);
    AppendRight(data[base + lo .. base + lo + len], Lines(data, stride, lo, len, base + stride, n - 1), Area(len, row - 1) + i);
  }

  /** Byte `i` of copied scanline `row` is byte `lo + i` of source scanline `row`. */
  lemma {:induction false} LinesByte(data: seq<byte>, stride: nat, lo: nat, len: nat, base: nat, n: nat, row: nat, i: nat)
    requires lo + len <= stride && base + Area(stride, n) <= |data|
    requires row < n && i < len
    ensures Area(len, row) + i < |Lines(data, stride, lo, len, base, n)|
    ensures base + Area(stride, row) + lo + i < |data|
    ensures Lines(data, stride, lo, len, base, n)[Area(len, row) + i] == data[base + Area(stride, row) + lo + i]
    decreases n
  {
    if row == 0 {
      LinesByteFirst(data, stride, lo, len, base, n, i);
    } else {
      LinesUncons(data, stride, lo, len, base, n);
      LinesByte(data, stride, lo, len, base + stride, n - 1, row - 1, i);
      LinesByteNext(data, stride, lo, len, base, n, row, i);
    }
  }

  /** Copying one more scanline appends it at the end. */
  lemma {:induction false} LinesSnoc(data: seq<byte>, stride: nat, lo: nat, len: nat, base: nat, n: nat)
    requires lo + len <= stride && base + Area(stride, n + 1) <= |data|
    ensures base + Area(stride, n) + lo + len <= |data|
    ensures Lines(data, stride, lo, len, base, n + 1) ==
      Lines(data, stride, lo, len, base, n) + data[base + Area(stride, n) + lo .. base + Area(stride, n) + lo + len]
    decreases n
  {
    if n > 0 {
      LinesSnoc(data, stride, lo, len, base + stride, n - 1);
      assert n - 1 + 1 == n;
      AreaAdd(stride, 1, n - 1);
    }
  }

  /** The slice of `src` under rectangle `r`: a well-formed image of the
      rectangle's extent. */
  function Cut(src: Image, r: Rect): (img: Image)
    requires WellFormed(src) && Inside(r, src.size)
    ensures img.size == Extent3d(r.w, r.h) && WellFormed(img)
  {
    var stride: nat := src.size.width * 4;
    RowsFit(stride, r.y, r.h, src.size.height);
    Image(Extent3d(r.w, r.h), Lines(src.data, stride, r.x * 4, r.w * 4, Area(stride, r.y), r.h))
  }

  /** Byte `i` of scanline `row` of a slice is byte `r.x * 4 + i` of scanline
      `r.y + row` of the source: offsets count whole scanlines, of `r.w * 4` bytes
      in the slice and of `W * 4` bytes in a source `W` pixels wide. */
  lemma CutByte(src: Image, r: Rect, row: nat, i: nat)
    requires WellFormed(src) && Inside(r, src.size)
    requires row < r.h && i < r.w * 4
    ensures Area(r.w * 4, row) + i < |Cut(src, r).data|
    ensures Area(src.size.width * 4, r.y) + Area(src.size.width * 4, row) + r.x * 4 + i < |src.data|
    ensures Cut(src, r).data[Area(r.w * 4, row) + i] ==
      src.data[Area(src.size.width * 4, r.y) + Area(src.size.width * 4, row) + r.x * 4 + i]
  {
    var stride: nat := src.size.width * 4;
    RowsFit(stride, r.y, r.h, src.size.height);
    var data := Lines(src.data, stride, r.x * 4, r.w * 4, Area(stride, r.y), r.h);
    CopyIsCut(src, r, data);
    LinesByte(src.data, stride, r.x * 4, r.w * 4, Area(stride, r.y), r.h, row, i);
  }

  /** The scanlines the copy loop reads are the scanlines of the rectangle:
      `Image(r.w x r.h, copied bytes)` is the cut. */
  lemma CopyIsCut(src: Image, r: Rect, data: seq<byte>)
    requires WellFormed(src) && Inside(r, src.size)
    requires Area(src.size.width * 4, r.y) + Area(src.size.width * 4, r.h) <= |src.data|
    requires data == Lines(src.data, src.size.width * 4, r.x * 4, r.w * 4, Area(src.size.width * 4, r.y), r.h)
    ensures Image(Extent3d(r.w, r.h), data) == Cut(src, r)
  {
  }

  /** Slicing does not panic: the source is well formed, every row has a first
      patch to advance the vertical cursor by, and every patch rectangle lies
      inside the source. */
  predicate Sliceable<T>(rows: PatchGrid<T>, src: Image) {
    WellFormed(src) && NonEmptyRows(rows) &&
    forall i, k :: 0 <= i < |rows| && 0 <= k < |rows[i]| ==> Inside(PatchRect(rows, src.size, i, k), src.size)
  }

  /** The slices laid out like the patches: cell `(i, k)` is the cut of patch `k`
      of row `i`. */
  function SliceGrid<T>(rows: PatchGrid<T>, src: Image): (sg: seq<seq<Image>>)
    requires Sliceable(rows, src)
    ensures SameShape(sg, rows)
    ensures forall i, k :: 0 <= i < |rows| && 0 <= k < |rows[i]| ==> sg[i][k] == Cut(src, PatchRect(rows, src.size, i, k))
  {
    seq(|rows|, i requires 0 <= i < |rows| =>
      seq(|rows[i]|, k requires 0 <= k < |rows[i]| => Cut(src, PatchRect(rows, src.size, i, k))))
  }

  /** All slices of the grid, row-major: the images `apply` registers, in order. */
  function GridSlices<T>(rows: PatchGrid<T>, src: Image): (s: seq<Image>)
    requires Sliceable(rows, src)
    ensures |s| == TotalCells(rows)
  {
    SameShapeCells(SliceGrid(rows, src), rows, |rows|);
    Flatten(SliceGrid(rows, src))
  }

  /** Slice number `FlatIndex(rows, i, k)` is the cut of patch `k` of row `i`. */
  lemma SliceAt<T>(rows: PatchGrid<T>, src: Image, i: nat, k: nat)
    requires Sliceable(rows, src) && i < |rows| && k < |rows[i]|
    ensures FlatIndex(rows, i, k) < |GridSlices(rows, src)|
    ensures GridSlices(rows, src)[FlatIndex(rows, i, k)] == Cut(src, PatchRect(rows, src.size, i, k))
  {
    var sg := SliceGrid(rows, src);
    SameShapeCells(sg, rows, i);
    FlattenAt(sg, i, k);
  }

  /** The same in the loop's own offsets: byte `dst = (j - y) * w * 4 + b` of a
      slice of rectangle `(x, y, w, h)` is byte `src = (x + j * W) * 4 + b` of the
      source. */
  lemma CutByteAt(src: Image, r: Rect, j: nat, b: nat, dst: nat, from: nat)
    requires WellFormed(src) && Inside(r, src.size)
    requires r.y <= j < r.y + r.h && b < r.w * 4
    requires dst == (j - r.y) * r.w * 4 + b && from == (r.x + j * src.size.width) * 4 + b
    ensures dst < |Cut(src, r).data| && from < |src.data| && Cut(src, r).data[dst] == src.data[from]
  {
    OffsetsAsAreas(src.size.width, r.x, r.y, r.w, j, b, dst, from);
    CutByte(src, r, j - r.y, b);
  }

  /** The loop's offsets in scanline sums. */
  lemma OffsetsAsAreas(width: nat, x: nat, y: nat, w: nat, j: nat, b: nat, dst: nat, from: nat)
    requires y <= j && dst == (j - y) * w * 4 + b && from == (x + j * width) * 4 + b
    ensures dst == Area(w * 4, j - y) + b
    ensures from == Area(width * 4, y) + Area(width * 4, j - y) + x * 4 + b
  {
    AreaIsProduct(w * 4, j - y);
    assert (w * 4) * (j - y) == (j - y) * w * 4;
    LineStart(width, y, j, x);
  }

  /** Byte `b` of scanline `j` of the slice of patch `(i, k)`, at the offset `dst`
      the copy loop writes it to, is the source byte at the offset `from` the loop
      reads it from. */
  lemma SliceByte<T>(rows: PatchGrid<T>, src: Image, i: nat, k: nat, j: nat, b: nat, dst: nat, from: nat)
    requires Sliceable(rows, src) && i < |rows| && k < |rows[i]|
    requires var r := PatchRect(rows, src.size, i, k);
      r.y <= j < r.y + r.h && b < r.w * 4 &&
      dst == (j - r.y) * r.w * 4 + b && from == (r.x + j * src.size.width) * 4 + b
    ensures var slice := GridSlices(rows, src)[FlatIndex(rows, i, k)];
      dst < |slice.data| && from < |src.data| && slice.data[dst] == src.data[from]
  {
    SliceAt(rows, src, i, k);
    CutByteAt(src, PatchRect(rows, src.size, i, k), j, b, dst, from);
  }

  /** The rectangle of a patch of a sliceable grid starts at the cursors, has the
      patch's resolved extent and fits in the source. */
  lemma PatchInside<T>(rows: PatchGrid<T>, src: Image, i: nat, k: nat)
    requires Sliceable(rows, src) && i < |rows| && k < |rows[i]|
    ensures var r := PatchRect(rows, src.size, i, k);
      r == Rect(ColumnLeft(rows[i], src.size, k), RowTop(rows, src.size, i),
                ToWidth(rows[i][k].originalSize, src.size), ToHeight(rows[i][k].originalSize, src.size)) &&
      r.x + r.w <= src.size.width && r.y + r.h <= src.size.height
  {
    assert Inside(PatchRect(rows, src.size, i, k), src.size);
  }

  /** On a sliceable grid the cursors never pass the source's extent: `accu_x`
      stays within the width along every row and `accu_y` within the height down
      the grid, so none of their `u32` sums can wrap. */
  lemma CursorsInside<T>(rows: PatchGrid<T>, src: Image, i: nat, k: nat)
    requires Sliceable(rows, src) && i < |rows| && k <= |rows[i]|
    ensures ColumnLeft(rows[i], src.size, k) <= src.size.width
    ensures RowTop(rows, src.size, i + 1) <= src.size.height
  {
    assert Inside(PatchRect(rows, src.size, i, 0), src.size);
    if k > 0 {
      assert Inside(PatchRect(rows, src.size, i, k - 1), src.size);
    }
  }

  /** Where the source loop starts copying scanline `j`: `(x + j * width) * 4`. */
  lemma LineStart(width: nat, y0: nat, j: nat, x: nat)
    requires y0 <= j
    ensures (x + j * width) * 4 == Area(width * 4, y0) + Area(width * 4, j - y0) + x * 4
  {
    AreaAdd(width * 4, y0, j - y0);
    AreaIsProduct(width * 4, j);
    assert (width * 4) * j == j * width * 4;
  }

  /** The byte window the loop copies for scanline `j` of a patch, in the
      scanline-sum form of `Lines`, lies inside the texture. */
  lemma LineWindow(width: nat, height: nat, startX: nat, endX: nat, startY: nat, j: nat)
    requires startX <= endX <= width && startY <= j < height
    ensures (startX + j * width) * 4 == Area(width * 4, startY) + Area(width * 4, j - startY) + startX * 4
    ensures (endX + j * width) * 4 == Area(width * 4, startY) + Area(width * 4, j - startY) + startX * 4 + (endX - startX) * 4
    ensures Area(width * 4, startY) + Area(width * 4, (j - startY) + 1) <= Area(width * 4, height)
  {
    LineStart(width, startY, j, startX);
    LineStart(width, startY, j, endX);
    RowsFit(width * 4, startY, j - startY + 1, height);
  }

  /** The scanline copy of one patch: `for j in start_y..end_y` appends the bytes
      of columns `start_x .. end_x` of scanline `j` of the texture data. */
  method CopyPatch(textureData: seq<byte>, width: nat, height: nat, startX: nat, endX: nat, startY: nat, endY: nat)
    returns (data: seq<byte>)
    requires |textureData| == Area(width * 4, height)
    requires startX <= endX <= width && startY <= endY <= height
    ensures Area(width * 4, startY) + Area(width * 4, endY - startY) <= |textureData|
    ensures data == Lines(textureData, width * 4, startX * 4, (endX - startX) * 4, Area(width * 4, startY), endY - startY)
  {
    ghost var stride: nat := width * 4;
    ghost var base := Area(stride, startY);
    RowsFit(stride, startY, endY - startY, height);
    data := [];
    var j := startY;
    ghost var n: nat := 0;
    while j < endY
      invariant startY <= j <= endY && n == j - startY
      invariant base + Area(stride, n) <= |textureData|
      invariant data == Lines(textureData, stride, startX * 4, (endX - startX) * 4, base, n)
    {
      LineWindow(width, height, startX, endX, startY, j);
      LinesSnoc(textureData, stride, startX * 4, (endX - startX) * 4, base, n);
      var startLine := (startX + j * width) * 4;
      var endLine := (endX + j * width) * 4;
      data := data + textureData[startLine..endLine];
      j := j + 1;
      n := n + 1;
    }
  }

  /** One step of the walk: the patch at the cursors `accu_x`, `accu_y` is copied
      and wrapped in an image of the patch's resolved extent, which is its cut. */
  method SlicePatch<T>(patches: PatchGrid<T>, src: Image, i: nat, k: nat, accuX: nat, accuY: nat)
    returns (patchTexture: Image)
    requires Sliceable(patches, src) && i < |patches| && k < |patches[i]|
    requires accuX == ColumnLeft(patches[i], src.size, k) && accuY == RowTop(patches, src.size, i)
    ensures patchTexture == SliceGrid(patches, src)[i][k]
  {
    var size := src.size;
    var item := patches[i][k];
    var width: nat := ToWidth(item.originalSize, size);
    var height: nat := ToHeight(item.originalSize, size);
    var startX := accuX;
    var endX := accuX + width;
    var startY := accuY;
    var endY := accuY + height;
    ghost var rect := PatchRect(patches, size, i, k);
    PatchInside(patches, src, i, k);
    var data := CopyPatch(src.data, size.width, size.height, startX, endX, startY, endY);
    patchTexture := Image(Extent3d(width, height), data);
    assert rect.w == endX - startX && rect.h == endY - startY;
    CopyIsCut(src, rect, data);
    assert SliceGrid(patches, src)[i][k] == Cut(src, rect);
  }

  /** The inner loop of the walk: the patches of row `i`, left to right, with the
      horizontal cursor `accu_x`, each slice pushed onto `texturesToAdd`. */
  method SliceRow<T>(patches: PatchGrid<T>, src: Image, i: nat, accuY: nat, pushed: seq<Image>)
    returns (texturesToAdd: seq<Image>)
    requires Sliceable(patches, src) && i < |patches| && accuY == RowTop(patches, src.size, i)
    ensures texturesToAdd == pushed + SliceGrid(patches, src)[i]
  {
    ghost var slices := SliceGrid(patches, src)[i];
    var row := patches[i];
    texturesToAdd := pushed;
    var accuX: nat := 0;
    var k := 0;
    while k < |row|
      invariant k <= |row|
      invariant accuX == ColumnLeft(row, src.size, k)
      invariant texturesToAdd == pushed + slices[..k]
    {
      var patchTexture := SlicePatch(patches, src, i, k, accuX, accuY);
      PushNext(pushed, slices, k);
      texturesToAdd := texturesToAdd + [patchTexture];
      accuX := accuX + ToWidth(row[k].originalSize, src.size);
      k := k + 1;
    }
    assert slices[..k] == slices;
  }

  /** The slicing walk of `apply`: rows top to bottom with the vertical cursor
      `accu_y`, which each row advances by the height of its first patch;
      produces one image per patch, row-major. */
  method SliceTextures<T>(patches: PatchGrid<T>, src: Image) returns (texturesToAdd: seq<Image>)
    requires Sliceable(patches, src)
    ensures texturesToAdd == GridSlices(patches, src)
  {
    ghost var sg := SliceGrid(patches, src);
    texturesToAdd := [];
    var accuY: nat := 0;
    var i := 0;
    while i < |patches|
      invariant i <= |patches|
      invariant accuY == RowTop(patches, src.size, i)
      invariant texturesToAdd == FlattenUpTo(sg, i)
    {
      texturesToAdd := SliceRow(patches, src, i, accuY, texturesToAdd);
      accuY := accuY + ToHeight(patches[i][0].originalSize, src.size);
      i := i + 1;
    }
  }
}
