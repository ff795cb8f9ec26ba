/** The builder of a nine-patch: its patch grid and the single-slot cache of the
    slices it cut last, and `apply`, which slices a source image (or reuses the
    cache) and hands out a nine-patch ready to place. */
module Builder {
  import opened Prim
  import opened Grid
  import opened Patches
  import opened Slicing

  /** A nine-patch ready to place: the patches, the extent of the source image and
      one slice handle per patch, row-major. */
  datatype NinePatch<T> = NinePatch(patches: PatchGrid<T>, textureSize: Extent3d, splittedTexture: seq<Handle>)

  /** The handles `start, start + 1, ..., start + n - 1`, in order. */
  function HandleRange(start: nat, n: nat): (hs: seq<Handle>)
    ensures |hs| == n && forall j :: 0 <= j < n ==> hs[j] == start + j
  {
    seq(n, j => start + j)
  }

  /** Registers `toAdd` in the table one image after the other and collects the
      handles, in the same order. */
  method AddAll(textures: Assets, toAdd: seq<Image>) returns (handles: seq<Handle>)
    modifies textures
    ensures textures.images == old(textures.images) + toAdd
    ensures handles == HandleRange(|old(textures.images)|, |toAdd|)
  {
    handles := [];
    var j := 0;
    while j < |toAdd|
      invariant j <= |toAdd|
      invariant textures.images == old(textures.images) + toAdd[..j]
      invariant handles == HandleRange(|old(textures.images)|, j)
    {
      var handle := textures.Add(toAdd[j]);
      assert toAdd[..j + 1] == toAdd[..j] + [toAdd[j]];
      handles := handles + [handle];
      j := j + 1;
    }
    assert toAdd[..j] == toAdd;
  }

  class NinePatchBuilder<T> {
    var patches: PatchGrid<T>
    /** The handles of the slices cut last, and the source they were cut from. */
    var patchTextures: Option<seq<Handle>>
    var originalTexture: Option<Handle>

    /** `from_patches`: the given grid, nothing cached. */
    constructor FromPatches(patches: PatchGrid<T>)
      ensures this.patches == patches
      ensures patchTextures == None && originalTexture == None
    {
      this.patches := patches;
      patchTextures := None;
      originalTexture := None;
    }

    /** `by_margins_with_content`: the 3x3 grid of four margins, nothing cached. */
    constructor ByMarginsWithContent(top: u32, bottom: u32, left: u32, right: u32, content: T)
      ensures patches == MarginGrid(top, bottom, left, right, content)
      ensures patchTextures == None && originalTexture == None
    {
      patches := MarginGrid(top, bottom, left, right, content);
      patchTextures := None;
      originalTexture := None;
    }

    /** `by_margins`: the margin grid whose centre carries the default tag, which
        is passed in as `defaultContent`. */
    constructor ByMargins(top: u32, bottom: u32, left: u32, right: u32, defaultContent: T)
      ensures patches == MarginGrid(top, bottom, left, right, defaultContent)
      ensures patchTextures == None && originalTexture == None
    {
      patches := MarginGrid(top, bottom, left, right, defaultContent);
      patchTextures := None;
      originalTexture := None;
    }

    /** The cache holds slices, and they were cut from `handle`. */
    predicate CacheHit(handle: Handle)
      reads this
    {
      patchTextures.Some? && originalTexture == Some(handle)
    }

    /** `apply`: on a cache miss, cuts one slice per patch out of the image under
        `textureHandle`, registers them in row-major order under fresh handles and
        caches those handles with the source handle; on a hit, the image table and
        the cache are left alone. Either way the nine-patch returned holds the
        patches, the source extent and the cached handles. */
    method Apply(textureHandle: Handle, textures: Assets) returns (np: NinePatch<T>)
      requires textureHandle < |textures.images|
      requires !CacheHit(textureHandle) ==> Sliceable(patches, textures.images[textureHandle])
      modifies this, textures
      ensures patches == old(patches)
      ensures np.patches == patches && np.textureSize == old(textures.images)[textureHandle].size
      ensures patchTextures.Some? && np.splittedTexture == patchTextures.value
      ensures CacheHit(textureHandle)
      ensures old(CacheHit(textureHandle)) ==>
        textures.images == old(textures.images) && patchTextures == old(patchTextures)
      ensures !old(CacheHit(textureHandle)) ==>
        textures.images == old(textures.images) + GridSlices(patches, old(textures.images)[textureHandle]) &&
        patchTextures == Some(HandleRange(|old(textures.images)|, TotalCells(patches)))
    {
      var src := textures.images[textureHandle];
      var textureSize := src.size;
      if patchTextures.None? || originalTexture != Some(textureHandle) {
        var texturesToAdd := SliceTextures(patches, src);
        var handles := AddAll(textures, texturesToAdd);
        patchTextures := Some(handles);
        originalTexture := Some(textureHandle);
      }
      np := NinePatch(patches, textureSize, patchTextures.value);
    }
  }

  /** After slicing `src` on a miss, the handle of patch `k` of row `i` is
      `|table| + FlatIndex(rows, i, k)`, and the image it names is the cut of that
      patch: `to_width` pixels wide, `to_height` pixels high, four bytes a pixel. */
  lemma AppliedSliceAt<T>(images: seq<Image>, rows: PatchGrid<T>, src: Image, i: nat, k: nat)
    requires Sliceable(rows, src) && i < |rows| && k < |rows[i]|
    ensures var table := images + GridSlices(rows, src);
      var handle := HandleRange(|images|, TotalCells(rows))[FlatIndex(rows, i, k)];
      var p := rows[i][k].originalSize;
      handle < |table| &&
      table[handle] == Cut(src, PatchRect(rows, src.size, i, k)) &&
      table[handle].size == Extent3d(ToWidth(p, src.size), ToHeight(p, src.size)) &&
      |table[handle].data| == ToWidth(p, src.size) * ToHeight(p, src.size) * 4
  {
    var slices := GridSlices(rows, src);
    var n := FlatIndex(rows, i, k);
    SliceAt(rows, src, i, k);
    assert (images + slices)[|images| + n] == slices[n];
    WellFormedSize(Cut(src, PatchRect(rows, src.size, i, k)));
  }
}
