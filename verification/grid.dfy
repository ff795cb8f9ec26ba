/** Row-major reading of a grid whose rows may differ in length: the flat position
    of a cell, and the flat sequence of all cells. The patches, their slices and
    the texture handles are all numbered this way. */
module Grid {
  /** Number of cells in the rows before row `i`. */
  function CellsBefore<X>(g: seq<seq<X>>, i: nat): nat
    requires i <= |g|
  {
    if i == 0 then 0 else CellsBefore(g, i - 1) + |g[i - 1]|
  }

  function TotalCells<X>(g: seq<seq<X>>): nat {
    CellsBefore(g, |g|)
  }

  lemma {:induction false} CellsBeforeMonotone<X>(g: seq<seq<X>>, i: nat, j: nat)
    requires i <= j <= |g|
    ensures CellsBefore(g, i) + (if i < j then |g[i]| else 0) <= CellsBefore(g, j)
    decreases j
  {
    if i < j {
      if i < j - 1 {
        CellsBeforeMonotone(g, i, j - 1);
      }
    }
  }

  /** Position of cell `k` of row `i` when the grid is read row-major. */
  function FlatIndex<X>(g: seq<seq<X>>, i: nat, k: nat): (n: nat)
    requires i < |g| && k < |g[i]|
    ensures CellsBefore(g, i) <= n < CellsBefore(g, i + 1)
    ensures n < TotalCells(g)
  {
    CellsBeforeMonotone(g, i + 1, |g|);
    CellsBefore(g, i) + k
  }

  /** Row-major order is strict: a later cell has a larger flat index. */
  lemma FlatIndexOrder<X>(g: seq<seq<X>>, i: nat, k: nat, i': nat, k': nat)
    requires i < |g| && k < |g[i]| && i' < |g| && k' < |g[i']|
    requires i < i' || (i == i' && k < k')
    ensures FlatIndex(g, i, k) < FlatIndex(g, i', k')
  {
    if i < i' {
      CellsBeforeMonotone(g, i + 1, i');
    }
  }

  /** Every flat index below the total belongs to exactly one cell. */
  lemma {:induction false} Unflatten<X>(g: seq<seq<X>>, n: nat) returns (i: nat, k: nat)
    requires n < TotalCells(g)
    ensures i < |g| && k < |g[i]| && FlatIndex(g, i, k) == n
    ensures forall i', k' :: 0 <= i' < |g| && 0 <= k' < |g[i']| && FlatIndex(g, i', k') == n ==> i' == i && k' == k
  {
    i := 0;
    while CellsBefore(g, i + 1) <= n
      invariant i < |g| && CellsBefore(g, i) <= n
      decreases |g| - i
    {
      i := i + 1;
    }
    k := n - CellsBefore(g, i);
    forall i', k' | 0 <= i' < |g| && 0 <= k' < |g[i']| && FlatIndex(g, i', k') == n
      ensures i' == i && k' == k
    {
      if i' < i || (i' == i && k' < k) {
        FlatIndexOrder(g, i', k', i, k);
      } else if i < i' || (i == i' && k < k') {
        FlatIndexOrder(g, i, k, i', k');
      }
    }
  }

  /** The cells of the first `i` rows, row after row. */
  function FlattenUpTo<X>(g: seq<seq<X>>, i: nat): (s: seq<X>)
    requires i <= |g|
    ensures |s| == CellsBefore(g, i)
    decreases i
  {
    if i == 0 then [] else FlattenUpTo(g, i - 1) + g[i - 1]
  }

  /** All cells, row-major. */
  function Flatten<X>(g: seq<seq<X>>): (s: seq<X>)
    ensures |s| == TotalCells(g)
  {
    FlattenUpTo(g, |g|)
  }

  lemma {:induction false} FlattenUpToAt<X>(g: seq<seq<X>>, u: nat, i: nat, k: nat)
    requires i < u <= |g| && k < |g[i]|
    ensures FlatIndex(g, i, k) < |FlattenUpTo(g, u)|
    ensures FlattenUpTo(g, u)[FlatIndex(g, i, k)] == g[i][k]
    decreases u
  {
    CellsBeforeMonotone(g, i + 1, u);
    var before := FlattenUpTo(g, u - 1);
    assert FlattenUpTo(g, u) == before + g[u - 1];
    if i < u - 1 {
      FlattenUpToAt(g, u - 1, i, k);
      assert (before + g[u - 1])[FlatIndex(g, i, k)] == before[FlatIndex(g, i, k)];
    } else {
      assert FlatIndex(g, i, k) == |before| + k;
    }
  }

  /** The flat sequence holds cell `k` of row `i` at position `FlatIndex(g, i, k)`. */
  lemma FlattenAt<X>(g: seq<seq<X>>, i: nat, k: nat)
    requires i < |g| && k < |g[i]|
    ensures Flatten(g)[FlatIndex(g, i, k)] == g[i][k]
  {
    FlattenUpToAt(g, |g|, i, k);
  }

  /** Two grids with rows of the same lengths. */
  predicate SameShape<X, Y>(g: seq<seq<X>>, h: seq<seq<Y>>) {
    |g| == |h| && forall i :: 0 <= i < |g| ==> |g[i]| == |h[i]|
  }

  /** Grids of the same shape number their cells alike. */
  lemma {:induction false} SameShapeCells<X, Y>(g: seq<seq<X>>, h: seq<seq<Y>>, i: nat)
    requires SameShape(g, h) && i <= |g|
    ensures CellsBefore(g, i) == CellsBefore(h, i)
  {
    if i > 0 {
      SameShapeCells(g, h, i - 1);
    }
  }

  /** Pushing the next element of `s` onto `p + s[..k]` gives `p + s[..k + 1]`. */
  lemma PushNext<X>(p: seq<X>, s: seq<X>, k: nat)
    requires k < |s|
    ensures (p + s[..k]) + [s[k]] == p + s[..k + 1]
  {
    assert s[..k + 1] == s[..k] + [s[k]];
  }
}
