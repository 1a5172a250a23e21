/**
 `Conversion`: collects the 0-based indices i whose diagonal cell [i, i] is
 true, sizes a fresh matrix to the last such index, and writes
 `res[i - 1, i - 1] = true` for each. The 0-based indices are reused as
 1-based coordinates, so every diagonal pair moves one place up and left, and
 a true cell [0, 0] leads to the index -1, which the upper-bound-only check of
 the indexer lets through to the raw array, which throws.
 */
module Conversions {
  import opened Relations
  import opened Listing

  /** The scan of the diagonal from index i on: the pairs (i, i) with cell [i, i] true. */
  function DiagonalFrom(r: Relation, i: nat): (ds: seq<(int, int)>)
    requires i <= r.n
    ensures forall p :: p in ds <==> p.0 == p.1 && i <= p.0 && Padded(r, p.0, p.0)
    ensures RowMajor(ds)
    decreases r.n - i
  {
    if i == r.n then []
    else
      var rest := DiagonalFrom(r, i + 1);
      var here := if r.cells[i][i] then [(i, i)] else [];
      RowMajorConcat(here, rest);
      here + rest
  }

  /** `maxElement` after the scan: the last index found, or 0. */
  function LastIndex(ds: seq<(int, int)>): int {
    if |ds| == 0 then 0 else ds[|ds| - 1].0
  }

  /** In a row-major list of diagonal pairs the last index is the largest. */
  lemma LastIsLargest(ds: seq<(int, int)>)
    requires RowMajor(ds)
    ensures forall k :: 0 <= k < |ds| ==> ds[k].0 <= LastIndex(ds)
  {
    forall k | 0 <= k < |ds| ensures ds[k].0 <= LastIndex(ds) {
      if k < |ds| - 1 {
        assert Before(ds[k], ds[|ds| - 1]);
      }
    }
  }

  /** `Conversion(r)`. It fails exactly when cell [0, 0] is true; otherwise the
      result's side is the largest diagonal index with a true cell (0 if none),
      and its pairs are (i, i) for each i >= 1 whose 0-based cell [i, i] is
      true in r, that is, r's diagonal pair (i + 1, i + 1) shifted to (i, i). */
  function Conversion(r: Relation): (res: Result<Relation>)
    ensures res.Err? <==> Padded(r, 0, 0)
    ensures res.Ok? ==> res.value.power == 0
    ensures res.Ok? ==> forall i :: Padded(r, i, i) ==> i <= res.value.n
    ensures res.Ok? ==> res.value.n == 0 || Padded(r, res.value.n, res.value.n)
    ensures res.Ok? ==> forall a, b :: (a, b) in Pairs(res.value) <==> a == b && 1 <= a && Padded(r, a, a)
  {
    var ds := DiagonalFrom(r, 0);
    LastIsLargest(ds);
    assert |ds| > 0 ==> ds[|ds| - 1] in ds;
    var m: nat := LastIndex(ds);
    assert forall i :: Padded(r, i, i) ==> (i, i) in ds;
    var res := Mark(Empty(m), ds);
    assert Padded(r, 0, 0) ==> (0, 0) in ds;
    res
  }
}
