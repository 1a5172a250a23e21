/**
 The binary operators `+ * - ^`. Each allocates a fresh matrix with
 `new Relations(m)` (power 0) and fills it through the indexer, which never
 touches the power, so every result carries power 0. A cell that one operand
 does not cover is taken from the other operand, or left false.
 */
module Operators {
  import opened Relations

  /** A fresh m×m matrix whose cell (i, j) is rule(i, j). */
  function Build(m: nat, rule: (int, int) -> bool): (r: Relation)
    ensures r.n == m && r.power == 0
    ensures forall i, j :: Covers(r, i, j) ==> Cell(r, i, j) == rule(i, j)
  {
    Rel(m, seq(m, i => seq(m, j => rule(i, j))), 0)
  }

  /** The branch chain of `+` for one cell. */
  function UnionCell(r1: Relation, r2: Relation, row: int, col: int): bool {
    if Covers(r1, row, col) && Covers(r2, row, col) then Cell(r1, row, col) || Cell(r2, row, col)
    else if Covers(r1, row, col) then Cell(r1, row, col)
    else if Covers(r2, row, col) then Cell(r2, row, col)
    else false
  }

  /** The branch chain of `*` for one cell. */
  function IntersectionCell(r1: Relation, r2: Relation, row: int, col: int): bool {
    if Covers(r1, row, col) && Covers(r2, row, col) then Cell(r1, row, col) && Cell(r2, row, col)
    else false
  }

  /** The branch chain of `-` for one cell: exclusive or where both cover. */
  function DifferenceCell(r1: Relation, r2: Relation, row: int, col: int): bool {
    if Covers(r1, row, col) && Covers(r2, row, col) then Cell(r1, row, col) != Cell(r2, row, col)
    else if Covers(r1, row, col) then Cell(r1, row, col)
    else false
  }

  /** The branch chain of `^` for one cell. */
  function SymmetricDifferenceCell(r1: Relation, r2: Relation, row: int, col: int): bool {
    if Covers(r1, row, col) && Covers(r2, row, col) then Cell(r1, row, col) != Cell(r2, row, col)
    else if Covers(r1, row, col) then Cell(r1, row, col)
    else if Covers(r2, row, col) then Cell(r2, row, col)
    else false
  }

  /** `r1 + r2`: side max(L1, L2); each cell is the or of the operands read
      with false outside their grids. */
  function Union(r1: Relation, r2: Relation): (r: Relation)
    ensures r.n == Max(r1.n, r2.n) && r.power == 0
    ensures forall i, j :: Covers(r, i, j) ==> Cell(r, i, j) == (Padded(r1, i, j) || Padded(r2, i, j))
  {
    Build(Max(r1.n, r2.n), (i, j) => UnionCell(r1, r2, i, j))
  }

  /** `r1 * r2`: side min(L1, L2), where both operands cover every cell; each
      cell is the and of the operands. */
  function Intersection(r1: Relation, r2: Relation): (r: Relation)
    ensures r.n == Min(r1.n, r2.n) && r.power == 0
    ensures forall i, j :: Covers(r, i, j) ==> Covers(r1, i, j) && Covers(r2, i, j) && Cell(r, i, j) == (Cell(r1, i, j) && Cell(r2, i, j))
  {
    Build(Min(r1.n, r2.n), (i, j) => IntersectionCell(r1, r2, i, j))
  }

  /** `r1 - r2` as written: side L1; each cell is the exclusive or of the
      operands read with false outside their grids. */
  function Difference(r1: Relation, r2: Relation): (r: Relation)
    ensures r.n == r1.n && r.power == 0
    ensures forall i, j :: Covers(r, i, j) ==> Cell(r, i, j) == (Cell(r1, i, j) != Padded(r2, i, j))
  {
    Build(r1.n, (i, j) => DifferenceCell(r1, r2, i, j))
  }

  /** `r1 ^ r2`: side max(L1, L2); each cell is the exclusive or of the
      operands read with false outside their grids. */
  function SymmetricDifference(r1: Relation, r2: Relation): (r: Relation)
    ensures r.n == Max(r1.n, r2.n) && r.power == 0
    ensures forall i, j :: Covers(r, i, j) ==> Cell(r, i, j) == (Padded(r1, i, j) != Padded(r2, i, j))
  {
    Build(Max(r1.n, r2.n), (i, j) => SymmetricDifferenceCell(r1, r2, i, j))
  }

  /** Difference with the cell rule r1 and not r2, which is what a
      difference of relations means. */
  function DifferenceCorrected(r1: Relation, r2: Relation): (r: Relation)
    ensures r.n == r1.n && r.power == 0
    ensures forall i, j :: Covers(r, i, j) ==> Cell(r, i, j) == (Cell(r1, i, j) && !Padded(r2, i, j))
  {
    Build(r1.n, (i, j) => Covers(r1, i, j) && Cell(r1, i, j) && !Padded(r2, i, j))
  }

  /** Two relations with the same side, power and cells are the same value. */
  lemma SameRelation(x: Relation, y: Relation)
    requires x.n == y.n && x.power == y.power
    requires forall i, j :: Covers(x, i, j) ==> Cell(x, i, j) == Cell(y, i, j)
    ensures x == y
  {
    forall i | 0 <= i < x.n ensures x.cells[i] == y.cells[i] {
      assert |x.cells[i]| == x.n == |y.cells[i]|;
      assert forall j :: 0 <= j < x.n ==> x.cells[i][j] == Cell(x, i, j) == Cell(y, i, j) == y.cells[i][j];
    }
  }

  /** Union is set union of the pairs. */
  lemma UnionPairs(r1: Relation, r2: Relation)
    ensures Pairs(Union(r1, r2)) == Pairs(r1) + Pairs(r2)
  {
    var u := Union(r1, r2);
    forall p ensures p in Pairs(u) <==> p in Pairs(r1) + Pairs(r2) {
      var a, b := p.0, p.1;
      assert p == (a, b);
      if Padded(r1, a - 1, b - 1) || Padded(r2, a - 1, b - 1) {
        assert Covers(u, a - 1, b - 1);
      }
    }
  }

  /** Intersection is set intersection of the pairs. */
  lemma IntersectionPairs(r1: Relation, r2: Relation)
    ensures Pairs(Intersection(r1, r2)) == Pairs(r1) * Pairs(r2)
  {
    var m := Intersection(r1, r2);
    forall p ensures p in Pairs(m) <==> p in Pairs(r1) * Pairs(r2) {
      var a, b := p.0, p.1;
      assert p == (a, b);
      if Padded(r1, a - 1, b - 1) && Padded(r2, a - 1, b - 1) {
        assert Covers(m, a - 1, b - 1);
      }
    }
  }

  /** Symmetric difference is the symmetric difference of the pairs. */
  lemma SymmetricDifferencePairs(r1: Relation, r2: Relation)
    ensures Pairs(SymmetricDifference(r1, r2)) == (Pairs(r1) - Pairs(r2)) + (Pairs(r2) - Pairs(r1))
  {
    var x := SymmetricDifference(r1, r2);
    forall p ensures p in Pairs(x) <==> p in (Pairs(r1) - Pairs(r2)) + (Pairs(r2) - Pairs(r1)) {
      var a, b := p.0, p.1;
      assert p == (a, b);
      if Padded(r1, a - 1, b - 1) || Padded(r2, a - 1, b - 1) {
        assert Covers(x, a - 1, b - 1);
      }
    }
  }

  /** What `-` as written computes on pairs: the symmetric difference,
      cut down to r1's grid. */
  lemma DifferencePairs(r1: Relation, r2: Relation)
    ensures Pairs(Difference(r1, r2)) == set p | p in (Pairs(r1) - Pairs(r2)) + (Pairs(r2) - Pairs(r1)) && p.0 <= r1.n && p.1 <= r1.n
  {
    var d := Difference(r1, r2);
    var cut := set p | p in (Pairs(r1) - Pairs(r2)) + (Pairs(r2) - Pairs(r1)) && p.0 <= r1.n && p.1 <= r1.n;
    forall p ensures p in Pairs(d) <==> p in cut {
      var a, b := p.0, p.1;
      assert p == (a, b);
    }
  }

  /** The corrected difference is set difference of the pairs. */
  lemma DifferenceCorrectedPairs(r1: Relation, r2: Relation)
    ensures Pairs(DifferenceCorrected(r1, r2)) == Pairs(r1) - Pairs(r2)
  {
    var d := DifferenceCorrected(r1, r2);
    forall p ensures p in Pairs(d) <==> p in Pairs(r1) - Pairs(r2) {
      var a, b := p.0, p.1;
      assert p == (a, b);
    }
  }

  /** `-` as written is not set difference: removing the full 1×1 relation
      from the empty 1×1 relation yields the pair (1, 1). */
  lemma DifferenceIsNotSubtraction()
    ensures var r1, r2 := Empty(1), FromGrid([[true]]);
      Pairs(Difference(r1, r2)) == {(1, 1)} && Pairs(r1) - Pairs(r2) == {}
  {
    var r1, r2 := Empty(1), FromGrid([[true]]);
    DifferencePairs(r1, r2);
    assert (1, 1) in Pairs(r2);
    assert Pairs(r2) == {(1, 1)} by {
      forall p | p in Pairs(r2) ensures p == (1, 1) {
        assert p == (p.0, p.1);
      }
    }
  }

  lemma UnionCommutes(r1: Relation, r2: Relation)
    ensures Union(r1, r2) == Union(r2, r1)
  {
    SameRelation(Union(r1, r2), Union(r2, r1));
  }

  lemma IntersectionCommutes(r1: Relation, r2: Relation)
    ensures Intersection(r1, r2) == Intersection(r2, r1)
  {
    SameRelation(Intersection(r1, r2), Intersection(r2, r1));
  }

  lemma SymmetricDifferenceCommutes(r1: Relation, r2: Relation)
    ensures SymmetricDifference(r1, r2) == SymmetricDifference(r2, r1)
  {
    SameRelation(SymmetricDifference(r1, r2), SymmetricDifference(r2, r1));
  }

  /** On relations of one side, `-` as written and `^` coincide. */
  lemma DifferenceIsSymmetricDifferenceOnEqualSides(r1: Relation, r2: Relation)
    requires r1.n == r2.n
    ensures Difference(r1, r2) == SymmetricDifference(r1, r2)
  {
    SameRelation(Difference(r1, r2), SymmetricDifference(r1, r2));
  }

  /** The number of pairs in an intersection is at most that of either
      operand, and a union has at least as many as either operand. */
  lemma PairCountBounds(r1: Relation, r2: Relation)
    ensures |Pairs(Intersection(r1, r2))| <= |Pairs(r1)| && |Pairs(Intersection(r1, r2))| <= |Pairs(r2)|
    ensures |Pairs(Union(r1, r2))| >= |Pairs(r1)| && |Pairs(Union(r1, r2))| >= |Pairs(r2)|
  {
    IntersectionPairs(r1, r2);
    UnionPairs(r1, r2);
    SubsetCard(Pairs(r1) * Pairs(r2), Pairs(r1));
    SubsetCard(Pairs(r1) * Pairs(r2), Pairs(r2));
    SubsetCard(Pairs(r1), Pairs(r1) + Pairs(r2));
    SubsetCard(Pairs(r2), Pairs(r1) + Pairs(r2));
  }

  lemma SubsetCard<T>(a: set<T>, b: set<T>)
    requires a <= b
    ensures |a| <= |b|
  {
    assert b == a + (b - a);
  }
}
