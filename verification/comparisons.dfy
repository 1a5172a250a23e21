/**
 The comparison operators `>= <= == != > <` on relation matrices. They are
 block comparisons: `r1 >= r2` asks whether r1, read over its own extent,
 matches the leading block of r2 cell for cell. This is not containment of
 pair sets.
 */
module Comparisons {
  import opened Relations

  /** r1 and r2 agree on every cell of r1's grid. */
  ghost predicate AgreeOnFirst(r1: Relation, r2: Relation)
    requires r1.n <= r2.n
  {
    forall i, j :: Covers(r1, i, j) ==> Cell(r1, i, j) == Cell(r2, i, j)
  }

  /** The inner loop of `>=`: columns col.. of one row, leaving at the first mismatch. */
  function ColumnsMatch(r1: Relation, r2: Relation, row: nat, col: nat): (b: bool)
    requires r1.n <= r2.n && row < r1.n && col <= r1.n
    ensures b <==> forall j :: col <= j < r1.n ==> Cell(r1, row, j) == Cell(r2, row, j)
    decreases r1.n - col
  {
    if col == r1.n then true
    else if Cell(r1, row, col) != Cell(r2, row, col) then false
    else ColumnsMatch(r1, r2, row, col + 1)
  }

  /** The outer loop of `>=`: rows row.. of r1's grid. */
  function RowsMatch(r1: Relation, r2: Relation, row: nat): (b: bool)
    requires r1.n <= r2.n && row <= r1.n
    ensures b <==> forall i, j :: row <= i < r1.n && 0 <= j < r1.n ==> Cell(r1, i, j) == Cell(r2, i, j)
    decreases r1.n - row
  {
    if row == r1.n then true
    else if !ColumnsMatch(r1, r2, row, 0) then false
    else RowsMatch(r1, r2, row + 1)
  }

  /** `r1 >= r2`: false when r1 is the larger grid; otherwise a cell-by-cell
      scan of r1's grid against r2, which stays inside r2's bounds. */
  function GreaterEq(r1: Relation, r2: Relation): (b: bool)
    ensures b <==> r1.n <= r2.n && AgreeOnFirst(r1, r2)
  {
    if r1.n > r2.n then false else RowsMatch(r1, r2, 0)
  }

  /** `r1 <= r2`, defined as `r2 >= r1`. */
  function LessEq(r1: Relation, r2: Relation): (b: bool)
    ensures b <==> r2.n <= r1.n && AgreeOnFirst(r2, r1)
  {
    GreaterEq(r2, r1)
  }

  /** `r1 == r2`: equal side lengths, then `r1 >= r2`. The cached power is not compared. */
  function Equal(r1: Relation, r2: Relation): (b: bool)
    ensures b <==> r1.n == r2.n && forall i, j :: Covers(r1, i, j) ==> Cell(r1, i, j) == Cell(r2, i, j)
  {
    if r1.n != r2.n then false else GreaterEq(r1, r2)
  }

  /** `r1 != r2`, the negation of `==`. */
  function NotEqual(r1: Relation, r2: Relation): (b: bool)
    ensures b <==> r1.n != r2.n || exists i, j :: Covers(r1, i, j) && Cell(r1, i, j) != Cell(r2, i, j)
  {
    !Equal(r1, r2)
  }

  /** `r1 > r2`, defined as `r1 != r2 && r1 >= r2`. */
  function Greater(r1: Relation, r2: Relation): (b: bool)
    ensures b <==> r1.n < r2.n && AgreeOnFirst(r1, r2)
  {
    NotEqual(r1, r2) && GreaterEq(r1, r2)
  }

  /** `r1 < r2`, defined as `r2 > r1`. */
  function Less(r1: Relation, r2: Relation): (b: bool)
    ensures b <==> r2.n < r1.n && AgreeOnFirst(r2, r1)
  {
    Greater(r2, r1)
  }

  /** `==` holds exactly when the two grids are the same. */
  lemma EqualIffSameGrid(r1: Relation, r2: Relation)
    ensures Equal(r1, r2) <==> r1.cells == r2.cells
  {
    if Equal(r1, r2) {
      forall i | 0 <= i < r1.n ensures r1.cells[i] == r2.cells[i] {
        assert |r1.cells[i]| == r1.n == |r2.cells[i]|;
        assert forall j :: 0 <= j < r1.n ==> r1.cells[i][j] == Cell(r1, i, j) == Cell(r2, i, j) == r2.cells[i][j];
      }
    }
    if r1.cells == r2.cells {
      assert |r1.cells| == r1.n && |r2.cells| == r2.n;
    }
  }

  lemma EqualReflexive(r: Relation)
    ensures Equal(r, r)
    ensures !NotEqual(r, r)
  {
  }

  lemma EqualSymmetric(r1: Relation, r2: Relation)
    ensures Equal(r1, r2) <==> Equal(r2, r1)
  {
  }

  lemma EqualTransitive(r1: Relation, r2: Relation, r3: Relation)
    requires Equal(r1, r2) && Equal(r2, r3)
    ensures Equal(r1, r3)
  {
  }

  /** `>=` is reflexive and transitive, and `>=` both ways is `==`. */
  lemma GreaterEqPartialOrder(r1: Relation, r2: Relation, r3: Relation)
    ensures GreaterEq(r1, r1)
    ensures GreaterEq(r1, r2) && GreaterEq(r2, r3) ==> GreaterEq(r1, r3)
    ensures GreaterEq(r1, r2) && GreaterEq(r2, r1) ==> Equal(r1, r2)
  {
  }

  /** `>` holds only towards a strictly larger grid, so it is irreflexive. */
  lemma GreaterShrinks(r1: Relation, r2: Relation)
    ensures Greater(r1, r2) ==> r1.n < r2.n
    ensures !Greater(r1, r1)
    ensures Less(r1, r2) <==> Greater(r2, r1)
  {
  }

  /** `>=` stated on pair sets: r1's pairs are exactly r2's pairs that fall
      inside r1's grid. */
  lemma GreaterEqByPairs(r1: Relation, r2: Relation)
    requires r1.n <= r2.n
    ensures GreaterEq(r1, r2) <==> Pairs(r1) == set p | p in Pairs(r2) && p.0 <= r1.n && p.1 <= r1.n
  {
    var inside := set p | p in Pairs(r2) && p.0 <= r1.n && p.1 <= r1.n;
    if GreaterEq(r1, r2) {
      forall p ensures p in Pairs(r1) <==> p in inside {
        var a, b := p.0, p.1;
        assert p == (a, b);
        if 1 <= a <= r1.n && 1 <= b <= r1.n {
          assert Cell(r1, a - 1, b - 1) == Cell(r2, a - 1, b - 1);
        }
      }
    }
    if Pairs(r1) == inside {
      forall i, j | Covers(r1, i, j) ensures Cell(r1, i, j) == Cell(r2, i, j) {
        assert (i + 1, j + 1) in Pairs(r1) <==> (i + 1, j + 1) in inside;
      }
    }
  }

  /** `>=` is not pair-set containment: the empty 1×1 relation is contained in
      the full 1×1 relation, yet `>=` between them is false. */
  lemma GreaterEqIsNotContainment()
    ensures var r1, r2 := Empty(1), FromGrid([[true]]);
      Pairs(r1) <= Pairs(r2) && !GreaterEq(r1, r2)
  {
    var r1, r2 := Empty(1), FromGrid([[true]]);
    assert !Padded(r1, 0, 0);
    assert Cell(r1, 0, 0) != Cell(r2, 0, 0);
  }
}
