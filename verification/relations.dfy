/**
 A binary relation on {1..n} stored as an n×n boolean matrix: the pair (a, b)
 belongs to the relation iff the 0-based cell [a-1, b-1] is true.
 This module holds the matrix itself, its two constructors, its accessors,
 the checked indexer and the two deletion overloads.
 */
module Relations {

  /** The two exceptions the matrix code can raise. `ArgumentOutOfRange` is
      thrown by the checked indexer and by the deletion guard;
      `IndexOutOfRange` is thrown by the raw array for a negative index. */
  datatype Error = ArgumentOutOfRange | IndexOutOfRange

  datatype Result<T> = Ok(value: T) | Err(error: Error)

  /** `n` is the side length (the source's `Length`), `cells[i][j]` the cell
      in 0-based row i and column j, `power` the count cached at construction
      (the source's `Power`). */
  datatype Rel = Rel(n: nat, cells: seq<seq<bool>>, power: nat)

  /** Every row of the grid is as long as the grid is tall. */
  predicate Square(grid: seq<seq<bool>>) {
    forall i :: 0 <= i < |grid| ==> |grid[i]| == |grid|
  }

  predicate Valid(r: Rel) {
    |r.cells| == r.n && Square(r.cells)
  }

  /** A relation whose grid really is n×n. */
  type Relation = r: Rel | Valid(r) witness Rel(0, [], 0)

  const Int32Modulus: int := 0x1_0000_0000

  predicate IsInt32(x: int) {
    -0x8000_0000 <= x < 0x8000_0000
  }

  /** Two's-complement wrap-around of a C# `int` expression. */
  function Int32(x: int): (w: int)
    ensures IsInt32(w)
    ensures IsInt32(x) ==> w == x
    ensures (x - w) % Int32Modulus == 0
  {
    var m := x % Int32Modulus;
    if m >= 0x8000_0000 then m - Int32Modulus else m
  }

  /** `Math.Max`. */
  function Max(x: int, y: int): (m: int)
    ensures m >= x && m >= y && (m == x || m == y)
  {
    if x < y then y else x
  }

  /** `Math.Min`. */
  function Min(x: int, y: int): (m: int)
    ensures m <= x && m <= y && (m == x || m == y)
  {
    if x < y then x else y
  }

  /** True when (i, j) is a valid 0-based index into r's grid. */
  predicate Covers(r: Relation, i: int, j: int) {
    0 <= i < r.n && 0 <= j < r.n
  }

  function Cell(r: Relation, i: int, j: int): bool
    requires Covers(r, i, j)
  {
    r.cells[i][j]
  }

  /** The cell (i, j), read as false where r's grid does not reach. */
  predicate Padded(r: Relation, i: int, j: int) {
    Covers(r, i, j) && r.cells[i][j]
  }

  /** The relation as a set of 1-based pairs. */
  function Pairs(r: Relation): (s: set<(int, int)>)
    ensures forall a, b :: (a, b) in s <==> Padded(r, a - 1, b - 1)
  {
    set a, b | 1 <= a <= r.n && 1 <= b <= r.n && r.cells[a - 1][b - 1] :: (a, b)
  }

  /** Number of true cells in one row, scanned left to right. */
  function RowCount(row: seq<bool>): nat {
    if |row| == 0 then 0 else (if row[0] then 1 else 0) + RowCount(row[1..])
  }

  /** Number of true cells in a grid, scanned row by row. */
  function GridCount(grid: seq<seq<bool>>): nat {
    if |grid| == 0 then 0 else RowCount(grid[0]) + GridCount(grid[1..])
  }

  /** Total number of cells, summed over the rows. */
  function CellTotal(grid: seq<seq<bool>>): nat {
    if |grid| == 0 then 0 else |grid[0]| + CellTotal(grid[1..])
  }

  lemma {:induction false} CellTotalOfRows(grid: seq<seq<bool>>, w: nat)
    requires forall i :: 0 <= i < |grid| ==> |grid[i]| == w
    ensures CellTotal(grid) == |grid| * w
  {
    if |grid| > 0 {
      CellTotalOfRows(grid[1..], w);
    }
  }

  /** `new Relations(size)`: an all-false size×size grid with power 0. */
  function Empty(size: nat): (r: Relation)
    ensures r.n == size && r.power == 0
    ensures Pairs(r) == {}
  {
    Rel(size, seq(size, i => seq(size, j => false)), 0)
  }

  /** `new Relations(bool[,])`: keeps the grid and caches its number of true
      cells as the power. */
  function FromGrid(grid: seq<seq<bool>>): (r: Relation)
    requires Square(grid)
    ensures r.n == |grid| && r.cells == grid
    ensures r.power == GridCount(grid)
  {
    Rel(|grid|, grid, GridCount(grid))
  }

  /** `CounterCells`: the number of cells of the grid. */
  function CounterCells(r: Relation): (c: nat)
    ensures c == r.n * r.n
  {
    CellTotalOfRows(r.cells, r.n);
    CellTotal(r.cells)
  }

  /** `Length`: the side length, the integer square root of the cell count. */
  function Length(r: Relation): (l: nat)
    ensures l * l == CounterCells(r)
    ensures l == |r.cells|
  {
    r.n
  }

  /** Checked indexer read `r[row, col]`. Only the upper bound is checked;
      a negative index reaches the raw array, which throws. */
  function Get(r: Relation, row: int, col: int): (res: Result<bool>)
    ensures res.Ok? <==> Covers(r, row, col)
    ensures res.Ok? ==> res.value == Cell(r, row, col)
    ensures res.Err? ==> res.error == (if row >= r.n || col >= r.n then ArgumentOutOfRange else IndexOutOfRange)
  {
    if col >= r.n || row >= r.n then Err(ArgumentOutOfRange)
    else if row < 0 || col < 0 then Err(IndexOutOfRange)
    else Ok(r.cells[row][col])
  }

  /** Replace one cell of a grid. */
  function Update(r: Relation, row: nat, col: nat, v: bool): (r': Relation)
    requires Covers(r, row, col)
    ensures r'.n == r.n && r'.power == r.power
    ensures Cell(r', row, col) == v
    ensures forall i, j :: Covers(r, i, j) && (i, j) != (row, col) ==> Cell(r', i, j) == Cell(r, i, j)
  {
    r.(cells := r.cells[row := r.cells[row][col := v]])
  }

  /** Checked indexer write `r[row, col] = v`; the cached power is left as it is. */
  function Set(r: Relation, row: int, col: int, v: bool): (res: Result<Relation>)
    ensures res.Ok? <==> Covers(r, row, col)
    ensures res.Ok? ==> res.value.n == r.n && res.value.power == r.power
    ensures res.Ok? ==> Cell(res.value, row, col) == v
    ensures res.Ok? ==> forall i, j :: Covers(r, i, j) && (i, j) != (row, col) ==> Cell(res.value, i, j) == Cell(r, i, j)
    ensures res.Err? ==> res.error == (if row >= r.n || col >= r.n then ArgumentOutOfRange else IndexOutOfRange)
  {
    if col >= r.n || row >= r.n then Err(ArgumentOutOfRange)
    else if row < 0 || col < 0 then Err(IndexOutOfRange)
    else Ok(Update(r, row, col, v))
  }

  /** A write through the indexer followed by a read of the same cell gives
      the written value back, and the relation gains or loses exactly that pair. */
  lemma SetThenGet(r: Relation, a: int, b: int, v: bool)
    requires 1 <= a <= r.n && 1 <= b <= r.n
    ensures Set(r, a - 1, b - 1, v).Ok?
    ensures Get(Set(r, a - 1, b - 1, v).value, a - 1, b - 1) == Ok(v)
    ensures Pairs(Set(r, a - 1, b - 1, v).value) == if v then Pairs(r) + {(a, b)} else Pairs(r) - {(a, b)}
  {
    var r' := Set(r, a - 1, b - 1, v).value;
    forall p ensures p in Pairs(r') <==> p in (if v then Pairs(r) + {(a, b)} else Pairs(r) - {(a, b)}) {
      assert p == (p.0, p.1);
    }
  }

  /** The guard both deletion overloads evaluate before touching the grid:
      a coordinate beyond the side length, or a zero 32-bit product. */
  predicate DeleteRejects(r: Relation, a: int, b: int) {
    b > r.n || a > r.n || Int32(a * b) == 0
  }

  /** `DeleteElmentByValues(a, b)`: clears the 1-based pair (a, b). A rejected
      pair raises an exception that the method itself catches, so the matrix is
      returned unchanged; a negative coordinate passes the guard and fails on
      the raw array, which is not caught. */
  function Delete(r: Relation, a: int, b: int): (res: Result<Relation>)
    ensures res.Ok? ==> res.value.n == r.n && res.value.power == r.power
    ensures res.Ok? ==> forall i, j :: Covers(r, i, j) && (i + 1, j + 1) != (a, b) ==> Cell(res.value, i, j) == Cell(r, i, j)
    ensures 1 <= a <= r.n && 1 <= b <= r.n && r.n < 0x1_0000 ==> res.Ok? && !Cell(res.value, a - 1, b - 1)
    ensures a == 0 || b == 0 || a > r.n || b > r.n ==> res == Ok(r)
    ensures res.Err? ==> res.error == IndexOutOfRange && (a < 0 || b < 0)
  {
    ProductInRange(a, b, r.n);
    if DeleteRejects(r, a, b) then Ok(r)
    else if a < 1 || b < 1 then Err(IndexOutOfRange)
    else Ok(Update(r, a - 1, b - 1, false))
  }

  /** For coordinates within a side length below 2^16 the 32-bit product is
      exact, so the guard's zero test is the same as a zero coordinate. */
  lemma ProductInRange(a: int, b: int, n: nat)
    ensures 0 <= a <= n && 0 <= b <= n && n < 0x1_0000 ==> (Int32(a * b) == 0 <==> a == 0 || b == 0)
  {
    if 0 <= a <= n && 0 <= b <= n && n < 0x1_0000 {
      assert a * b <= n * b <= n * n;
      assert 0 <= a * b < Int32Modulus;
      assert (a * b) % Int32Modulus == a * b;
    }
  }

  /** `DeleteElmentByValues(Tuple)`: the overload on a pair. It checks both
      coordinates against the side length, like the other overload. */
  function DeletePair(r: Relation, p: (int, int)): (res: Result<Relation>)
    ensures res == Delete(r, p.0, p.1)
  {
    if p.0 > r.n || p.1 > r.n || Int32(p.1 * p.0) == 0 then Ok(r)
    else if p.0 < 1 || p.1 < 1 then Err(IndexOutOfRange)
    else Ok(Update(r, p.0 - 1, p.1 - 1, false))
  }

  /** Deleting a pair with non-negative coordinates removes exactly that pair
      from the relation (nothing, if it was absent or out of range). */
  lemma DeleteRemovesPair(r: Relation, a: nat, b: nat)
    requires r.n < 0x1_0000
    ensures Delete(r, a, b).Ok?
    ensures Pairs(Delete(r, a, b).value) == Pairs(r) - {(a, b)}
    ensures Delete(r, a, b).value.power == r.power
  {
    var r' := Delete(r, a, b).value;
    if 1 <= a <= r.n && 1 <= b <= r.n {
      forall p ensures p in Pairs(r') <==> p in Pairs(r) - {(a, b)} {
        assert p == (p.0, p.1);
      }
    }
  }
}
