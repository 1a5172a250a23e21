# Relations matrix model

A Dafny model of the `Relations` class of the `dm` program. The class stores a
binary relation on {1..N} as an N×N boolean matrix. The pair (a, b) is in the
relation iff the 0-based cell [a-1, b-1] is true. The model is an immutable
value `Rel(n, cells, power)`: `n` is the side length (`Length`), `cells` is the
grid as a sequence of rows, and `power` is the count cached at construction
(`Power`). The subset type `Relation` keeps the grid n×n. Every operation is a
pure function, and an exception the source can raise becomes an `Err` value.

Modules:

- `Relations` (relations.dfy): the matrix and both constructors. Also
  `CounterCells` and `Length`, the checked indexer, and both overloads of
  `DeleteElmentByValues`. `Pairs(r)` is the relation read as a set of 1-based
  pairs; most properties are stated against it.
- `Comparisons` (comparisons.dfy): `>= <= == != > <`.
- `Operators` (operators.dfy): `+ * - ^`, plus a corrected difference.
- `Listing` (listing.dfy): the pure logic of `InputRelations` (pairs to matrix)
  and `OutputRelations` (the true cells as 1-based pairs in row-major order).
- `Conversions` (conversion.dfy): `Conversion`, modelled as written.

Behaviour of the code worth knowing before reading the contracts:

- Both deletion overloads check both coordinates against `Length`
  (Program.cs:83, 102), so they behave the same on every input.
- Indexer writes and deletions never update `_power` (Program.cs:86, 105,
  130). So `Power`, documented at Program.cs:66-68 as the number of elements,
  stays 0 for `new Relations(n)`, `InputRelations` and every operator result,
  and a deletion does not lower it.
- A rejected deletion is caught and printed (Program.cs:88-91), so the matrix
  stays unchanged (`Ok(r)`). A negative index reaches the raw array and throws
  `IndexOutOfRangeException`, which nothing catches (`Err(IndexOutOfRange)`).

## Model

| member | source | states |
|---|---|---|
| `Relations.Empty` | Program.cs:26-29 | `new Relations(size)` has side `size`, power 0 and no pairs |
| `Relations.FromGrid` | Program.cs:35-45 | the array constructor keeps the given square grid as its cells and side, and caches the count of its true cells |
| `Listing.PowerIsPairCount` | Program.cs:38-44 | the power cached by the array constructor equals the number of pairs in the relation |
| `Relations.CounterCells` | Program.cs:51-54 | the total cell count, summed over the rows, is n·n |
| `Relations.Length` | Program.cs:60-63 | the side length squared is the cell count (it is the integer square root) and equals the number of rows |
| `Relations.Int32` | Program.cs:83 | a C# `int` expression wraps to the signed 32-bit range and agrees with the exact value modulo 2^32 |
| `Relations.Max` | Program.cs:277 | `Math.Max` is at least both arguments and equals one of them |
| `Relations.Min` | Program.cs:310 | `Math.Min` is at most both arguments and equals one of them |
| `Relations.Get` | Program.cs:119-124 | an indexer read succeeds iff 0 <= row < n and 0 <= col < n, and returns that cell; an index >= n gives ArgumentOutOfRange, a negative one IndexOutOfRange |
| `Relations.Set` | Program.cs:126-131 | an indexer write succeeds iff the index is in the grid; it sets exactly that cell, keeps every other cell, the side and the power; the error kinds are as for reads |
| `Relations.SetThenGet` | Program.cs:117-132 | reading back a written cell gives the written value, and the pair set gains (true) or loses (false) exactly that pair |
| `Relations.ProductInRange` | Program.cs:83 | for coordinates within a side below 2^16, the guard's 32-bit product is zero iff a coordinate is zero |
| `Relations.Delete` | Program.cs:79-92 | deletion keeps the side, the power and every other cell; with 1 <= a, b <= n (n < 2^16) it clears cell [a-1, b-1]; with a or b zero or above n it returns the matrix unchanged; it fails only on a negative coordinate |
| `Relations.DeletePair` | Program.cs:98-111 | the tuple overload gives the same result as the two-argument overload on every input |
| `Relations.DeleteRemovesPair` | Program.cs:79-92 | for non-negative coordinates (n < 2^16), deletion never fails, removes exactly the pair (a, b) from the pair set and keeps the power |
| `Comparisons.ColumnsMatch` | Program.cs:197-203 | the inner scan of `>=` is true iff row `row` agrees from column `col` to the end of r1's grid |
| `Comparisons.RowsMatch` | Program.cs:195-204 | the outer scan of `>=` is true iff every row from `row` on agrees over r1's grid |
| `Comparisons.GreaterEq` | Program.cs:188-207 | `r1 >= r2` iff r1's side is at most r2's and every cell of r1 equals r2's cell at the same place; r2 is never read out of bounds |
| `Comparisons.LessEq` | Program.cs:215-218 | `r1 <= r2` iff r2's side is at most r1's and r2's cells equal r1's over r2's grid |
| `Comparisons.Equal` | Program.cs:226-234 | `==` iff the sides are equal and every cell is equal (the power is not compared) |
| `Comparisons.NotEqual` | Program.cs:242-245 | `!=` iff the sides differ or some cell differs |
| `Comparisons.Greater` | Program.cs:253-256 | `r1 > r2` iff r1's side is strictly smaller and r1 agrees with r2 over r1's grid |
| `Comparisons.Less` | Program.cs:264-267 | `r1 < r2` iff r2's side is strictly smaller and r2 agrees with r1 over r2's grid |
| `Comparisons.EqualIffSameGrid` | Program.cs:226-234 | `==` holds exactly when the two grids are identical |
| `Comparisons.EqualReflexive` | Program.cs:226-245 | every relation is `==` to itself and not `!=` to itself |
| `Comparisons.EqualSymmetric` | Program.cs:226-234 | `r1 == r2` iff `r2 == r1` |
| `Comparisons.EqualTransitive` | Program.cs:226-234 | `==` is transitive |
| `Comparisons.GreaterEqPartialOrder` | Program.cs:188-207 | `>=` is reflexive and transitive, and `>=` in both directions implies `==` |
| `Comparisons.GreaterShrinks` | Program.cs:253-267 | `r1 > r2` implies r1's side is strictly smaller; `>` is irreflexive; `r1 < r2` iff `r2 > r1` |
| `Comparisons.GreaterEqByPairs` | Program.cs:188-207 | for r1 no larger than r2, `r1 >= r2` iff r1's pairs are exactly r2's pairs inside r1's grid |
| `Comparisons.GreaterEqIsNotContainment` | Program.cs:183-207 | `>=` is not pair containment: the empty 1×1 relation is contained in the full one, yet `>=` is false |
| `Operators.Union` | Program.cs:275-299 | `+` has side max(L1, L2) and power 0; each cell is the or of the operands, each read as false outside its own grid |
| `Operators.Intersection` | Program.cs:308-324 | `*` has side min(L1, L2) and power 0; both operands cover every cell, and each cell is the and of the operands |
| `Operators.Difference` | Program.cs:332-353 | `-` has side L1 and power 0; each cell is r1's cell xor r2's cell, r2 read as false outside its grid |
| `Operators.SymmetricDifference` | Program.cs:361-386 | `^` has side max(L1, L2) and power 0; each cell is the xor of the operands, each read as false outside its own grid |
| `Operators.UnionPairs` | Program.cs:275-299 | the pairs of `r1 + r2` are the union of the operands' pairs |
| `Operators.IntersectionPairs` | Program.cs:308-324 | the pairs of `r1 * r2` are the intersection of the operands' pairs |
| `Operators.SymmetricDifferencePairs` | Program.cs:361-386 | the pairs of `r1 ^ r2` are the symmetric difference of the operands' pairs |
| `Operators.DifferencePairs` | Program.cs:332-353 | the pairs of `r1 - r2` are the symmetric difference of the operands' pairs, limited to r1's grid |
| `Operators.DifferenceIsNotSubtraction` | Program.cs:340-343 | on the empty and the full 1×1 relations, `-` yields the pair (1, 1) although the set difference is empty |
| `Operators.DifferenceCorrected` | Program.cs:332-353 | the corrected difference has side L1 and power 0; each cell is r1's cell and not r2's |
| `Operators.DifferenceCorrectedPairs` | Program.cs:332-353 | the pairs of the corrected difference are r1's pairs minus r2's pairs |
| `Operators.DifferenceIsSymmetricDifferenceOnEqualSides` | Program.cs:332-386 | for operands of one side, `-` and `^` give the same relation |
| `Operators.UnionCommutes` | Program.cs:275-299 | `r1 + r2 == r2 + r1` |
| `Operators.IntersectionCommutes` | Program.cs:308-324 | `r1 * r2 == r2 * r1` |
| `Operators.SymmetricDifferenceCommutes` | Program.cs:361-386 | `r1 ^ r2 == r2 ^ r1` |
| `Operators.PairCountBounds` | Program.cs:275-324 | an intersection has at most as many pairs as either operand, and a union has at least as many as either |
| `Listing.RowPairs` | Program.cs:143-149 | the inner loop of the listing yields row i's pairs to the right of column j, in increasing column order, one per true cell |
| `Listing.RowsFrom` | Program.cs:141-150 | the outer loop yields the pairs of rows i+1.., in row-major order, one per true cell |
| `Listing.TruePairs` | Program.cs:138-152 | the listing holds exactly the relation's pairs, each once, in row-major order, as many as the true cells |
| `Listing.MaxCoord` | Program.cs:162-169 | `maxElement` is at least every coordinate read, and is 0 or one of them |
| `Listing.Mark` | Program.cs:173-176 | writing each pair through the indexer succeeds iff every coordinate is in 1..n; it then adds exactly those pairs and keeps side and power |
| `Listing.FromPairs` | Program.cs:159-180 | building from pairs fails iff some coordinate is below 1; otherwise the side is the largest coordinate, the power is 0 and the pairs are exactly the listed ones |
| `Listing.ListingRecoversPairs` | Program.cs:138-180 | listing a relation built from pairs with coordinates >= 1 gives back exactly those pairs, as a set |
| `Listing.ListingRoundTrip` | Program.cs:138-180 | rebuilding a relation from its listing succeeds, keeps its pairs, and lists the same pairs in the same order |
| `Conversions.DiagonalFrom` | Program.cs:392-399 | the diagonal scan collects (i, i) exactly for the indices i with a true diagonal cell, in increasing order |
| `Conversions.LastIsLargest` | Program.cs:397 | the last index the scan records is the largest |
| `Conversions.Conversion` | Program.cs:388-408 | `Conversion` fails iff cell [0, 0] is true; otherwise the side is the largest true diagonal index (or 0), the power is 0, and the pairs are (i, i) for each i >= 1 whose 0-based cell [i, i] is true |

## Findings

| source | as written | input that shows it | evidently intended | confidence | as-written member | corrected member |
|---|---|---|---|---|---|---|
| Program.cs:340-343 | `-` sets a cell covered by both operands to r1 XOR r2 | r1 = 1×1 [[false]], r2 = 1×1 [[true]]: `r1 - r2` holds (1, 1) | the difference of relations, r1 AND NOT r2 (the class documents the operator as the difference; `^` is the symmetric difference) | medium, not executed | `Operators.DifferenceIsNotSubtraction` | `Operators.DifferenceCorrectedPairs` |

`Operators.Difference` is the as-written operator and `Operators.DifferenceCorrected`
is the corrected one. No other operation is built on either.

## Left out

- Console I/O: reading and parsing pairs (`Console.ReadLine`, `Split`, `Convert.ToInt32`), printing the braces and the `(a,b)` tokens, printing caught exceptions, and `Main`. Only the pure pair-to-matrix and matrix-to-pairs logic is modelled; text rendering and decimal formatting are I/O.
- `Math.Sqrt` in `Length`: floating point. The side length is stored as `n`, and `Length` is proved to be the integer square root of the cell count.
- Non-square arrays passed to the array constructor: `FromGrid` requires a square grid.
- A negative size for `new Relations(int)`: the runtime rejects it when it allocates the array, so `Empty` takes a `nat`. Allocation failure for very large sizes is left out too.
- Aliasing: the array constructor stores the caller's array by reference. The model has values only, so a later change to the caller's array is not reflected.
- `Power`: it is the `power` field and has no member of its own. It is an `int` in the source. The model counts without bound, ignoring wrap-around beyond 2^31 − 1 true cells.
- Relations.Delete: the clearing guarantee and `DeleteRemovesPair` are stated for side lengths below 2^16. For larger sides the guard's 32-bit product can wrap to zero; the function body models the wrap, but no clean property is stated for that case.
- Listing.Mark: the coordinate minus one is computed without 32-bit wrap-around. Only the coordinate −2^31 is affected: the write still fails, but with a different exception kind. The ensures state only that the operation fails, not which kind of failure.
- Listing.FromPairs: the ensures state that a coordinate below 1 makes the operation fail, not which exception is raised.
