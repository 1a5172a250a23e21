/**
 The pure logic inside the console helpers: building a relation from a list
 of 1-based pairs (`InputRelations`) and listing the true cells as 1-based
 pairs in row-major order (`OutputRelations`).
 */
module Listing {
  import opened Relations

  /** p comes strictly before q in row-major order. */
  predicate Before(p: (int, int), q: (int, int)) {
    p.0 < q.0 || (p.0 == q.0 && p.1 < q.1)
  }

  /** Strictly increasing in row-major order (so also free of repeats). */
  ghost predicate RowMajor(s: seq<(int, int)>) {
    forall k, l :: 0 <= k < l < |s| ==> Before(s[k], s[l])
  }

  function Elems(s: seq<(int, int)>): set<(int, int)> {
    set p | p in s
  }

  lemma RowMajorConcat(s: seq<(int, int)>, t: seq<(int, int)>)
    requires RowMajor(s) && RowMajor(t)
    requires forall p, q :: p in s && q in t ==> Before(p, q)
    ensures RowMajor(s + t)
  {
    forall k, l | 0 <= k < l < |s + t| ensures Before((s + t)[k], (s + t)[l]) {
      if l < |s| {
        assert (s + t)[k] == s[k] && (s + t)[l] == s[l];
      } else if k >= |s| {
        assert (s + t)[k] == t[k - |s|] && (s + t)[l] == t[l - |s|];
      } else {
        assert (s + t)[k] in s && (s + t)[l] in t;
      }
    }
  }

  /** The inner loop of `OutputRelations`: true cells of row i from column j on. */
  function RowPairs(r: Relation, i: nat, j: nat): (s: seq<(int, int)>)
    requires i < r.n && j <= r.n
    ensures forall p :: p in s <==> p.0 == i + 1 && j < p.1 && Padded(r, i, p.1 - 1)
    ensures RowMajor(s)
    ensures |s| == RowCount(r.cells[i][j..])
    decreases r.n - j
  {
    if j == r.n then []
    else
      var rest := RowPairs(r, i, j + 1);
      assert r.cells[i][j..][1..] == r.cells[i][j + 1..];
      var here := if r.cells[i][j] then [(i + 1, j + 1)] else [];
      RowMajorConcat(here, rest);
      here + rest
  }

  /** The outer loop of `OutputRelations`: true cells of rows i.. . */
  function RowsFrom(r: Relation, i: nat): (s: seq<(int, int)>)
    requires i <= r.n
    ensures forall p :: p in s <==> i < p.0 && p in Pairs(r)
    ensures RowMajor(s)
    ensures |s| == GridCount(r.cells[i..])
    decreases r.n - i
  {
    if i == r.n then []
    else
      var row := RowPairs(r, i, 0);
      var rest := RowsFrom(r, i + 1);
      assert r.cells[i..][1..] == r.cells[i + 1..];
      assert r.cells[i][0..] == r.cells[i];
      RowMajorConcat(row, rest);
      row + rest
  }

  /** The pairs `OutputRelations` prints: exactly the relation's pairs, each
      once, in row-major order. */
  function TruePairs(r: Relation): (s: seq<(int, int)>)
    ensures Elems(s) == Pairs(r)
    ensures RowMajor(s)
    ensures |s| == GridCount(r.cells)
  {
    var s := RowsFrom(r, 0);
    assert r.cells[0..] == r.cells;
    assert forall p :: p in Pairs(r) ==> 0 < p.0;
    s
  }

  /** A sequence without repeats has as many distinct elements as entries. */
  lemma {:induction false} RowMajorCard(s: seq<(int, int)>)
    requires RowMajor(s)
    ensures |Elems(s)| == |s|
  {
    if |s| > 0 {
      RowMajorCard(s[1..]);
      assert Elems(s) == {s[0]} + Elems(s[1..]);
      assert s[0] !in Elems(s[1..]) by {
        forall k | 0 <= k < |s[1..]| ensures s[1..][k] != s[0] {
          assert Before(s[0], s[k + 1]);
        }
      }
    }
  }

  /** The head of a row-major sequence comes before every other element. */
  lemma HeadIsLeast(s: seq<(int, int)>, p: (int, int))
    requires RowMajor(s) && |s| > 0 && p in Elems(s)
    ensures p == s[0] || Before(s[0], p)
  {
    var k :| 0 <= k < |s| && s[k] == p;
    if k > 0 {
      assert Before(s[0], s[k]);
    }
  }

  /** Dropping the head of a row-major sequence drops exactly that element. */
  lemma TailElems(s: seq<(int, int)>)
    requires RowMajor(s) && |s| > 0
    ensures Elems(s[1..]) == Elems(s) - {s[0]}
    ensures RowMajor(s[1..])
  {
    forall p ensures p in Elems(s[1..]) <==> p in Elems(s) - {s[0]} {
      if p in Elems(s[1..]) {
        var k :| 0 <= k < |s[1..]| && s[1..][k] == p;
        assert Before(s[0], s[k + 1]);
      }
      if p in Elems(s) && p != s[0] {
        var k :| 0 <= k < |s| && s[k] == p;
        assert s[1..][k - 1] == p;
      }
    }
    forall k, l | 0 <= k < l < |s[1..]| ensures Before(s[1..][k], s[1..][l]) {
      assert s[1..][k] == s[k + 1] && s[1..][l] == s[l + 1];
    }
  }

  /** Two row-major sequences with the same elements are the same sequence. */
  lemma {:induction false} RowMajorUnique(s: seq<(int, int)>, t: seq<(int, int)>)
    requires RowMajor(s) && RowMajor(t) && Elems(s) == Elems(t)
    ensures s == t
  {
    if |s| == 0 {
      RowMajorCard(t);
    } else {
      assert s[0] in Elems(t);
      assert |t| > 0;
      HeadIsLeast(s, t[0]);
      HeadIsLeast(t, s[0]);
      assert s[0] == t[0];
      TailElems(s);
      TailElems(t);
      RowMajorUnique(s[1..], t[1..]);
      assert s == [s[0]] + s[1..] && t == [t[0]] + t[1..];
    }
  }

  /** The power cached by `new Relations(bool[,])` is the number of pairs
      in the relation. */
  lemma PowerIsPairCount(grid: seq<seq<bool>>)
    requires Square(grid)
    ensures FromGrid(grid).power == |Pairs(FromGrid(grid))|
  {
    RowMajorCard(TruePairs(FromGrid(grid)));
  }

  /** `maxElement` after reading the pairs of ps in order, starting from 0. */
  function MaxCoord(ps: seq<(int, int)>): (m: nat)
    ensures forall k :: 0 <= k < |ps| ==> ps[k].0 <= m && ps[k].1 <= m
    ensures m == 0 || exists k :: 0 <= k < |ps| && (ps[k].0 == m || ps[k].1 == m)
  {
    if |ps| == 0 then 0
    else
      var last := ps[|ps| - 1];
      var before := MaxCoord(ps[..|ps| - 1]);
      assert forall k :: 0 <= k < |ps| - 1 ==> ps[..|ps| - 1][k] == ps[k];
      Max(before, Max(last.0, last.1))
  }

  /** `res[a - 1, b - 1] = true` through the indexer for each pair (a, b) of ps
      in order; the first write that throws ends the whole operation. */
  function Mark(r: Relation, ps: seq<(int, int)>): (res: Result<Relation>)
    ensures res.Ok? <==> forall k :: 0 <= k < |ps| ==> 1 <= ps[k].0 <= r.n && 1 <= ps[k].1 <= r.n
    ensures res.Ok? ==> res.value.n == r.n && res.value.power == r.power
    ensures res.Ok? ==> Pairs(res.value) == Pairs(r) + Elems(ps)
    decreases |ps|
  {
    if |ps| == 0 then Ok(r)
    else
      match Set(r, ps[0].0 - 1, ps[0].1 - 1, true)
      case Err(e) => Err(e)
      case Ok(r1) =>
        MarkStep(r, ps, r1);
        Mark(r1, ps[1..])
  }

  /** One step of `Mark`: after the first write succeeds, the rest of the
      list is in range iff the whole list is, and it adds the remaining pairs. */
  lemma MarkStep(r: Relation, ps: seq<(int, int)>, r1: Relation)
    requires |ps| > 0 && Set(r, ps[0].0 - 1, ps[0].1 - 1, true) == Ok(r1)
    ensures r1.n == r.n && r1.power == r.power
    ensures (forall k :: 0 <= k < |ps| ==> 1 <= ps[k].0 <= r.n && 1 <= ps[k].1 <= r.n)
        <==> (forall k :: 0 <= k < |ps[1..]| ==> 1 <= ps[1..][k].0 <= r1.n && 1 <= ps[1..][k].1 <= r1.n)
    ensures Pairs(r1) + Elems(ps[1..]) == Pairs(r) + Elems(ps)
  {
    SetThenGet(r, ps[0].0, ps[0].1, true);
    assert ps == [ps[0]] + ps[1..];
    assert Elems(ps) == {ps[0]} + Elems(ps[1..]);
    assert forall k :: 1 <= k < |ps| ==> ps[1..][k - 1] == ps[k];
  }

  /** `InputRelations` on an already-read pair list: a matrix sized to the
      largest coordinate with every listed pair set. A coordinate below 1
      makes the write index negative, and the raw array throws. */
  function FromPairs(ps: seq<(int, int)>): (res: Result<Relation>)
    ensures res.Ok? <==> forall k :: 0 <= k < |ps| ==> ps[k].0 >= 1 && ps[k].1 >= 1
    ensures res.Ok? ==> res.value.n == MaxCoord(ps) && res.value.power == 0
    ensures res.Ok? ==> Pairs(res.value) == Elems(ps)
  {
    Mark(Empty(MaxCoord(ps)), ps)
  }

  /** Listing a relation built from pairs gives back exactly those pairs. */
  lemma ListingRecoversPairs(ps: seq<(int, int)>)
    requires forall k :: 0 <= k < |ps| ==> ps[k].0 >= 1 && ps[k].1 >= 1
    ensures FromPairs(ps).Ok?
    ensures Elems(TruePairs(FromPairs(ps).value)) == Elems(ps)
  {
  }

  /** Rebuilding a relation from its listing and listing it again prints the
      same pairs in the same order, and the rebuilt relation has the same pairs. */
  lemma ListingRoundTrip(r: Relation)
    ensures FromPairs(TruePairs(r)).Ok?
    ensures Pairs(FromPairs(TruePairs(r)).value) == Pairs(r)
    ensures TruePairs(FromPairs(TruePairs(r)).value) == TruePairs(r)
  {
    var s := TruePairs(r);
    forall k | 0 <= k < |s| ensures s[k].0 >= 1 && s[k].1 >= 1 {
      assert s[k] in Elems(s);
    }
    var r' := FromPairs(s).value;
    RowMajorUnique(TruePairs(r'), s);
  }
}
