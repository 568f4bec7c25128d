/** The value-level meaning of a sparse matrix: a finite map from
    coordinates to integers in which every absent coordinate reads as 0.
    The functions here specify what the methods of SparseMatrix compute
    (the per-cell value, the sum, the difference and the product of the
    stored entries); the lemmas state the algebra those results obey. */
module SparseMaps {

  /** A cell position (row, column). Coordinates are unbounded integers:
      nothing in the source restricts them to the declared dimensions. */
  type Coord = (int, int)

  /** The stored entries of a sparse matrix (the source's `data` dict). */
  type Entries = map<Coord, int>

  /** The value of cell k: the stored value, or 0 when k is absent. */
  function Lookup(m: Entries, k: Coord): int
  {
    if k in m then m[k] else 0
  }

  /** The sparsity invariant: no stored entry holds the value 0. */
  predicate NoZeros(m: Entries)
  {
    forall k | k in m :: m[k] != 0
  }

  /** Two entry maps describe the same matrix cell by cell. */
  ghost predicate SameCells(a: Entries, b: Entries)
  {
    forall k :: Lookup(a, k) == Lookup(b, k)
  }

  /** Entries that keep the sparsity invariant are determined by their
      cells: there is exactly one sparse representation of a matrix. */
  lemma SparseIsCanonical(a: Entries, b: Entries)
    requires NoZeros(a) && NoZeros(b) && SameCells(a, b)
    ensures a == b
  {
    forall k | k in a ensures k in b && a[k] == b[k] {
      assert Lookup(a, k) == Lookup(b, k);
    }
    forall k | k in b ensures k in a {
      assert Lookup(a, k) == Lookup(b, k);
    }
    assert a.Keys == b.Keys;
  }

  // ---------------------------------------------------------------------
  // Writing one cell (set_element)
  // ---------------------------------------------------------------------

  /** The entries after writing v at k: a nonzero value is stored (or
      overwrites), a zero removes any entry for k. */
  function Assign(m: Entries, k: Coord, v: int): (m': Entries)
    ensures Lookup(m', k) == v
    ensures forall j :: j != k ==> Lookup(m', j) == Lookup(m, j)
    ensures m'.Keys == if v != 0 then m.Keys + {k} else m.Keys - {k}
    ensures NoZeros(m) ==> NoZeros(m')
  {
    if v != 0 then m[k := v] else m - {k}
  }

  // ---------------------------------------------------------------------
  // Addition and subtraction
  // ---------------------------------------------------------------------

  /** The sparse sum of two matrices. */
  function MapSum(a: Entries, b: Entries): (s: Entries)
    ensures forall k :: Lookup(s, k) == Lookup(a, k) + Lookup(b, k)
    ensures NoZeros(s)
    ensures s.Keys <= a.Keys + b.Keys
  {
    map k | k in a.Keys + b.Keys && Lookup(a, k) + Lookup(b, k) != 0 :: Lookup(a, k) + Lookup(b, k)
  }

  /** The sparse difference of two matrices. */
  function MapDiff(a: Entries, b: Entries): (d: Entries)
    ensures forall k :: Lookup(d, k) == Lookup(a, k) - Lookup(b, k)
    ensures NoZeros(d)
    ensures d.Keys <= a.Keys + b.Keys
  {
    map k | k in a.Keys + b.Keys && Lookup(a, k) - Lookup(b, k) != 0 :: Lookup(a, k) - Lookup(b, k)
  }

  /** Sparse entries whose every cell is the cell sum ARE the sum. */
  lemma SumByCells(m: Entries, a: Entries, b: Entries)
    requires NoZeros(m) && forall k :: Lookup(m, k) == Lookup(a, k) + Lookup(b, k)
    ensures m == MapSum(a, b)
  {
    SparseIsCanonical(m, MapSum(a, b));
  }

  /** Sparse entries whose every cell is the cell difference ARE the
      difference. */
  lemma DiffByCells(m: Entries, a: Entries, b: Entries)
    requires NoZeros(m) && forall k :: Lookup(m, k) == Lookup(a, k) - Lookup(b, k)
    ensures m == MapDiff(a, b)
  {
    SparseIsCanonical(m, MapDiff(a, b));
  }

  /** Addition does not depend on the order of its operands. */
  lemma SumCommutes(a: Entries, b: Entries)
    ensures MapSum(a, b) == MapSum(b, a)
  {
    SparseIsCanonical(MapSum(a, b), MapSum(b, a));
  }

  /** Adding the empty matrix leaves every cell as it was, and gives back
      the very same entries when they are sparse. */
  lemma SumZeroIdentity(a: Entries)
    ensures SameCells(MapSum(a, map[]), a)
    ensures NoZeros(a) ==> MapSum(a, map[]) == a
  {
    if NoZeros(a) {
      SparseIsCanonical(MapSum(a, map[]), a);
    }
  }

  /** Subtracting what was added gives back the first operand, cell by
      cell, and exactly when that operand is sparse. */
  lemma SumThenDiff(a: Entries, b: Entries)
    ensures SameCells(MapDiff(MapSum(a, b), b), a)
    ensures NoZeros(a) ==> MapDiff(MapSum(a, b), b) == a
  {
    if NoZeros(a) {
      SparseIsCanonical(MapDiff(MapSum(a, b), b), a);
    }
  }

  /** A matrix minus itself stores nothing. */
  lemma DiffSelfIsEmpty(a: Entries)
    ensures MapDiff(a, a) == map[]
  {
    SparseIsCanonical(MapDiff(a, a), map[]);
  }

  // ---------------------------------------------------------------------
  // Multiplication
  // ---------------------------------------------------------------------

  /** What the stored entry of a at k contributes to cell (r, c2) of the
      product a * b: a[k] * b[(k.1, c2)] when k lies in row r, else 0. */
  function Term(a: Entries, b: Entries, k: Coord, r: int, c2: int): int
  {
    if k.0 == r then Lookup(a, k) * Lookup(b, (k.1, c2)) else 0
  }

  /** The sum of Term over a finite set of coordinates of a. */
  ghost function RowDot(a: Entries, b: Entries, keys: set<Coord>, r: int, c2: int): int
    decreases |keys|
  {
    if keys == {} then 0
    else
      var k :| k in keys;
      Term(a, b, k, r, c2) + RowDot(a, b, keys - {k}, r, c2)
  }

  /** RowDot can take any element of its set first. */
  lemma RowDotRemove(a: Entries, b: Entries, keys: set<Coord>, x: Coord, r: int, c2: int)
    requires x in keys
    ensures RowDot(a, b, keys, r, c2) == Term(a, b, x, r, c2) + RowDot(a, b, keys - {x}, r, c2)
    decreases |keys|
  {
    var y :| y in keys && RowDot(a, b, keys, r, c2) == Term(a, b, y, r, c2) + RowDot(a, b, keys - {y}, r, c2);
    if y != x {
      RowDotRemove(a, b, keys - {y}, x, r, c2);
      RowDotRemove(a, b, keys - {x}, y, r, c2);
      assert keys - {y} - {x} == keys - {x} - {y};
    }
  }

  /** Adding a coordinate to a RowDot adds its term, in every cell. */
  lemma RowDotAdd(a: Entries, b: Entries, keys: set<Coord>, x: Coord)
    requires x !in keys
    ensures forall r, c :: RowDot(a, b, keys + {x}, r, c) == Term(a, b, x, r, c) + RowDot(a, b, keys, r, c)
  {
    forall r, c ensures RowDot(a, b, keys + {x}, r, c) == Term(a, b, x, r, c) + RowDot(a, b, keys, r, c) {
      RowDotRemove(a, b, keys + {x}, x, r, c);
      assert keys + {x} - {x} == keys;
    }
  }

  /** Coordinates that contribute nothing can be dropped from a RowDot. */
  lemma RowDotRestrict(a: Entries, b: Entries, keys: set<Coord>, sub: set<Coord>, r: int, c2: int)
    requires sub <= keys
    requires forall k :: k in keys - sub ==> Term(a, b, k, r, c2) == 0
    ensures RowDot(a, b, keys, r, c2) == RowDot(a, b, sub, r, c2)
    decreases |keys|
  {
    if keys - sub != {} {
      var x :| x in keys - sub;
      RowDotRemove(a, b, keys, x, r, c2);
      RowDotRestrict(a, b, keys - {x}, sub, r, c2);
    } else {
      assert keys == sub;
    }
  }

  /** The coordinates the multiplication loop can write: a row of some
      stored entry of a, and a column in [0, cols). */
  function Candidates(a: Entries, cols: int): set<Coord>
  {
    set k, c2 | k in a.Keys && 0 <= c2 < cols :: (k.0, c2)
  }

  /** Outside the candidate coordinates every product cell is 0. */
  lemma ProductOffCandidates(a: Entries, b: Entries, cols: int, r: int, c2: int)
    requires 0 <= c2 < cols && (r, c2) !in Candidates(a, cols)
    ensures RowDot(a, b, a.Keys, r, c2) == 0
  {
    forall k | k in a.Keys ensures k.0 != r {
      assert (k.0, c2) in Candidates(a, cols);
    }
    RowDotRestrict(a, b, a.Keys, {}, r, c2);
  }

  /** The sparse product of a and b for a result with cols columns: cell
      (r, c2) is the sum, over the stored entries (r, c1) of a, of
      a[(r, c1)] * b[(c1, c2)], for every column c2 in [0, cols). */
  ghost function MapProduct(a: Entries, b: Entries, cols: int): (p: Entries)
    ensures NoZeros(p)
    ensures forall k :: k in p ==> 0 <= k.1 < cols
    ensures forall r, c2 :: Lookup(p, (r, c2)) == if 0 <= c2 < cols then RowDot(a, b, a.Keys, r, c2) else 0
  {
    var p := map k | k in Candidates(a, cols) && RowDot(a, b, a.Keys, k.0, k.1) != 0
                   :: RowDot(a, b, a.Keys, k.0, k.1);
    assert forall r, c2 | 0 <= c2 < cols && (r, c2) !in Candidates(a, cols)
      :: RowDot(a, b, a.Keys, r, c2) == 0 by {
      forall r, c2 | 0 <= c2 < cols && (r, c2) !in Candidates(a, cols)
        ensures RowDot(a, b, a.Keys, r, c2) == 0
      {
        ProductOffCandidates(a, b, cols, r, c2);
      }
    }
    p
  }

  /** Sparse entries whose every cell is the product's cell ARE the
      product. */
  lemma ProductByCells(m: Entries, a: Entries, b: Entries, cols: int)
    requires NoZeros(m)
    requires forall r, c :: Lookup(m, (r, c)) == if 0 <= c < cols then RowDot(a, b, a.Keys, r, c) else 0
    ensures m == MapProduct(a, b, cols)
  {
    var p := MapProduct(a, b, cols);
    forall j ensures Lookup(m, j) == Lookup(p, j) {
      var r, c := j.0, j.1;
      assert j == (r, c);
      assert Lookup(m, (r, c)) == if 0 <= c < cols then RowDot(a, b, a.Keys, r, c) else 0;
      assert Lookup(p, (r, c)) == if 0 <= c < cols then RowDot(a, b, a.Keys, r, c) else 0;
    }
    SparseIsCanonical(m, p);
  }

  /** Every stored column of m lies in [0, cols). */
  predicate ColsBelow(m: Entries, cols: int)
  {
    forall k | k in m :: 0 <= k.1 < cols
  }

  /** When b keeps its entries inside its declared columns, every cell of
      the product, in range or not, is the sum over the stored entries of
      a in that row. */
  lemma ProductOfStoredEntries(a: Entries, b: Entries, cols: int)
    requires ColsBelow(b, cols)
    ensures forall r, c2 :: Lookup(MapProduct(a, b, cols), (r, c2)) == RowDot(a, b, a.Keys, r, c2)
  {
    forall r, c2 ensures Lookup(MapProduct(a, b, cols), (r, c2)) == RowDot(a, b, a.Keys, r, c2) {
      if !(0 <= c2 < cols) {
        forall k | k in a.Keys ensures Term(a, b, k, r, c2) == 0 {
          assert (k.1, c2) !in b;
        }
        RowDotRestrict(a, b, a.Keys, {}, r, c2);
      }
    }
  }

  /** The textbook dot product of row r of a with column c2 of b over the
      inner indices 0 .. n-1, reading absent cells as 0. */
  function DenseDot(a: Entries, b: Entries, r: int, c2: int, n: int): int
    decreases n
  {
    if n <= 0 then 0
    else DenseDot(a, b, r, c2, n - 1) + Lookup(a, (r, n - 1)) * Lookup(b, (n - 1, c2))
  }

  /** The stored entries of a in row r with a column below j. */
  function RowPrefix(a: Entries, r: int, j: int): set<Coord>
  {
    set k | k in a.Keys && k.0 == r && 0 <= k.1 < j
  }

  lemma {:induction false} RowPrefixIsDense(a: Entries, b: Entries, r: int, c2: int, j: int)
    requires 0 <= j
    ensures RowDot(a, b, RowPrefix(a, r, j), r, c2) == DenseDot(a, b, r, c2, j)
    decreases j
  {
    if j > 0 {
      RowPrefixIsDense(a, b, r, c2, j - 1);
      var last := (r, j - 1);
      if last in a {
        assert RowPrefix(a, r, j) - {last} == RowPrefix(a, r, j - 1);
        RowDotRemove(a, b, RowPrefix(a, r, j), last, r, c2);
      } else {
        assert RowPrefix(a, r, j) == RowPrefix(a, r, j - 1);
      }
    }
  }

  /** When the columns of a lie in [0, n), the sum over stored entries is
      the dense dot product over all n inner indices. */
  lemma SparseDotIsDense(a: Entries, b: Entries, r: int, c2: int, n: int)
    requires 0 <= n && ColsBelow(a, n)
    ensures RowDot(a, b, a.Keys, r, c2) == DenseDot(a, b, r, c2, n)
  {
    RowDotRestrict(a, b, a.Keys, RowPrefix(a, r, n), r, c2);
    RowPrefixIsDense(a, b, r, c2, n);
  }

  /** A dense dot product vanishes when column c2 of b is empty. */
  lemma {:induction false} DenseDotEmptyColumn(a: Entries, b: Entries, r: int, c2: int, n: int)
    requires forall c1 :: (c1, c2) !in b
    ensures DenseDot(a, b, r, c2, n) == 0
    decreases n
  {
    if n > 0 {
      DenseDotEmptyColumn(a, b, r, c2, n - 1);
    }
  }

  /** For an m x n matrix a and an n x p matrix b whose stored columns lie
      inside their declared widths, the sparse product is the ordinary
      matrix product, cell by cell. */
  lemma ProductIsMatrixProduct(a: Entries, b: Entries, n: int, p: int)
    requires 0 <= n && ColsBelow(a, n) && ColsBelow(b, p)
    ensures forall r, c2 :: Lookup(MapProduct(a, b, p), (r, c2)) == DenseDot(a, b, r, c2, n)
  {
    forall r, c2 ensures Lookup(MapProduct(a, b, p), (r, c2)) == DenseDot(a, b, r, c2, n) {
      if 0 <= c2 < p {
        SparseDotIsDense(a, b, r, c2, n);
      } else {
        DenseDotEmptyColumn(a, b, r, c2, n);
      }
    }
  }

  /** The worked example: A = {(0,0): 1, (1,1): 2} and
      B = {(0,0): 3, (0,1): 4}, both 2 x 2. Their sum: */
  lemma WorkedSum()
    ensures MapSum(map[(0, 0) := 1, (1, 1) := 2], map[(0, 0) := 3, (0, 1) := 4])
         == map[(0, 0) := 4, (0, 1) := 4, (1, 1) := 2]
  {
    var a := map[(0, 0) := 1, (1, 1) := 2];
    var b := map[(0, 0) := 3, (0, 1) := 4];
    SparseIsCanonical(MapSum(a, b), map[(0, 0) := 4, (0, 1) := 4, (1, 1) := 2]);
  }

  /** Their product: row 1 of A meets only row 1 of B, which is empty. */
  lemma WorkedProduct()
    ensures MapProduct(map[(0, 0) := 1, (1, 1) := 2], map[(0, 0) := 3, (0, 1) := 4], 2)
         == map[(0, 0) := 3, (0, 1) := 4]
  {
    var a := map[(0, 0) := 1, (1, 1) := 2];
    var b := map[(0, 0) := 3, (0, 1) := 4];
    var p := map[(0, 0) := 3, (0, 1) := 4];
    var m := MapProduct(a, b, 2);
    assert SameCells(m, p) by {
      ProductIsMatrixProduct(a, b, 2, 2);
      forall k ensures Lookup(m, k) == Lookup(p, k) {
        WorkedProductCell(k.0, k.1);
      }
    }
    SparseIsCanonical(m, p);
  }

  lemma WorkedProductCell(r: int, c2: int)
    ensures DenseDot(map[(0, 0) := 1, (1, 1) := 2], map[(0, 0) := 3, (0, 1) := 4], r, c2, 2)
         == Lookup(map[(0, 0) := 3, (0, 1) := 4], (r, c2))
  {
    var a := map[(0, 0) := 1, (1, 1) := 2];
    var b := map[(0, 0) := 3, (0, 1) := 4];
    assert DenseDot(a, b, r, c2, 1) == Lookup(a, (r, 0)) * Lookup(b, (0, c2));
    assert Lookup(b, (1, c2)) == 0;
  }
}
