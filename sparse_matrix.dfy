/** The SparseMatrix class: a dictionary of stored entries and two
    declared dimensions, with element access and the three arithmetic
    operations. Each operation builds a fresh result through
    set_element and leaves both operands untouched; its contract ties
    the result to the value-level definitions of SparseMaps. */
module Matrices {
  import opened Outcomes
  import opened SparseMaps
  import MatrixFile

  class SparseMatrix {
    /** The stored entries, keyed by (row, col). */
    var data: Entries
    /** The declared dimensions. Nothing checks them against the stored
        coordinates, and nothing requires them to be positive. */
    var rows: int
    var cols: int

    /** An empty matrix with the given dimensions. */
    constructor (numRows: int, numCols: int)
      ensures data == map[] && rows == numRows && cols == numCols
    {
      data := map[];
      rows := numRows;
      cols := numCols;
    }

    /** A matrix read from the lines of a matrix file: the entries and
        dimensions the reader returns, or the reader's format error. */
    static method FromLines(lines: seq<string>) returns (res: Result<SparseMatrix>)
      ensures res.Err? <==> MatrixFile.ParseMatrix(lines).Err?
      ensures res.Err? ==> res.error == FormatError
      ensures res.Ok? ==> fresh(res.value)
      ensures res.Ok? ==> res.value.data == MatrixFile.ParseMatrix(lines).value.data
      ensures res.Ok? ==> res.value.rows == MatrixFile.ParseMatrix(lines).value.rows
      ensures res.Ok? ==> res.value.cols == MatrixFile.ParseMatrix(lines).value.cols
    {
      var loaded := MatrixFile.LoadLines(lines);
      MatrixFile.ParseMatrixFailIff(lines);
      match loaded
      case Err(e) =>
        return Err(e);
      case Ok(l) =>
        var m := new SparseMatrix(l.rows, l.cols);
        m.data := l.data;
        return Ok(m);
    }

    /** The value at (row, col): the stored value, or 0 when none is
        stored. Any coordinates are accepted, in range or not. */
    function Get(row: int, col: int): (v: int)
      reads this
      ensures (row, col) in data ==> v == data[(row, col)]
      ensures (row, col) !in data ==> v == 0
    {
      if (row, col) in data then data[(row, col)] else 0
    }

    /** Writes value at (row, col); a zero removes the entry instead of
        storing it. Any coordinates are accepted, in range or not. */
    method SetElement(row: int, col: int, value: int)
      modifies this`data
      ensures data == Assign(old(data), (row, col), value)
      ensures Get(row, col) == value
      ensures forall r, c :: (r, c) != (row, col) ==> Get(r, c) == old(Get(r, c))
      ensures value == 0 ==> (row, col) !in data
      ensures old(NoZeros(data)) ==> NoZeros(data)
    {
      if value != 0 {
        data := data[(row, col) := value];
      } else if (row, col) in data {
        data := data - {(row, col)};
      }
    }

    /** The sum of this and other, when their dimensions agree. */
    method Add(other: SparseMatrix) returns (res: Result<SparseMatrix>)
      ensures res.Err? <==> (rows != other.rows || cols != other.cols)
      ensures res.Err? ==> res.error == DimensionMismatch
      ensures res.Ok? ==> fresh(res.value) && res.value.rows == rows && res.value.cols == cols
      ensures res.Ok? ==> res.value.data == MapSum(data, other.data)
      ensures unchanged(this, other)
    {
      if rows != other.rows || cols != other.cols {
        return Err(DimensionMismatch);
      }
      var result := new SparseMatrix(rows, cols);
      SumOwnEntries(other, result);
      SumOtherEntries(other, result);
      return Ok(result);
    }

    /** The first loop of add: every entry of this, plus the matching
        cell of other, written into result. */
    method SumOwnEntries(other: SparseMatrix, result: SparseMatrix)
      requires result != this && result != other && result.data == map[]
      modifies result`data
      ensures NoZeros(result.data)
      ensures forall j :: Lookup(result.data, j) == if j in data then Lookup(data, j) + Lookup(other.data, j) else 0
    {
      var todo := data.Keys;
      while todo != {}
        invariant todo <= data.Keys
        invariant NoZeros(result.data)
        invariant forall j :: Lookup(result.data, j) ==
                               if j in data.Keys - todo then Lookup(data, j) + Lookup(other.data, j) else 0
        decreases |todo|
      {
        var k :| k in todo;
        result.SetElement(k.0, k.1, data[k] + other.Get(k.0, k.1));
        todo := todo - {k};
      }
    }

    /** The second loop of add: the entries of other at coordinates this
        does not store, written into result. */
    method SumOtherEntries(other: SparseMatrix, result: SparseMatrix)
      requires result != this && result != other
      requires NoZeros(result.data)
      requires forall j :: Lookup(result.data, j) == if j in data then Lookup(data, j) + Lookup(other.data, j) else 0
      modifies result`data
      ensures result.data == MapSum(data, other.data)
    {
      var rest := other.data.Keys;
      while rest != {}
        invariant rest <= other.data.Keys
        invariant NoZeros(result.data)
        invariant forall j :: Lookup(result.data, j) ==
                               if j in data || j in other.data.Keys - rest then Lookup(data, j) + Lookup(other.data, j) else 0
        decreases |rest|
      {
        var k :| k in rest;
        if k !in data {
          result.SetElement(k.0, k.1, other.data[k]);
        }
        rest := rest - {k};
      }
      SumByCells(result.data, data, other.data);
    }

    /** The difference this - other, when their dimensions agree. */
    method Subtract(other: SparseMatrix) returns (res: Result<SparseMatrix>)
      ensures res.Err? <==> (rows != other.rows || cols != other.cols)
      ensures res.Err? ==> res.error == DimensionMismatch
      ensures res.Ok? ==> fresh(res.value) && res.value.rows == rows && res.value.cols == cols
      ensures res.Ok? ==> res.value.data == MapDiff(data, other.data)
      ensures unchanged(this, other)
    {
      if rows != other.rows || cols != other.cols {
        return Err(DimensionMismatch);
      }
      var result := new SparseMatrix(rows, cols);
      DiffOwnEntries(other, result);
      DiffOtherEntries(other, result);
      return Ok(result);
    }

    /** The first loop of subtract: every entry of this, less the matching
        cell of other, written into result. */
    method DiffOwnEntries(other: SparseMatrix, result: SparseMatrix)
      requires result != this && result != other && result.data == map[]
      modifies result`data
      ensures NoZeros(result.data)
      ensures forall j :: Lookup(result.data, j) == if j in data then Lookup(data, j) - Lookup(other.data, j) else 0
    {
      var todo := data.Keys;
      while todo != {}
        invariant todo <= data.Keys
        invariant NoZeros(result.data)
        invariant forall j :: Lookup(result.data, j) ==
                               if j in data.Keys - todo then Lookup(data, j) - Lookup(other.data, j) else 0
        decreases |todo|
      {
        var k :| k in todo;
        result.SetElement(k.0, k.1, data[k] - other.Get(k.0, k.1));
        todo := todo - {k};
      }
    }

    /** The second loop of subtract: the negated entries of other at coordinates this
        does not store, written into result. */
    method DiffOtherEntries(other: SparseMatrix, result: SparseMatrix)
      requires result != this && result != other
      requires NoZeros(result.data)
      requires forall j :: Lookup(result.data, j) == if j in data then Lookup(data, j) - Lookup(other.data, j) else 0
      modifies result`data
      ensures result.data == MapDiff(data, other.data)
    {
      var rest := other.data.Keys;
      while rest != {}
        invariant rest <= other.data.Keys
        invariant NoZeros(result.data)
        invariant forall j :: Lookup(result.data, j) ==
                               if j in data || j in other.data.Keys - rest then Lookup(data, j) - Lookup(other.data, j) else 0
        decreases |rest|
      {
        var k :| k in rest;
        if k !in data {
          result.SetElement(k.0, k.1, -other.data[k]);
        }
        rest := rest - {k};
      }
      DiffByCells(result.data, data, other.data);
    }

    /** The product this * other, when the columns of this match the
        rows of other. Only the columns [0, other.cols) of the result are
        computed. */
    method Multiply(other: SparseMatrix) returns (res: Result<SparseMatrix>)
      ensures res.Err? <==> cols != other.rows
      ensures res.Err? ==> res.error == DimensionMismatch
      ensures res.Ok? ==> fresh(res.value) && res.value.rows == rows && res.value.cols == other.cols
      ensures res.Ok? ==> res.value.data == MapProduct(data, other.data, other.cols)
      ensures unchanged(this, other)
    {
      if cols != other.rows {
        return Err(DimensionMismatch);
      }
      var result := new SparseMatrix(rows, other.cols);
      var todo := data.Keys;
      while todo != {}
        invariant todo <= data.Keys
        invariant fresh(result) && result.rows == rows && result.cols == other.cols
        invariant NoZeros(result.data)
        invariant forall r, c ::
                    Lookup(result.data, (r, c)) ==
                    if 0 <= c < other.cols then RowDot(data, other.data, data.Keys - todo, r, c) else 0
        decreases |todo|
      {
        var k :| k in todo;
        ghost var done := data.Keys - todo;
        AddEntryTerms(other, result, k, done);
        RowDotAdd(data, other.data, done, k);
        assert data.Keys - (todo - {k}) == done + {k};
        todo := todo - {k};
      }
      assert data.Keys - todo == data.Keys;
      ProductByCells(result.data, data, other.data, other.cols);
      return Ok(result);
    }

    /** The inner loop of multiply: for each column c2 in
        [0, other.cols), adds data[k] * other[(k.1, c2)] to cell
        (k.0, c2) of result when the factor from other is nonzero. */
    method AddEntryTerms(other: SparseMatrix, result: SparseMatrix, k: Coord, ghost done: set<Coord>)
      requires result != this && result != other && k in data
      requires NoZeros(result.data)
      requires forall r, c ::
                 Lookup(result.data, (r, c)) ==
                 if 0 <= c < other.cols then RowDot(data, other.data, done, r, c) else 0
      modifies result`data
      ensures NoZeros(result.data)
      ensures forall r, c ::
                Lookup(result.data, (r, c)) ==
                if 0 <= c < other.cols
                then RowDot(data, other.data, done, r, c) + Term(data, other.data, k, r, c)
                else 0
    {
      var c2 := 0;
      while c2 < other.cols
        invariant 0 <= c2 && (c2 <= other.cols || c2 == 0)
        invariant NoZeros(result.data)
        invariant forall r, c ::
                    Lookup(result.data, (r, c)) ==
                    if 0 <= c < other.cols
                    then RowDot(data, other.data, done, r, c) + (if c < c2 then Term(data, other.data, k, r, c) else 0)
                    else 0
      {
        var v2 := other.Get(k.1, c2);
        if v2 != 0 {
          result.SetElement(k.0, c2, result.Get(k.0, c2) + data[k] * v2);
        }
        c2 := c2 + 1;
      }
    }
  }
}
