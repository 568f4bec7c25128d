# Sparse matrix: a verified model

This project models the `SparseMatrix` class of `code/src/sparse-matrix.py`.
A matrix is a dictionary that maps `(row, col)` to a value, plus two declared
dimensions. The class can also be loaded from a small text format. It offers
element access (`get_element`, `set_element`) and three operations that each
build a new matrix (`add`, `subtract`, `multiply`).

The model has five modules:

- `Outcomes` (`outcomes.dfy`): the `Result` and `Option` types. The two
  errors the class raises are `FormatError` and `DimensionMismatch`.
- `SparseMaps` (`sparse_maps.dfy`): what a matrix means as a value. Entries
  are a `map<(int, int), int>`, and an absent cell reads as 0. The module
  defines writing one cell (`Assign`), the sparse sum and difference, and the
  sparse product as a sum over the stored entries. Its lemmas state the algebra
  of these operations. Among them: sparse maps are canonical, `A + B - B == A`,
  and the product equals the textbook sum over `c1 in [0, n)` of
  `A[r][c1] * B[c1][c2]`.
- `Text` (`text.dfy`): the three Python string operations the reader relies
  on. These are `str.strip()` (with Python's full `isspace()` set), `str.split(sep)`
  and `int()` in base 10, plus `str(n)` for what `display()` prints. `int()`
  skips a narrower set of white space than `strip()`: the four ASCII separators
  U+001C .. U+001F count as white space for `strip()` but make `int()` fail.
  The operations come with round trips: `split` undoes joining, and
  `int(str(n)) == n`.
- `MatrixFile` (`matrix_file.dfy`): the reader of `load_from_file`, taken over
  the file's lines. It is a function (`ParseMatrix`) plus the loop that
  computes it (`LoadLines`, `ReadEntries`, `ReadLine`). It also holds the
  lines `display()` prints (`Display`), in Python's sorted order, and the round
  trip: reading a header and the displayed lines gives back the matrix.
- `Matrices` (`sparse_matrix.dfy`): the class itself. It has fields `data`,
  `rows` and `cols`; `SetElement` updates `data` in place, and `Add`,
  `Subtract` and `Multiply` loop over the stored keys into a fresh result
  through `SetElement`, as the source does. Each method's contract ties the
  new matrix to `MapSum`, `MapDiff` or `MapProduct`. None of the three has a
  `modifies` clause, so neither operand can change; `unchanged(this, other)`
  states this explicitly.

Behaviour of the code that the model keeps as written:

- The reader stores zero values. The comment on line 47 says only nonzero
  values are stored, but the code stores whatever triple it reads
  (`ReaderStoresZeros`). `display()` then prints those zero entries too.
  `set_element` never stores a zero and keeps a zero-free matrix zero-free;
  `add`, `subtract` and `multiply` return zero-free entries.
- `get_element` and `set_element` do no bounds checking. Any integer
  coordinates are accepted, and the declared dimensions are never compared
  with the stored keys.
- A dimension line is read positionally. Its value is `int()` of the text
  between the first and the second `=` of the stripped line; the key before
  the `=` is never checked. A line without `=` is a format error.
- Entry lines are stripped first, so blank lines are skipped. Each entry must
  start with `(` and end with `)`, and split into exactly three comma-separated
  pieces that `int()` accepts; `int()` itself allows surrounding white space,
  but not the separators U+001C .. U+001F, which `strip()` removes
  (`SeparatorInDimensionFails`, `SeparatorInEntryFails`).
  A later triple at the same coordinates overwrites an earlier one
  (`CollectLastWins`).
- `multiply` only visits columns `0 .. other.cols - 1`. Entries of `other`
  stored outside its declared columns are ignored, and the product is the
  textbook product only when `other` keeps its entries inside its columns
  (`ProductOfStoredEntries`, `ProductIsMatrixProduct`).
- Every failure of the reader becomes `FormatError`. In Python, these failures
  are an `IndexError` (fewer than two lines, or no `=`) or a `ValueError`, and
  each is re-raised as a `ValueError`. Dimension errors of the arithmetic
  become `DimensionMismatch`.

The loops of `add`, `subtract` and `multiply` walk a dictionary, which Python
does in insertion order. The model picks the next key arbitrarily (`:|`). The
contracts prove that the result does not depend on the order.

## Model

| member | source | states |
|---|---|---|
| Matrices.SparseMatrix.constructor | code/src/sparse-matrix.py:12-15 | an empty matrix: no stored entries, with the given dimensions |
| Matrices.SparseMatrix.FromLines | code/src/sparse-matrix.py:10-11 | loading from file lines fails exactly when the reader fails, always with a format error; on success the fresh matrix holds the reader's entries and dimensions |
| Matrices.SparseMatrix.Get | code/src/sparse-matrix.py:54-63 | the stored value for a stored coordinate, 0 for any other coordinate, in range or not |
| Matrices.SparseMatrix.SetElement | code/src/sparse-matrix.py:65-77 | afterwards the cell reads the new value and every other cell reads as before; a zero leaves the key absent; a zero-free matrix stays zero-free; only `data` changes |
| Matrices.SparseMatrix.Add | code/src/sparse-matrix.py:79-100 | fails exactly when either dimension differs; otherwise a fresh matrix with the shared dimensions whose entries are the sparse cell-wise sum; both operands unchanged |
| Matrices.SparseMatrix.SumOwnEntries | code/src/sparse-matrix.py:91-93 | after the first loop of add, the cells at keys of self hold self + other there, every other cell is 0, and no zero is stored |
| Matrices.SparseMatrix.SumOtherEntries | code/src/sparse-matrix.py:95-98 | after the second loop of add, the result is exactly the sparse sum |
| Matrices.SparseMatrix.Subtract | code/src/sparse-matrix.py:102-123 | fails exactly when either dimension differs; otherwise a fresh matrix with the shared dimensions whose entries are the sparse cell-wise difference; both operands unchanged |
| Matrices.SparseMatrix.DiffOwnEntries | code/src/sparse-matrix.py:114-116 | after the first loop of subtract, the cells at keys of self hold self - other there, every other cell is 0, and no zero is stored |
| Matrices.SparseMatrix.DiffOtherEntries | code/src/sparse-matrix.py:118-121 | after the second loop of subtract, the result is exactly the sparse difference |
| Matrices.SparseMatrix.Multiply | code/src/sparse-matrix.py:125-144 | fails exactly when self.cols != other.rows; otherwise a fresh self.rows x other.cols matrix whose entries are the sparse product over the columns [0, other.cols); both operands unchanged |
| Matrices.SparseMatrix.AddEntryTerms | code/src/sparse-matrix.py:139-142 | the inner loop of multiply adds the contribution of one stored entry of self to every cell of its row with column in [0, other.cols), and stores no zero |
| SparseMaps.Assign | code/src/sparse-matrix.py:74-77 | writing v at k: k reads v, every other cell is unchanged, k is stored exactly when v != 0, sparsity is kept |
| SparseMaps.SparseIsCanonical | code/src/sparse-matrix.py:13 | two zero-free entry maps that agree on every cell are the same map |
| SparseMaps.MapSum | code/src/sparse-matrix.py:92-98 | every cell of the sum is the sum of the two cells; no zero is stored; keys lie in the union of the operands' keys |
| SparseMaps.SumByCells | code/src/sparse-matrix.py:92-98 | any zero-free entries whose every cell is the cell sum are the sum |
| SparseMaps.SumCommutes | code/src/sparse-matrix.py:79-100 | A + B and B + A have the same entries |
| SparseMaps.SumZeroIdentity | code/src/sparse-matrix.py:79-100 | adding an empty matrix keeps every cell, and keeps the entries themselves when they are zero-free |
| SparseMaps.MapDiff | code/src/sparse-matrix.py:115-121 | every cell of the difference is the difference of the two cells; no zero is stored; keys lie in the union of the operands' keys |
| SparseMaps.DiffByCells | code/src/sparse-matrix.py:115-121 | any zero-free entries whose every cell is the cell difference are the difference |
| SparseMaps.SumThenDiff | code/src/sparse-matrix.py:79-123 | (A + B) - B has every cell of A, and equals A when A stores no zero |
| SparseMaps.DiffSelfIsEmpty | code/src/sparse-matrix.py:102-123 | A - A stores nothing |
| SparseMaps.MapProduct | code/src/sparse-matrix.py:135-142 | the product stores no zero, only columns in [0, cols), and cell (r, c2) in range is the sum over stored entries (r, c1) of A of A[r, c1] * B[c1, c2] |
| SparseMaps.RowDotRemove | code/src/sparse-matrix.py:138 | the sum over the stored entries of A does not depend on the order in which they are visited |
| SparseMaps.ProductByCells | code/src/sparse-matrix.py:135-142 | any zero-free entries that agree cell by cell with the product are the product |
| SparseMaps.ProductOfStoredEntries | code/src/sparse-matrix.py:139-142 | when B keeps its entries inside its columns, every cell of the product, in range or not, is the sum over the stored entries of A |
| SparseMaps.SparseDotIsDense | code/src/sparse-matrix.py:138-142 | when A keeps its entries inside [0, n) columns, the sum over its stored entries equals the dense sum over c1 in [0, n) |
| SparseMaps.ProductIsMatrixProduct | code/src/sparse-matrix.py:132-142 | when both operands keep their entries inside their columns, every cell of the product is the textbook matrix product |
| SparseMaps.WorkedSum | code/src/sparse-matrix.py:79-100 | the sum of {(0,0):1, (1,1):2} and {(0,0):3, (0,1):4} is {(0,0):4, (0,1):4, (1,1):2} |
| SparseMaps.WorkedProduct | code/src/sparse-matrix.py:125-144 | the product of those two 2 x 2 matrices is {(0,0):3, (0,1):4} |
| Text.StripIsTrimmed | code/src/sparse-matrix.py:35 | strip() leaves no white space at either end and never lengthens the string |
| Text.TrimStartRemovesLeadingSpace | code/src/sparse-matrix.py:35 | the leading part that strip(), or the trim inside int(), removes is white space of its kind, and what remains does not start with such white space |
| Text.TrimEndRemovesTrailingSpace | code/src/sparse-matrix.py:35 | the trailing part that strip(), or the trim inside int(), removes is white space of its kind, and what remains does not end with such white space |
| Text.TrimPadded | code/src/sparse-matrix.py:30-46 | either trim removes exactly the white space of its kind around a string that has no white space at its ends |
| Text.StripPadded | code/src/sparse-matrix.py:30-35 | strip() removes exactly the white space around a string that has none at its ends |
| Text.SplitPieces | code/src/sparse-matrix.py:42-43 | split(sep) gives one more piece than there are separators, and no piece holds the separator |
| Text.JoinSplit | code/src/sparse-matrix.py:42 | joining the pieces of split(sep) with sep gives back the string |
| Text.SplitJoin | code/src/sparse-matrix.py:42 | split(sep) undoes joining pieces that do not contain sep |
| Text.ParseShow | code/src/sparse-matrix.py:46 | int() reads back str(n), whatever white space that int() skips surrounds it |
| Text.IntTrimKeepsSeparators | code/src/sparse-matrix.py:30-46 | strip() removes a leading U+001F but int() fails on it, while int() does skip a leading no-break space |
| MatrixFile.ParseMatrixFailIff | code/src/sparse-matrix.py:24-52 | the reader fails exactly when there are fewer than two lines, a dimension line does not read, or a later non-blank line is malformed; every failure is a format error |
| MatrixFile.CollectFailIff | code/src/sparse-matrix.py:34-46 | the entry lines fail exactly when one of them is malformed |
| MatrixFile.CollectErrorIsFormat | code/src/sparse-matrix.py:38-46 | every failure of the entry lines is a format error |
| MatrixFile.CollectLastWins | code/src/sparse-matrix.py:47 | every stored coordinate comes from some triple, and holds the value of the last triple at that coordinate, zero included |
| MatrixFile.LoadLines | code/src/sparse-matrix.py:24-49 | the reader's loop computes exactly ParseMatrix of the lines |
| MatrixFile.ReadEntries | code/src/sparse-matrix.py:34-47 | the loop over the lines after the first two computes exactly the entries Collect gives, or stops with the format error |
| MatrixFile.ReadLine | code/src/sparse-matrix.py:35-46 | the loop body reads one line exactly as ParseEntryLine classifies it |
| MatrixFile.SeparatorInDimensionFails | code/src/sparse-matrix.py:30 | the dimension line "rows=" U+001F "2" does not read |
| MatrixFile.SeparatorInEntryFails | code/src/sparse-matrix.py:35-46 | the entry line "(" U+001C "1,2,3)" is malformed |
| MatrixFile.ReaderStoresZeros | code/src/sparse-matrix.py:46-47 | a file with a zero-valued triple reads into entries that store a zero |
| MatrixFile.Least | code/src/sparse-matrix.py:150 | the returned coordinate is in the set and precedes every other one in tuple order |
| MatrixFile.SortedCoords | code/src/sparse-matrix.py:150 | the coordinates in strictly ascending tuple order, each exactly once |
| MatrixFile.Display | code/src/sparse-matrix.py:146-151 | one printed line per stored entry |
| MatrixFile.ReadDisplayedLine | code/src/sparse-matrix.py:35-46 | a line display() prints is read back by the reader as the same triple |
| MatrixFile.DisplayRoundTrip | code/src/sparse-matrix.py:17-52 | reading back a header and the lines display() prints gives the same entries and dimensions |

## Left out

- main() (lines 154-196) is left out. It drives the class through console
  input and printing.
- The printing in display() is left out; `Display` gives the lines it would
  print.
- Opening and reading the file are left out. The reader takes the file's lines
  as a parameter, and a file that cannot be opened is not modelled.
- The message texts of the ValueErrors are left out, and so is re-raising the
  reader's errors with the "Error reading file" prefix. Only the kind of error
  is kept.
- A SparseMatrix built with its defaults (`num_rows=None`, `num_cols=None`) is
  not modelled: the constructor takes integer dimensions. Which branch of
  `__init__` runs is the caller's choice between `constructor` and
  `FromLines`.
- Text.ParseInt: accepts only ASCII digits with an optional sign and
  surrounding white space. Python's int() also accepts underscores between
  digits and non-ASCII decimal digits; those inputs read as a format error here.
  Python 3.11 and later also refuse, by default, to convert between `int` and
  `str` past 4300 digits; the model has no such limit.
- Text.ParseShow: holds for every integer, while Python 3.11 and later raise
  ValueError in `str(n)` and `int()` for numbers of more than 4300 digits.
- The dictionary's insertion order is not modelled. Each loop takes keys in an
  arbitrary order, and the contracts show the results do not depend on it.
  Python's integers are unbounded, like Dafny's `int`, so there is no overflow
  to model.
