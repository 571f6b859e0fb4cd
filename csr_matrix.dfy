/**
  The CSR matrix class of src/LinAlg/hiopMatrixSparseCSR.cpp.

  The object owns its row pointers `irowptr`, column indexes `jcolind` and values,
  plus two buffers allocated on demand: `rowStarts` (the row starts kept by the
  transpose conversion for its numeric pass) and `bufCol` (the dense workspace of
  the product). A null C++ array is modelled as an array of length 0; since the row
  pointer array of an allocated matrix has at least one entry, the two are never
  confused for it. Input triplet matrices are values (`Triplet`), since the class
  only reads them.
 */
module SparseCSR {
  import opened CsrPattern
  import opened CsrCount
  import opened CsrMerge
  import opened CsrProduct
  import opened CsrKernels
  import opened CsrProductKernels
  import opened CsrProductRows

  /** A matrix in triplet (coordinate) format: entry t is (irow[t], jcol[t], vals[t]). */
  datatype Triplet = Triplet(m: nat, n: nat, irow: seq<int>, jcol: seq<int>, vals: seq<real>)
  {
    /** One row index, one column index and one value per nonzero, all indexes in range. */
    ghost predicate Valid()
    {
      |irow| == |jcol| == |vals| && AllIn(irow, m) && AllIn(jcol, n)
    }
  }

  /** The slot of the first stored entry of column i among jc[lo..hi], or hi when there is none. */
  function DiagSlot(jc: seq<int>, lo: nat, hi: nat, i: int): (p: nat)
    requires lo <= hi <= |jc|
    ensures lo <= p <= hi
    ensures p < hi ==> jc[p] == i
    ensures forall q :: lo <= q < p ==> jc[q] != i
    decreases hi - lo
  {
    if lo == hi then hi
    else if jc[lo] == i then lo
    else DiagSlot(jc, lo + 1, hi, i)
  }

  class CsrMatrix {
    var nrows: nat
    var ncols: nat
    var nnz: nat
    var irowptr: array<int>
    var jcolind: array<int>
    var values: array<real>
    var rowStarts: array<int>
    var bufCol: array<real>

    /** The arrays owned by the matrix. */
    function Repr(): set<object>
      reads this
    {
      {irowptr, jcolind, values, rowStarts, bufCol}
    }

    /** `alloc()` has run: the three main arrays have their sizes. */
    ghost predicate Allocated()
      reads this
    {
      irowptr.Length == nrows + 1 && jcolind.Length == nnz && values.Length == nnz
    }

    /** Object invariant: either allocated or (after a constructor with a zero dimension)
        holding no arrays and no nonzeros; buffers are null or have their fixed sizes. */
    ghost predicate Valid()
      reads this
    {
      && (Allocated() || (irowptr.Length == 0 && jcolind.Length == 0 && values.Length == 0 && nnz == 0))
      && irowptr != jcolind && rowStarts != irowptr && rowStarts != jcolind && bufCol != values
      && (rowStarts.Length == 0 || rowStarts.Length == nrows)
      && (bufCol.Length == 0 || bufCol.Length == ncols)
    }

    /** A matrix in CSR form: allocated, with well-formed row pointers. */
    ghost predicate Csr()
      reads this, irowptr
    {
      Valid() && Allocated() && WellFormed(irowptr[..], nnz, nrows)
    }

    /** `hiopMatrixSparseCSR(rows, cols, nnz)`: a matrix with a zero dimension stores nothing
        and has no nonzeros; any other matrix is allocated. */
    constructor (rows: nat, cols: nat, nz: nat)
      ensures Valid() && nrows == rows && ncols == cols
      ensures nnz == (if rows == 0 || cols == 0 then 0 else nz)
      ensures Allocated() <==> !(rows == 0 || cols == 0)
      ensures rowStarts.Length == 0 && bufCol.Length == 0
      ensures fresh(Repr())
    {
      nrows, ncols := rows, cols;
      if rows == 0 || cols == 0 {
        nnz := 0;
        irowptr, jcolind, values := new int[0], new int[0], new real[0];
      } else {
        nnz := nz;
        irowptr, jcolind, values := new int[rows + 1], new int[nz], new real[nz];
      }
      rowStarts, bufCol := new int[0], new real[0];
    }

    /** The default constructor: a 0 x 0 matrix with no arrays. */
    constructor Empty()
      ensures Valid() && nrows == 0 && ncols == 0 && nnz == 0 && !Allocated()
      ensures rowStarts.Length == 0 && bufCol.Length == 0
      ensures fresh(Repr())
    {
      nrows, ncols, nnz := 0, 0, 0;
      irowptr, jcolind, values := new int[0], new int[0], new real[0];
      rowStarts, bufCol := new int[0], new real[0];
    }

    /** `dealloc()` followed by new dimensions and `alloc()`: fresh arrays of the new sizes,
        both buffers null again. */
    method Realloc(m: nat, n: nat, nz: nat)
      modifies this
      ensures Valid() && Allocated() && nrows == m && ncols == n && nnz == nz
      ensures rowStarts.Length == 0 && bufCol.Length == 0
      ensures fresh(Repr())
    {
      var rp, jc, va := new int[m + 1], new int[nz], new real[nz];
      var rs, bc := new int[0], new real[0];
      nrows, ncols, nnz := m, n, nz;
      irowptr, jcolind, values, rowStarts, bufCol := rp, jc, va, rs, bc;
    }

    /** `setToZero()`: every stored value becomes 0. */
    method SetToZero()
      requires Valid()
      modifies values
      ensures forall k :: 0 <= k < values.Length ==> values[k] == 0.0
    {
      for k := 0 to nnz
        invariant forall q :: 0 <= q < k ==> values[q] == 0.0
      {
        values[k] := 0.0;
      }
    }

    /** `setToConstant(c)`: every stored value becomes c. */
    method SetToConstant(c: real)
      requires Valid()
      modifies values
      ensures forall k :: 0 <= k < values.Length ==> values[k] == c
    {
      for k := 0 to nnz
        invariant forall q :: 0 <= q < k ==> values[q] == c
      {
        values[k] := c;
      }
    }

    // ----- conversion from triplet format -----

    /** `form_from_symbolic(M)`: the pattern of a triplet matrix. The dimensions are taken
        over (with fresh arrays when they change); with nonzeros, the row pointers count the
        triplets of the rows before, and the column indexes are copied in input order. The
        source asserts that the triplets are sorted only in debug builds; `TripletPattern`
        states what the rows are when they are. */
    method FormFromSymbolic(t: Triplet)
      requires Valid() && t.Valid()
      modifies this, Repr()
      ensures Valid() && nrows == t.m && ncols == t.n && nnz == |t.irow|
      ensures nnz > 0 ==> Csr() && irowptr[..] == CountOffsets(t.irow, t.m) && jcolind[..] == t.jcol
      ensures old(Allocated()) || nnz > 0 ==> Allocated()
    {
      if t.m != nrows || t.n != ncols || |t.irow| != nnz {
        Realloc(t.m, t.n, |t.irow|);
      }
      if nnz == 0 {
        return;
      }
      var w := RowCounts(t.irow, jcolind, t.jcol, nrows);
      OffsetsFromCounts(irowptr, w, t.irow);
      CountOffsetsWellFormed(t.irow, t.m);
    }

    /** `form_from_numeric(M)`: copies the triplet values, which follow the pattern set up by
        `form_from_symbolic`. */
    method FormFromNumeric(t: Triplet)
      requires Valid() && Allocated() && t.Valid()
      requires nrows == t.m && ncols == t.n && nnz == |t.irow|
      modifies values
      ensures values[..] == t.vals
    {
      for k := 0 to nnz
        invariant forall q :: 0 <= q < k ==> values[q] == t.vals[q]
      {
        values[k] := t.vals[k];
      }
    }
    /** `form_transpose_from_symbolic(M)`: the pattern of the transpose of a triplet matrix,
        by counting sort. Row c of the result holds, in input order, the row indexes of the
        triplets of column c; the row pointers count the triplets of the columns before, so the
        last one is the number of nonzeros. `rowStarts` is allocated and left holding the row
        starts for the numeric pass. A second call with unchanged dimensions and nonzeros is
        refused by the source's assertion that `row_starts_` is still null. */
    method FormTransposeFromSymbolic(t: Triplet)
      requires Valid() && t.Valid()
      requires !(t.m == ncols && t.n == nrows && |t.irow| == nnz) || |t.irow| == 0 || rowStarts.Length == 0
      modifies this, Repr()
      ensures Valid() && nrows == t.n && ncols == t.m && nnz == |t.irow|
      ensures nnz > 0 ==>
        && Csr() && irowptr[nrows] == nnz
        && irowptr[..] == CountOffsets(t.jcol, t.n)
        && jcolind[..] == Flatten(TransposeRows(t.irow, t.jcol, t.n))
        && rowStarts[..] == CountOffsets(t.jcol, t.n)[..t.n]
    {
      if t.m != ncols || t.n != nrows || |t.irow| != nnz {
        Realloc(t.n, t.m, |t.irow|);
      }
      if nnz == 0 {
        return;
      }
      rowStarts := TransposeInto(irowptr, jcolind, t);
    }

    /** `form_transpose_from_numeric(M)`: writes every triplet value at the slot the symbolic
        pass gave its triplet (the scatter over the row starts kept in `rowStarts`), then
        restores `rowStarts`, so the pass can be repeated. */
    method FormTransposeFromNumeric(t: Triplet)
      requires Valid() && Allocated() && t.Valid()
      requires nrows == t.n && ncols == t.m && nnz == |t.irow|
      requires 0 < nrows == rowStarts.Length && rowStarts[..] == CountOffsets(t.jcol, t.n)[..t.n]
      modifies values, rowStarts
      ensures values[..] == Flatten(TransposeRows(t.vals, t.jcol, t.n))
      ensures rowStarts[..] == old(rowStarts[..])
    {
      CountOffsetsWellFormed(t.jcol, t.n);
      forall r | 0 <= r < rowStarts.Length
        ensures rowStarts[r] == CountBelow(t.jcol, r)
      {
        assert rowStarts[r] == rowStarts[..][r];
      }
      Scatter(values, rowStarts, t.vals, t.jcol);
      Rollback(rowStarts, CountOffsets(t.jcol, nrows));
      assert rowStarts[..] == CountOffsets(t.jcol, t.n)[..t.n];
    }

    // ----- diagonal matrices -----

    /** `form_diag_from_symbolic(D)`: the pattern of an m x m diagonal matrix, m = |D|,
        with fresh arrays unless the matrix already is m x m with m nonzeros. */
    method FormDiagFromSymbolic(d: seq<real>)
      requires Valid()
      requires Allocated() || !(|d| == ncols && |d| == nrows && |d| == nnz)
      modifies this, Repr()
      ensures Csr() && nrows == |d| && ncols == |d| && nnz == |d|
      ensures forall i :: 0 <= i <= |d| ==> irowptr[i] == i
      ensures forall i :: 0 <= i < |d| ==> jcolind[i] == i
    {
      if |d| != ncols || |d| != nrows || |d| != nnz {
        Realloc(|d|, |d|, |d|);
      }
      DiagPattern(irowptr, jcolind, |d|);
    }

    /** `form_diag_from_numeric(D)`: the diagonal values are the entries of D. */
    method FormDiagFromNumeric(d: seq<real>)
      requires Valid() && |d| == ncols && |d| == nrows && |d| == nnz
      modifies values
      ensures values[..] == d
    {
      for k := 0 to nrows
        invariant forall q :: 0 <= q < k ==> values[q] == d[q]
      {
        values[k] := d[k];
      }
    }

    // ----- scaling -----

    /** `scale_rows(D)`: this := D*this, every value of row i is multiplied by D[i];
        values past the last row and the pattern are unchanged. */
    method ScaleRows(d: seq<real>)
      requires Csr() && |d| == nrows
      modifies values
      ensures forall i, p :: 0 <= i < nrows && irowptr[i] <= p < irowptr[i + 1] ==> values[p] == old(values[p]) * d[i]
      ensures forall p :: irowptr[nrows] <= p < nnz ==> values[p] == old(values[p])
    {
      ScaleRowSlots(values, irowptr, nrows, d, irowptr[..]);
    }

    /** `scale_cols(D)`: this := this*D, every stored value is multiplied by D at its column;
        values past the last row and the pattern are unchanged. */
    method ScaleCols(d: seq<real>)
      requires Csr() && |d| == ncols && ColsInRange(jcolind[..], irowptr[nrows], ncols)
      modifies values
      ensures forall p :: 0 <= p < irowptr[nrows] ==> values[p] == old(values[p]) * d[jcolind[p]]
      ensures forall p :: irowptr[nrows] <= p < nnz ==> values[p] == old(values[p])
    {
      ScaleColSlots(values, irowptr, jcolind, nrows, d, irowptr[..], jcolind[..]);
    }

    // ----- diagonal updates -----

    /** `addDiagonal(alpha, D)`: in every row i, the first stored entry of column i gets
        alpha*D[i] added; see `AddDiagAt` for what that means slot by slot. */
    method AddDiagonal(alpha: real, d: seq<real>)
      requires Csr() && |d| == nrows && |d| == ncols
      modifies values
      ensures values[..] == AddDiag(old(values[..]), irowptr[..], jcolind[..], nrows, nrows, alpha, d)
    {
      AddDiagRows(values, irowptr, jcolind, nrows, alpha, d, irowptr[..], jcolind[..]);
    }

    /** `set_diagonal(val)`: in every row i, the first stored entry of column i becomes val;
        see `SetDiagAt`. */
    method SetDiagonal(val: real)
      requires Csr()
      modifies values
      ensures values[..] == SetDiag(old(values[..]), irowptr[..], jcolind[..], nrows, nrows, val)
    {
      SetDiagRows(values, irowptr, jcolind, nrows, val, irowptr[..], jcolind[..]);
    }
    /** A CSR matrix whose stored column indexes lie in [0, ncols). */
    ghost predicate Pattern()
      reads this, irowptr, jcolind
    {
      Csr() && ColsInRange(jcolind[..], irowptr[nrows], ncols)
    }

    // ----- M = X + Y, X being this matrix -----

    /** `add_matrix_alloc(Y)`: counts, row by row, the entries of the sorted merge of the
        column indexes of X and Y, and returns a new matrix with that many nonzeros. */
    method AddMatrixAlloc(y: CsrMatrix) returns (mm: CsrMatrix)
      requires Pattern() && y.Pattern() && y.nrows == nrows && y.ncols == ncols
      ensures fresh(mm) && fresh(mm.Repr()) && mm.Valid()
      ensures mm.nrows == nrows && mm.ncols == ncols && mm.rowStarts.Length == 0 && mm.bufCol.Length == 0
      ensures mm.Allocated() <==> !(nrows == 0 || ncols == 0)
      ensures mm.nnz == |Flatten(MergeRows(irowptr[..], jcolind[..], y.irowptr[..], y.jcolind[..], nrows))|
    {
      ghost var rows := MergeRows(irowptr[..], jcolind[..], y.irowptr[..], y.jcolind[..], nrows);
      var total := 0;
      for i := 0 to nrows
        invariant total == |Flatten(rows[..i])|
      {
        FlattenPrefixStep(rows, i);
        var c := MergeRowCount(jcolind, irowptr[i], irowptr[i + 1], y.jcolind, y.irowptr[i], y.irowptr[i + 1]);
        total := total + c;
      }
      assert rows[..nrows] == rows;
      if ncols == 0 {
        MergeNoColumns(irowptr[..], jcolind[..], y.irowptr[..], y.jcolind[..], nrows);
      }
      mm := new CsrMatrix(nrows, ncols, total);
    }

    /** `add_matrix_symbolic(M, Y)`: writes the pattern of X + Y into M, row by row the sorted
        merge of the column indexes of X and Y; the last row pointer is the number of entries
        written, at most the nonzeros of M. */
    method AddMatrixSymbolic(mm: CsrMatrix, y: CsrMatrix)
      requires Pattern() && y.Pattern() && y.nrows == nrows && y.ncols == ncols
      requires mm.Valid() && mm.Allocated() && mm.nrows == nrows
      requires mm.Repr() !! Repr() && mm.Repr() !! y.Repr()
      requires |Flatten(MergeRows(irowptr[..], jcolind[..], y.irowptr[..], y.jcolind[..], nrows))| <= mm.nnz
      modifies mm.irowptr, mm.jcolind
      ensures var rows := MergeRows(irowptr[..], jcolind[..], y.irowptr[..], y.jcolind[..], nrows);
        && mm.irowptr[..] == RowPtr(rows)
        && mm.jcolind[..|Flatten(rows)|] == Flatten(rows)
        && forall p :: |Flatten(rows)| <= p < mm.nnz ==> mm.jcolind[p] == old(mm.jcolind[p])
      ensures mm.Csr()
    {
      ghost var rows := MergeRows(irowptr[..], jcolind[..], y.irowptr[..], y.jcolind[..], nrows);
      MergeRowsHold(irowptr[..], jcolind[..], y.irowptr[..], y.jcolind[..], nrows);
      AddPatternRows(mm.irowptr, mm.jcolind, irowptr, jcolind, y.irowptr, y.jcolind, nrows,
                     irowptr[..], jcolind[..], y.irowptr[..], y.jcolind[..], rows);
      RowPtrWellFormed(rows);
    }

    /** `add_matrix_numeric(gamma, M, alpha, Y, beta)`: M := gamma*M + alpha*X + beta*Y on the
        pattern written by `add_matrix_symbolic`, walking the same sorted merge. Every slot of M is
        visited, slot p receiving entry p of the merged values of the rows. */
    method AddMatrixNumeric(gamma: real, mm: CsrMatrix, alpha: real, y: CsrMatrix, beta: real)
      requires Csr() && y.Csr() && y.nrows == nrows
      requires mm.Valid() && mm.values != values && mm.values != y.values
      requires mm.nnz == |Flatten(MergeRows(irowptr[..], jcolind[..], y.irowptr[..], y.jcolind[..], nrows))|
      modifies mm.values
      ensures var vals := Flatten(MergeValueRows(irowptr[..], jcolind[..], values[..], y.irowptr[..], y.jcolind[..],
                                                 y.values[..], nrows, alpha, beta));
        && |vals| == mm.nnz
        && mm.values[..] == Plus(Scaled(gamma, old(mm.values[..])), vals)
    {
      AddMatrixValues(mm.values, gamma, irowptr, jcolind, values, y.irowptr, y.jcolind, y.values, nrows, alpha, beta);
    }

    /** The lazy allocation of the product workspace shared by `times_mat_symbolic` and
        `times_mat_numeric`: a null `buf_col_` becomes a fresh array of ncols entries, an
        existing one is kept. Nothing else changes. */
    method EnsureBufCol()
      requires Valid()
      modifies this
      ensures Valid() && bufCol.Length == ncols
      ensures nrows == old(nrows) && ncols == old(ncols) && nnz == old(nnz)
      ensures irowptr == old(irowptr) && jcolind == old(jcolind) && values == old(values) && rowStarts == old(rowStarts)
      ensures old(bufCol.Length) != 0 ==> bufCol == old(bufCol)
      ensures old(bufCol.Length) == 0 ==> fresh(bufCol)
    {
      if bufCol.Length == 0 {
        bufCol := new real[ncols];
      }
    }

    // ----- M = X*Y, X being this matrix -----

    /** `times_mat_alloc(Y)`: counts, row by row, the distinct columns of the Y rows named by
        the columns of the X row, and returns a new m x n matrix with that many nonzeros. */
    method TimesMatAlloc(y: CsrMatrix) returns (mm: CsrMatrix)
      requires Pattern() && y.Pattern() && y.nrows == ncols
      ensures fresh(mm) && fresh(mm.Repr()) && mm.Valid()
      ensures mm.nrows == nrows && mm.ncols == y.ncols && mm.rowStarts.Length == 0 && mm.bufCol.Length == 0
      ensures mm.Allocated() <==> !(nrows == 0 || y.ncols == 0)
      ensures mm.nnz == |Flatten(ProductRows(irowptr[..], jcolind[..], nrows, Rows(y.irowptr[..], y.jcolind[..], y.nrows)))|
    {
      var total := ProductCount(irowptr, jcolind, y.irowptr, y.jcolind, nrows, ncols, y.ncols);
      if y.ncols == 0 {
        ProductNoColumns(irowptr[..], jcolind[..], nrows, Rows(y.irowptr[..], y.jcolind[..], y.nrows));
      }
      mm := new CsrMatrix(nrows, y.ncols, total);
    }

    /** `times_mat_symbolic(M, Y)`: makes sure M has its workspace W and clears it, then
        writes the pattern of X*Y into M, row i holding the columns of the Y rows named by
        row i of X, each once, in order of first occurrence. */
    method TimesMatSymbolic(mm: CsrMatrix, y: CsrMatrix)
      requires Pattern() && y.Pattern() && y.nrows == ncols
      requires mm.Valid() && mm.Allocated() && mm.nrows == nrows && mm.ncols == y.ncols
      requires mm != this && mm != y && mm.Repr() !! Repr() && mm.Repr() !! y.Repr()
      requires |Flatten(ProductRows(irowptr[..], jcolind[..], nrows, Rows(y.irowptr[..], y.jcolind[..], y.nrows)))| <= mm.nnz
      modifies mm, mm.irowptr, mm.jcolind, mm.bufCol
      ensures mm.nrows == old(mm.nrows) && mm.ncols == old(mm.ncols) && mm.nnz == old(mm.nnz)
      ensures mm.irowptr == old(mm.irowptr) && mm.jcolind == old(mm.jcolind) && mm.values == old(mm.values)
      ensures mm.rowStarts == old(mm.rowStarts)
      ensures var rows := ProductRows(irowptr[..], jcolind[..], nrows, Rows(y.irowptr[..], y.jcolind[..], y.nrows));
        && mm.irowptr[..] == RowPtr(rows)
        && mm.jcolind[..|Flatten(rows)|] == Flatten(rows)
        && forall p :: |Flatten(rows)| <= p < mm.nnz ==> mm.jcolind[p] == old(mm.jcolind[p])
      ensures mm.Csr() && mm.bufCol.Length == mm.ncols && mm.bufCol[..] == Zeros(mm.ncols)
      ensures old(mm.bufCol.Length) != 0 ==> mm.bufCol == old(mm.bufCol)
      ensures old(mm.bufCol.Length) == 0 ==> fresh(mm.bufCol)
    {
      mm.EnsureBufCol();
      ClearWorkspace(mm.bufCol);
      ProductPatternCsr(mm.irowptr, mm.jcolind, irowptr, jcolind, y.irowptr, y.jcolind, nrows, ncols, y.ncols);
    }

    /** `times_mat_numeric(beta, M, alpha, Y)`: M := beta*M + alpha*X*Y on the pattern
        written by `times_mat_symbolic`. M is scaled unless beta is 1, W is made to exist and
        cleared; then for every row the products of the X entries with the Y rows are
        scattered into W and gathered into the slots of the row of M, which leaves W zero. */
    method TimesMatNumeric(beta: real, mm: CsrMatrix, alpha: real, y: CsrMatrix)
      requires Pattern() && y.Pattern() && y.nrows == ncols
      requires mm.Valid() && mm.Allocated() && mm.nrows == nrows && mm.ncols == y.ncols
      requires mm != this && mm != y && mm.Repr() !! Repr() && mm.Repr() !! y.Repr()
      requires var rows := ProductRows(irowptr[..], jcolind[..], nrows, Rows(y.irowptr[..], y.jcolind[..], y.nrows));
        mm.irowptr[..] == RowPtr(rows) && mm.jcolind[..] == Flatten(rows)
      modifies mm, mm.values, mm.bufCol
      ensures mm.nrows == old(mm.nrows) && mm.ncols == old(mm.ncols) && mm.nnz == old(mm.nnz)
      ensures mm.irowptr == old(mm.irowptr) && mm.jcolind == old(mm.jcolind) && mm.values == old(mm.values)
      ensures mm.rowStarts == old(mm.rowStarts)
      ensures var vrows := ProductValueRows(irowptr[..], jcolind[..], values[..], nrows,
                                            Rows(y.irowptr[..], y.jcolind[..], y.nrows),
                                            Rows(y.irowptr[..], y.values[..], y.nrows), alpha);
        && |Flatten(vrows)| == mm.nnz
        && mm.values[..] == Plus(Scaled(beta, old(mm.values[..])), Flatten(vrows))
      ensures mm.Valid() && mm.bufCol.Length == mm.ncols && mm.bufCol[..] == Zeros(mm.ncols)
      ensures old(mm.bufCol.Length) != 0 ==> mm.bufCol == old(mm.bufCol)
      ensures old(mm.bufCol.Length) == 0 ==> fresh(mm.bufCol)
    {
      mm.EnsureBufCol();
      ScaleAddProduct(beta, mm.values, mm.bufCol, mm.irowptr, mm.jcolind, irowptr, jcolind, values,
                      y.irowptr, y.jcolind, y.values, nrows, ncols, alpha);
    }
  }

  /** The cumulative sum of `form_from_symbolic`: row pointers from the row counts. */
  method OffsetsFromCounts(rp: array<int>, w: array<int>, ghost s: seq<int>)
    requires rp != w && rp.Length == w.Length + 1 && AllIn(s, w.Length)
    requires forall r :: 0 <= r < w.Length ==> w[r] == Count(s, r)
    modifies rp
    ensures rp[..] == CountOffsets(s, w.Length)
  {
    CountBelowZero(s, w.Length);
    rp[0] := 0;
    for i := 0 to w.Length
      invariant forall q :: 0 <= q <= i ==> rp[q] == CountBelow(s, q)
    {
      CountBelowStep(s, i);
      rp[i + 1] := rp[i] + w[i];
    }
    assert rp[..] == CountOffsets(s, w.Length);
  }

  /** The counting loop of `form_from_symbolic`: counts the triplets of every row into a new
      vector and copies the column indexes. */
  method RowCounts(irow: seq<int>, jc: array<int>, jcol: seq<int>, m: nat) returns (w: array<int>)
    requires |irow| == |jcol| == jc.Length && AllIn(irow, m)
    modifies jc
    ensures fresh(w) && w.Length == m
    ensures forall r :: 0 <= r < m ==> w[r] == Count(irow, r)
    ensures jc[..] == jcol
  {
    w := new int[m];
    for i := 0 to m
      invariant forall r :: 0 <= r < i ==> w[r] == 0
    {
      w[i] := 0;
    }
    for it := 0 to |irow|
      invariant forall r :: 0 <= r < m ==> w[r] == Count(irow[..it], r)
      invariant forall q :: 0 <= q < it ==> jc[q] == jcol[q]
    {
      assert irow[..it + 1][..it] == irow[..it];
      var r := irow[it];
      w[r] := w[r] + 1;
      jc[it] := jcol[it];
    }
    assert irow[..|irow|] == irow;
  }

  /** The counting loop of `form_transpose_from_symbolic`: w[r] becomes the number of keys equal to r. */
  method ColumnCounts(w: array<int>, key: seq<int>)
    requires AllIn(key, w.Length)
    modifies w
    ensures forall r :: 0 <= r < w.Length ==> w[r] == Count(key, r)
  {
    for i := 0 to w.Length
      invariant forall r :: 0 <= r < i ==> w[r] == 0
    {
      w[i] := 0;
    }
    for it := 0 to |key|
      invariant forall r :: 0 <= r < w.Length ==> w[r] == Count(key[..it], r)
    {
      assert key[..it + 1][..it] == key[..it];
      w[key[it]] := w[key[it]] + 1;
    }
    assert key[..|key|] == key;
  }

  /** The cumulative sum of `form_transpose_from_symbolic`: the row pointers from the counts,
      and the counts replaced by the row starts. */
  method StartsFromCounts(rp: array<int>, w: array<int>, ghost s: seq<int>)
    requires rp != w && rp.Length == w.Length + 1 && AllIn(s, w.Length)
    requires forall r :: 0 <= r < w.Length ==> w[r] == Count(s, r)
    modifies rp, w
    ensures rp[..] == CountOffsets(s, w.Length)
    ensures forall r :: 0 <= r < w.Length ==> w[r] == CountBelow(s, r)
  {
    CountBelowZero(s, w.Length);
    rp[0] := 0;
    for i := 1 to w.Length + 1
      invariant forall q :: 0 <= q < i ==> rp[q] == CountBelow(s, q)
      invariant forall q :: 0 <= q < i - 1 ==> w[q] == CountBelow(s, q)
      invariant forall q :: i - 1 <= q < w.Length ==> w[q] == Count(s, q)
    {
      CountBelowStep(s, i - 1);
      rp[i] := rp[i - 1] + w[i - 1];
      w[i - 1] := rp[i - 1];
    }
    assert rp[..] == CountOffsets(s, w.Length);
  }

  /** The body of `form_transpose_from_symbolic` once the arrays are allocated: column counts,
      their cumulative sum into the row pointers, the counting-sort scatter of the row indexes
      and the rollback of the row starts, which are returned. */
  method TransposeInto(rp: array<int>, jc: array<int>, t: Triplet) returns (rs: array<int>)
    requires t.Valid() && rp != jc && rp.Length == t.n + 1 && jc.Length == |t.irow| > 0
    modifies rp, jc
    ensures fresh(rs) && rs.Length == t.n
    ensures rp[..] == CountOffsets(t.jcol, t.n) && WellFormed(rp[..], jc.Length, t.n) && rp[t.n] == jc.Length
    ensures jc[..] == Flatten(TransposeRows(t.irow, t.jcol, t.n))
    ensures rs[..] == CountOffsets(t.jcol, t.n)[..t.n]
  {
    assert t.jcol[0] < t.n;
    rs := new int[t.n];
    ColumnCounts(rs, t.jcol);
    StartsFromCounts(rp, rs, t.jcol);
    CountOffsetsWellFormed(t.jcol, t.n);
    Scatter(jc, rs, t.irow, t.jcol);
    Rollback(rs, CountOffsets(t.jcol, t.n));
    assert rs[..] == CountOffsets(t.jcol, t.n)[..t.n];
  }

  /** The loop of `form_diag_from_symbolic`: row i holds the single column i. */
  method DiagPattern(rp: array<int>, jc: array<int>, m: nat)
    requires rp != jc && rp.Length == m + 1 && jc.Length == m
    modifies rp, jc
    ensures forall i :: 0 <= i <= m ==> rp[i] == i
    ensures forall i :: 0 <= i < m ==> jc[i] == i
    ensures WellFormed(rp[..], m, m) && forall i :: 0 <= i < m ==> RowOf(rp[..], jc[..], i) == [i]
  {
    for i := 0 to m
      invariant forall q :: 0 <= q < i ==> rp[q] == q && jc[q] == q
    {
      rp[i] := i;
      jc[i] := i;
    }
    rp[m] := m;
    forall i | 0 <= i < m
      ensures RowOf(rp[..], jc[..], i) == [i]
    {
      assert rp[..][i] == i && rp[..][i + 1] == i + 1;
    }
  }

  /** The inner loop of `addDiagonal` and `set_diagonal`: scans jc[lo..hi] for column i and
      stops at the first match. */
  method FindDiag(jc: array<int>, lo: nat, hi: nat, i: int) returns (pt: nat)
    requires lo <= hi <= jc.Length
    ensures pt == DiagSlot(jc[..], lo, hi, i)
  {
    pt := lo;
    while pt < hi
      invariant lo <= pt <= hi && DiagSlot(jc[..], lo, hi, i) == DiagSlot(jc[..], pt, hi, i)
    {
      if jc[pt] == i {
        break;
      }
      pt := pt + 1;
    }
  }

  /** The values after `addDiagonal` has processed rows 0..k-1 of an m-row matrix. */
  function AddDiag(v: seq<real>, rp: seq<int>, jc: seq<int>, m: nat, k: nat, alpha: real, d: seq<real>): (r: seq<real>)
    requires WellFormed(rp, |v|, m) && |jc| == |v| && k <= m && m <= |d|
    ensures |r| == |v|
    decreases k
  {
    if k == 0 then v
    else
      var w := AddDiag(v, rp, jc, m, k - 1, alpha, d);
      var p := DiagSlot(jc, rp[k - 1], rp[k], k - 1);
      if p < rp[k] then w[p := w[p] + Times(alpha, d[k - 1])] else w
  }

  /** The values after `set_diagonal` has processed rows 0..k-1 of an m-row matrix. */
  function SetDiag(v: seq<real>, rp: seq<int>, jc: seq<int>, m: nat, k: nat, val: real): (r: seq<real>)
    requires WellFormed(rp, |v|, m) && |jc| == |v| && k <= m
    ensures |r| == |v|
    decreases k
  {
    if k == 0 then v
    else
      var w := SetDiag(v, rp, jc, m, k - 1, val);
      var p := DiagSlot(jc, rp[k - 1], rp[k], k - 1);
      if p < rp[k] then w[p := val] else w
  }

  /** The inner loop of `scale_rows`: every value in [lo, hi) is multiplied by c. */
  method ScaleSlots(v: array<real>, lo: nat, hi: nat, c: real)
    requires lo <= hi <= v.Length
    modifies v
    ensures forall p :: lo <= p < hi ==> v[p] == old(v[p]) * c
    ensures forall p :: 0 <= p < v.Length && !(lo <= p < hi) ==> v[p] == old(v[p])
  {
    for pt := lo to hi
      invariant forall p :: lo <= p < pt ==> v[p] == old(v[p]) * c
      invariant forall p :: 0 <= p < v.Length && !(lo <= p < pt) ==> v[p] == old(v[p])
    {
      v[pt] := v[pt] * c;
    }
  }

  /** The row loop of `scale_rows`: the values of row i are multiplied by d[i]. */
  method ScaleRowSlots(v: array<real>, rp: array<int>, m: nat, d: seq<real>, ghost r: seq<int>)
    requires r == rp[..] && WellFormed(r, v.Length, m) && |d| == m
    modifies v
    ensures forall i, p :: 0 <= i < m && r[i] <= p < r[i + 1] ==> v[p] == old(v[p]) * d[i]
    ensures forall p :: r[m] <= p < v.Length ==> v[p] == old(v[p])
  {
    for i := 0 to m
      invariant forall i', p :: 0 <= i' < i && r[i'] <= p < r[i' + 1] ==> v[p] == old(v[p]) * d[i']
      invariant forall p :: r[i] <= p < v.Length ==> v[p] == old(v[p])
    {
      assert r[i] <= r[i + 1];
      ScaleSlots(v, rp[i], rp[i + 1], d[i]);
    }
  }

  /** The inner loop of `scale_cols`: every value in [lo, hi) is multiplied by d at its column. */
  method ScaleColRun(v: array<real>, jc: array<int>, lo: nat, hi: nat, d: seq<real>, ghost c: seq<int>)
    requires c == jc[..] && lo <= hi <= v.Length && hi <= |c| && forall p :: lo <= p < hi ==> 0 <= c[p] < |d|
    modifies v
    ensures forall p :: lo <= p < hi ==> v[p] == old(v[p]) * d[c[p]]
    ensures forall p :: 0 <= p < v.Length && !(lo <= p < hi) ==> v[p] == old(v[p])
  {
    for pt := lo to hi
      invariant forall p :: lo <= p < pt ==> v[p] == old(v[p]) * d[c[p]]
      invariant forall p :: 0 <= p < v.Length && !(lo <= p < pt) ==> v[p] == old(v[p])
    {
      assert jc[pt] == c[pt];
      v[pt] := v[pt] * d[jc[pt]];
    }
  }

  /** The row loop of `scale_cols`: the stored values of all rows are multiplied by d at their column. */
  method ScaleColSlots(v: array<real>, rp: array<int>, jc: array<int>, m: nat, d: seq<real>,
                       ghost r: seq<int>, ghost c: seq<int>)
    requires r == rp[..] && c == jc[..] && |c| == v.Length && WellFormed(r, v.Length, m) && ColsInRange(c, r[m], |d|)
    modifies v
    ensures forall p :: 0 <= p < r[m] ==> v[p] == old(v[p]) * d[c[p]]
    ensures forall p :: r[m] <= p < v.Length ==> v[p] == old(v[p])
  {
    for i := 0 to m
      invariant forall p :: 0 <= p < r[i] ==> v[p] == old(v[p]) * d[c[p]]
      invariant forall p :: r[i] <= p < v.Length ==> v[p] == old(v[p])
    {
      assert r[i] <= r[i + 1] <= r[m];
      ScaleColRun(v, jc, rp[i], rp[i + 1], d, c);
    }
  }

  /** The row loop of `addDiagonal`. */
  method AddDiagRows(v: array<real>, rp: array<int>, jc: array<int>, m: nat, alpha: real, d: seq<real>,
                     ghost r: seq<int>, ghost c: seq<int>)
    requires r == rp[..] && c == jc[..] && |c| == v.Length && WellFormed(r, v.Length, m) && m <= |d|
    modifies v
    ensures v[..] == AddDiag(old(v[..]), r, c, m, m, alpha, d)
  {
    ghost var v0 := v[..];
    for i := 0 to m
      invariant v[..] == AddDiag(v0, r, c, m, i, alpha, d)
    {
      assert r[i] <= r[i + 1] <= r[m];
      var pt := FindDiag(jc, rp[i], rp[i + 1], i);
      if pt < rp[i + 1] {
        var a := alpha * d[i];
        assert a == Times(alpha, d[i]);
        v[pt] := v[pt] + a;
      }
    }
  }

  /** The row loop of `set_diagonal`. */
  method SetDiagRows(v: array<real>, rp: array<int>, jc: array<int>, m: nat, val: real,
                     ghost r: seq<int>, ghost c: seq<int>)
    requires r == rp[..] && c == jc[..] && |c| == v.Length && WellFormed(r, v.Length, m)
    modifies v
    ensures v[..] == SetDiag(old(v[..]), r, c, m, m, val)
  {
    ghost var v0 := v[..];
    for i := 0 to m
      invariant v[..] == SetDiag(v0, r, c, m, i, val)
    {
      assert r[i] <= r[i + 1] <= r[m];
      var pt := FindDiag(jc, rp[i], rp[i + 1], i);
      if pt < rp[i + 1] {
        v[pt] := val;
      }
    }
  }

  /** `addDiagonal` leaves the slots past the first k rows alone. */
  lemma {:induction false} AddDiagRest(v: seq<real>, rp: seq<int>, jc: seq<int>, m: nat, k: nat, alpha: real, d: seq<real>,
                                       p: nat)
    requires WellFormed(rp, |v|, m) && |jc| == |v| && k <= m && m <= |d| && rp[k] <= p < |v|
    ensures AddDiag(v, rp, jc, m, k, alpha, d)[p] == v[p]
    decreases k
  {
    if k > 0 {
      assert rp[k - 1] <= rp[k];
      AddDiagRest(v, rp, jc, m, k - 1, alpha, d, p);
    }
  }

  /** `addDiagonal`, slot by slot: in row i < k only the first entry of column i changes, by
      alpha*D[i]; a row without a stored diagonal entry keeps all its values. */
  lemma {:induction false} AddDiagAt(v: seq<real>, rp: seq<int>, jc: seq<int>, m: nat, k: nat, alpha: real, d: seq<real>,
                                     i: nat, p: nat)
    requires WellFormed(rp, |v|, m) && |jc| == |v| && k <= m && m <= |d| && i < k && rp[i] <= p < rp[i + 1]
    ensures AddDiag(v, rp, jc, m, k, alpha, d)[p] == if p == DiagSlot(jc, rp[i], rp[i + 1], i) then v[p] + Times(alpha, d[i]) else v[p]
    decreases k
  {
    var w := AddDiag(v, rp, jc, m, k - 1, alpha, d);
    var q := DiagSlot(jc, rp[k - 1], rp[k], k - 1);
    assert AddDiag(v, rp, jc, m, k, alpha, d) == if q < rp[k] then w[q := w[q] + Times(alpha, d[k - 1])] else w;
    if i < k - 1 {
      assert p < rp[i + 1] <= rp[k - 1] <= q;
      AddDiagAt(v, rp, jc, m, k - 1, alpha, d, i, p);
    } else {
      AddDiagRest(v, rp, jc, m, k - 1, alpha, d, p);
    }
  }

  /** `set_diagonal` leaves the slots past the first k rows alone. */
  lemma {:induction false} SetDiagRest(v: seq<real>, rp: seq<int>, jc: seq<int>, m: nat, k: nat, val: real, p: nat)
    requires WellFormed(rp, |v|, m) && |jc| == |v| && k <= m && rp[k] <= p < |v|
    ensures SetDiag(v, rp, jc, m, k, val)[p] == v[p]
    decreases k
  {
    if k > 0 {
      assert rp[k - 1] <= rp[k];
      SetDiagRest(v, rp, jc, m, k - 1, val, p);
    }
  }

  /** `set_diagonal`, slot by slot: in row i < k only the first entry of column i changes, to
      val; a row without a stored diagonal entry keeps all its values. */
  lemma {:induction false} SetDiagAt(v: seq<real>, rp: seq<int>, jc: seq<int>, m: nat, k: nat, val: real, i: nat, p: nat)
    requires WellFormed(rp, |v|, m) && |jc| == |v| && k <= m && i < k && rp[i] <= p < rp[i + 1]
    ensures SetDiag(v, rp, jc, m, k, val)[p] == if p == DiagSlot(jc, rp[i], rp[i + 1], i) then val else v[p]
    decreases k
  {
    var w := SetDiag(v, rp, jc, m, k - 1, val);
    var q := DiagSlot(jc, rp[k - 1], rp[k], k - 1);
    assert SetDiag(v, rp, jc, m, k, val) == if q < rp[k] then w[q := val] else w;
    if i < k - 1 {
      assert p < rp[i + 1] <= rp[k - 1] <= q;
      assert SetDiag(v, rp, jc, m, k, val)[p] == w[p];
      SetDiagAt(v, rp, jc, m, k - 1, val, i, p);
    } else {
      assert i == k - 1 && q == DiagSlot(jc, rp[i], rp[i + 1], i);
      SetDiagRest(v, rp, jc, m, k - 1, val, p);
    }
  }

  /** The slot the transpose gives triplet k: after all triplets of smaller columns and after
      the earlier triplets of its own column. It depends on the column indexes only, so the
      symbolic and the numeric pass agree on it. */
  function TransposeSlot(key: seq<int>, k: nat): (p: int)
    requires k < |key|
    ensures p >= 0
  {
    CountBelow(key, key[k]) + Count(key[..k], key[k])
  }

  /** The transpose stores triplet k (its row index in the symbolic pass, its value in the
      numeric pass) at `TransposeSlot(key, k)`. */
  lemma {:induction false} TransposeSlotHolds<T>(data: seq<T>, key: seq<int>, nr: nat, k: nat)
    requires |data| == |key| && AllIn(key, nr) && k < |key|
    ensures TransposeSlot(key, k) < |key| == |Flatten(TransposeRows(data, key, nr))|
    ensures Flatten(TransposeRows(data, key, nr))[TransposeSlot(key, k)] == data[k]
  {
    var rows := TransposeRows(data, key, nr);
    var c, j := key[k], Count(key[..k], key[k]);
    SelectAt(data, key, k);
    assert rows[c] == Select(data, key, c);
    FlattenSlot(rows, c, j);
    TransposeRowPtr(data, key, nr);
    assert RowPtr(rows)[c] == CountBelow(key, c);
  }

  /** The matrix built by `form_transpose_from_symbolic` is a CSR matrix: well-formed row
      pointers ending at the number of triplets, row c holding the row indexes of column c,
      every column index below the number of rows of the triplet matrix, and, for sorted
      triplets, strictly increasing column indexes inside each row. */
  lemma {:induction false} TransposePattern(t: Triplet)
    requires t.Valid()
    ensures var rp, jc := CountOffsets(t.jcol, t.n), Flatten(TransposeRows(t.irow, t.jcol, t.n));
      && |jc| == |t.irow| && WellFormed(rp, |jc|, t.n) && rp[t.n] == |jc|
      && Rows(rp, jc, t.n) == TransposeRows(t.irow, t.jcol, t.n)
      && ColsInRange(jc, |jc|, t.m)
      && (TripletSorted(t.irow, t.jcol) ==> forall c :: 0 <= c < t.n ==> StrictlySorted(RowOf(rp, jc, c)))
  {
    var rows := TransposeRows(t.irow, t.jcol, t.n);
    var jc := Flatten(rows);
    TransposeRowPtr(t.irow, t.jcol, t.n);
    DecodeEncode(rows);
    forall q | 0 <= q < |jc|
      ensures 0 <= jc[q] < t.m
    {
      FlattenMember(rows, jc[q]);
      var c :| 0 <= c < |rows| && jc[q] in rows[c];
      SelectedFrom(t.irow, t.jcol, c, jc[q]);
    }
    if TripletSorted(t.irow, t.jcol) {
      forall c | 0 <= c < t.n
        ensures StrictlySorted(RowOf(CountOffsets(t.jcol, t.n), jc, c))
      {
        TransposeRowSorted(t.irow, t.jcol, c);
      }
    }
  }

  /** The matrix built by `form_from_symbolic` is a CSR matrix whose row i lists, in strictly
      increasing order, the columns of the triplets of row i. */
  lemma {:induction false} TripletPattern(t: Triplet)
    requires t.Valid() && TripletSorted(t.irow, t.jcol)
    ensures var rp := CountOffsets(t.irow, t.m);
      && WellFormed(rp, |t.jcol|, t.m) && rp[t.m] == |t.jcol|
      && forall i :: 0 <= i < t.m ==>
           RowOf(rp, t.jcol, i) == Select(t.jcol, t.irow, i) && StrictlySorted(RowOf(rp, t.jcol, i))
  {
    CountOffsetsWellFormed(t.irow, t.m);
    forall i | 0 <= i < t.m
      ensures RowOf(CountOffsets(t.irow, t.m), t.jcol, i) == Select(t.jcol, t.irow, i)
      ensures StrictlySorted(RowOf(CountOffsets(t.irow, t.m), t.jcol, i))
    {
      TripletRows(t.irow, t.jcol, t.m, i);
    }
  }

  /** Stored column indexes in [0, n) need n > 0. */
  lemma {:induction false} ColsNeedColumns(jc: seq<int>, len: int, n: int)
    requires 0 <= len <= |jc| && ColsInRange(jc, len, n)
    ensures len > 0 ==> n > 0
  {
    if len > 0 {
      assert 0 <= jc[0] < n;
    }
  }

  /** With no columns, both matrices store nothing, and neither does their sum. */
  lemma {:induction false} MergeNoColumns(rpX: seq<int>, jcX: seq<int>, rpY: seq<int>, jcY: seq<int>, m: nat)
    requires WellFormed(rpX, |jcX|, m) && WellFormed(rpY, |jcY|, m)
    requires ColsInRange(jcX, rpX[m], 0) && ColsInRange(jcY, rpY[m], 0)
    ensures Flatten(MergeRows(rpX, jcX, rpY, jcY, m)) == []
  {
    ColsNeedColumns(jcX, rpX[m], 0);
    ColsNeedColumns(jcY, rpY[m], 0);
    NoSlotsNoRows(rpX, jcX, m);
    NoSlotsNoRows(rpY, jcY, m);
    FlattenEmptyRows(MergeRows(rpX, jcX, rpY, jcY, m));
  }

  /** A row of the merge walk appended after the first `start` entries of jm. */
  method AppendMerge(jm: array<int>, start: nat, jx: array<int>, loX: nat, hiX: nat, jy: array<int>, loY: nat, hiY: nat,
                     ghost x: seq<int>, ghost y: seq<int>)
      returns (end: nat)
    requires jm != jx && jm != jy && x == jx[..] && y == jy[..]
    requires loX <= hiX <= jx.Length && loY <= hiY <= jy.Length
    requires start + |Merge(x[loX..hiX], y[loY..hiY])| <= jm.Length
    modifies jm
    ensures end == start + |Merge(x[loX..hiX], y[loY..hiY])|
    ensures jm[..end] == old(jm[..start]) + Merge(x[loX..hiX], y[loY..hiY])
    ensures forall p :: end <= p < jm.Length ==> jm[p] == old(jm[p])
  {
    ghost var v0 := jm[..];
    end := MergeRowInto(jm, start, jx, loX, hiX, jy, loY, hiY, x, y);
    OverwriteRun(v0, start, Merge(x[loX..hiX], y[loY..hiY]));
    assert jm[..end] == jm[..][..end];
    forall p | end <= p < jm.Length
      ensures jm[p] == old(jm[p])
    {
      assert jm[p] == jm[..][end..][p - end] && old(jm[p]) == v0[end..][p - end];
    }
  }

  /** Row i of the merged pattern, as slices of the two column arrays. */
  lemma {:induction false} MergeRowsAt(rx: seq<int>, x: seq<int>, ry: seq<int>, yc: seq<int>, m: nat, i: nat)
    requires WellFormed(rx, |x|, m) && WellFormed(ry, |yc|, m) && i < m
    ensures 0 <= rx[i] <= rx[i + 1] <= |x| && 0 <= ry[i] <= ry[i + 1] <= |yc|
    ensures MergeRows(rx, x, ry, yc, m)[i] == Merge(x[rx[i]..rx[i + 1]], yc[ry[i]..ry[i + 1]])
  {
    assert rx[0] <= rx[i] <= rx[i + 1] <= rx[m];
    assert ry[0] <= ry[i] <= ry[i + 1] <= ry[m];
  }

  /** Row i of the merged pattern is the merge walk over row i of X and row i of Y: the per-row
      form of `MergeRows` the row loops work with. */
  ghost predicate PatternRowsAt(rx: seq<int>, x: seq<int>, ry: seq<int>, yc: seq<int>, rows: seq<seq<int>>)
  {
    && |rx| == |ry| == |rows| + 1
    && forall i {:trigger rows[i]} :: 0 <= i < |rows| ==>
         && 0 <= rx[i] <= rx[i + 1] <= |x| && 0 <= ry[i] <= ry[i + 1] <= |yc|
         && rows[i] == Merge(x[rx[i]..rx[i + 1]], yc[ry[i]..ry[i + 1]])
  }

  lemma {:induction false} MergeRowsHold(rx: seq<int>, x: seq<int>, ry: seq<int>, yc: seq<int>, m: nat)
    requires WellFormed(rx, |x|, m) && WellFormed(ry, |yc|, m)
    ensures PatternRowsAt(rx, x, ry, yc, MergeRows(rx, x, ry, yc, m))
  {
    var rows := MergeRows(rx, x, ry, yc, m);
    forall i {:trigger rows[i]} | 0 <= i < m
      ensures 0 <= rx[i] <= rx[i + 1] <= |x| && 0 <= ry[i] <= ry[i + 1] <= |yc|
      ensures rows[i] == Merge(x[rx[i]..rx[i + 1]], yc[ry[i]..ry[i + 1]])
    {
      MergeRowsAt(rx, x, ry, yc, m, i);
    }
  }

  /** Row i of `add_matrix_symbolic`: its row pointer, then its merged column indexes appended
      after the `start` entries written so far. */
  method AddPatternRow(rpM: array<int>, jm: array<int>, jx: array<int>, loX: nat, hiX: nat, jy: array<int>, loY: nat, hiY: nat,
                       ghost x: seq<int>, ghost yc: seq<int>, ghost before: seq<int>, ghost row: seq<int>, i: nat, start: nat)
      returns (end: nat)
    requires rpM != jm && rpM != jx && rpM != jy && jm != jx && jm != jy && x == jx[..] && yc == jy[..]
    requires loX <= hiX <= jx.Length && loY <= hiY <= jy.Length && row == Merge(x[loX..hiX], yc[loY..hiY])
    requires i < rpM.Length && start == |before| && start + |row| <= jm.Length && jm[..start] == before
    modifies rpM, jm
    ensures end == start + |row| && rpM[..] == old(rpM[..])[i := start]
    ensures jm[..end] == before + row
    ensures forall p :: end <= p < jm.Length ==> jm[p] == old(jm[p])
  {
    rpM[i] := start;
    end := AppendMerge(jm, start, jx, loX, hiX, jy, loY, hiY, x, yc);
  }

  /** The row loop of `add_matrix_symbolic`: row pointers and column indexes of the merged
      pattern, written into rpM and jm. */
  method AddPatternRows(rpM: array<int>, jm: array<int>, rpX: array<int>, jx: array<int>, rpY: array<int>, jy: array<int>,
                        m: nat, ghost rx: seq<int>, ghost x: seq<int>, ghost ry: seq<int>, ghost yc: seq<int>,
                        ghost rows: seq<seq<int>>)
    requires rpM != jm && rpM != rpX && rpM != rpY && rpM != jx && rpM != jy
    requires jm != rpX && jm != rpY && jm != jx && jm != jy
    requires rx == rpX[..] && x == jx[..] && ry == rpY[..] && yc == jy[..]
    requires |rows| == m && PatternRowsAt(rx, x, ry, yc, rows)
    requires rpM.Length == m + 1 && |Flatten(rows)| <= jm.Length
    modifies rpM, jm
    ensures rpM[..] == RowPtr(rows)
    ensures jm[..|Flatten(rows)|] == Flatten(rows)
    ensures forall p :: |Flatten(rows)| <= p < jm.Length ==> jm[p] == old(jm[p])
  {
    var itnnz := 0;
    for i := 0 to m
      invariant itnnz == |Flatten(rows[..i])| <= |Flatten(rows)|
      invariant forall q :: 0 <= q < i ==> rpM[q] == RowPtr(rows)[q]
      invariant jm[..itnnz] == Flatten(rows[..i])
      invariant forall p :: itnnz <= p < jm.Length ==> jm[p] == old(jm[p])
    {
      itnnz := AddPatternRowAt(rpM, jm, rpX, jx, rpY, jy, m, rx, x, ry, yc, rows, i, itnnz);
    }
    RowPtrAt(rows, m);
    assert rows[..m] == rows;
    rpM[m] := itnnz;
    assert rpM[..] == RowPtr(rows);
  }

  /** The body of the row loop of `add_matrix_symbolic`: row i read off the row pointers, then
      appended. */
  method AddPatternRowAt(rpM: array<int>, jm: array<int>, rpX: array<int>, jx: array<int>, rpY: array<int>, jy: array<int>,
                         m: nat, ghost rx: seq<int>, ghost x: seq<int>, ghost ry: seq<int>, ghost yc: seq<int>,
                         ghost rows: seq<seq<int>>, i: nat, start: nat)
      returns (end: nat)
    requires rpM != jm && rpM != rpX && rpM != rpY && rpM != jx && rpM != jy
    requires jm != rpX && jm != rpY && jm != jx && jm != jy
    requires rx == rpX[..] && x == jx[..] && ry == rpY[..] && yc == jy[..]
    requires |rows| == m && PatternRowsAt(rx, x, ry, yc, rows) && i < m
    requires rpM.Length == m + 1 && |Flatten(rows)| <= jm.Length
    requires start == |Flatten(rows[..i])| <= |Flatten(rows)| && jm[..start] == Flatten(rows[..i])
    modifies rpM, jm
    ensures start <= end == |Flatten(rows[..i + 1])| <= |Flatten(rows)| && jm[..end] == Flatten(rows[..i + 1])
    ensures rpM[..] == old(rpM[..])[i := RowPtr(rows)[i]]
    ensures forall p :: end <= p < jm.Length ==> jm[p] == old(jm[p])
  {
    RowPtrAt(rows, i);
    FlattenPrefixStep(rows, i);
    assert rows[..m] == rows;
    FlattenPrefixMono(rows, i + 1, m);
    ghost var row := rows[i];
    assert rpX[i] == rx[i] && rpX[i + 1] == rx[i + 1] && rpY[i] == ry[i] && rpY[i + 1] == ry[i + 1];
    end := AddPatternRow(rpM, jm, jx, rpX[i], rpX[i + 1], jy, rpY[i], rpY[i + 1], x, yc, Flatten(rows[..i]), row, i, start);
  }

  /** `add_matrix_numeric` on the arrays: vm := gamma*vm, then slot p of vm gains entry p of the
      merged values of the rows. */
  method AddMatrixValues(vm: array<real>, gamma: real, rpX: array<int>, jx: array<int>, vx: array<real>,
                         rpY: array<int>, jy: array<int>, vy: array<real>, m: nat, alpha: real, beta: real)
    requires vm != vx && vm != vy && jx.Length == vx.Length && jy.Length == vy.Length
    requires WellFormed(rpX[..], jx.Length, m) && WellFormed(rpY[..], jy.Length, m)
    requires |Flatten(MergeRows(rpX[..], jx[..], rpY[..], jy[..], m))| == vm.Length
    modifies vm
    ensures var vals := Flatten(MergeValueRows(rpX[..], jx[..], vx[..], rpY[..], jy[..], vy[..], m, alpha, beta));
      && |vals| == vm.Length
      && vm[..] == Plus(Scaled(gamma, old(vm[..])), vals)
  {
    ghost var rx, x, xv, ry, yc, yv := rpX[..], jx[..], vx[..], rpY[..], jy[..], vy[..];
    ghost var rows := MergeValueRows(rx, x, xv, ry, yc, yv, m, alpha, beta);
    SameShape(MergeRows(rx, x, ry, yc, m), rows);
    MergeValueRowsHold(rx, x, xv, ry, yc, yv, m, alpha, beta);
    ScaleValues(vm, gamma);
    AddValueRows(vm, rpX, jx, vx, rpY, jy, vy, m, alpha, beta, rx, x, Scaled(alpha, xv), ry, yc, Scaled(beta, yv), rows);
  }

  /** Row i of the merged values, as the merge of pre-scaled slices of the two value arrays. */
  lemma {:induction false} MergeValueRowsAt(rx: seq<int>, x: seq<int>, xv: seq<real>, ry: seq<int>, yc: seq<int>, yv: seq<real>,
                         m: nat, alpha: real, beta: real, i: nat)
    requires |x| == |xv| && |yc| == |yv|
    requires WellFormed(rx, |x|, m) && WellFormed(ry, |yc|, m) && i < m
    ensures 0 <= rx[i] <= rx[i + 1] <= |x| && 0 <= ry[i] <= ry[i + 1] <= |yc|
    ensures MergeValueRows(rx, x, xv, ry, yc, yv, m, alpha, beta)[i]
         == MergeValues(x[rx[i]..rx[i + 1]], Scaled(alpha, xv)[rx[i]..rx[i + 1]],
                        yc[ry[i]..ry[i + 1]], Scaled(beta, yv)[ry[i]..ry[i + 1]])
  {
    assert rx[0] <= rx[i] <= rx[i + 1] <= rx[m];
    assert ry[0] <= ry[i] <= ry[i + 1] <= ry[m];
    ScaledSlice(alpha, xv, rx[i], rx[i + 1]);
    ScaledSlice(beta, yv, ry[i], ry[i + 1]);
  }

  /** Row i of the merged values is the merge walk over the scaled slices of row i of X and Y:
      the per-row form of `MergeValueRows` the row loops work with. */
  ghost predicate ValueRowsAt(rx: seq<int>, x: seq<int>, sx: seq<real>, ry: seq<int>, yc: seq<int>, sy: seq<real>,
                              rows: seq<seq<real>>)
  {
    && |x| == |sx| && |yc| == |sy| && |rx| == |ry| == |rows| + 1
    && forall i {:trigger rows[i]} :: 0 <= i < |rows| ==>
         && 0 <= rx[i] <= rx[i + 1] <= |x| && 0 <= ry[i] <= ry[i + 1] <= |yc|
         && rows[i] == MergeValues(x[rx[i]..rx[i + 1]], sx[rx[i]..rx[i + 1]], yc[ry[i]..ry[i + 1]], sy[ry[i]..ry[i + 1]])
  }

  lemma {:induction false} MergeValueRowsHold(rx: seq<int>, x: seq<int>, xv: seq<real>, ry: seq<int>, yc: seq<int>, yv: seq<real>,
                           m: nat, alpha: real, beta: real)
    requires |x| == |xv| && |yc| == |yv| && WellFormed(rx, |x|, m) && WellFormed(ry, |yc|, m)
    ensures ValueRowsAt(rx, x, Scaled(alpha, xv), ry, yc, Scaled(beta, yv), MergeValueRows(rx, x, xv, ry, yc, yv, m, alpha, beta))
  {
    var rows, sx, sy := MergeValueRows(rx, x, xv, ry, yc, yv, m, alpha, beta), Scaled(alpha, xv), Scaled(beta, yv);
    forall i {:trigger rows[i]} | 0 <= i < m
      ensures 0 <= rx[i] <= rx[i + 1] <= |x| && 0 <= ry[i] <= ry[i + 1] <= |yc|
      ensures rows[i] == MergeValues(x[rx[i]..rx[i + 1]], sx[rx[i]..rx[i + 1]], yc[ry[i]..ry[i + 1]], sy[ry[i]..ry[i + 1]])
    {
      MergeValueRowsAt(rx, x, xv, ry, yc, yv, m, alpha, beta, i);
    }
  }

  /** Row i of `add_matrix_numeric`: the merged values of the row added to the slots from
      `start` on, the slots before holding the rows already added. */
  method AddValueRow(vm: array<real>, start: nat, jx: array<int>, vx: array<real>, loX: nat, hiX: nat,
                     jy: array<int>, vy: array<real>, loY: nat, hiY: nat, alpha: real, beta: real,
                     ghost x: seq<int>, ghost sx: seq<real>, ghost yc: seq<int>, ghost sy: seq<real>,
                     ghost s0: seq<real>, ghost before: seq<real>, ghost row: seq<real>)
      returns (end: nat)
    requires vm != vx && vm != vy && x == jx[..] && yc == jy[..]
    requires sx == Scaled(alpha, vx[..]) && sy == Scaled(beta, vy[..])
    requires loX <= hiX <= jx.Length == vx.Length && loY <= hiY <= jy.Length == vy.Length
    requires row == MergeValues(x[loX..hiX], sx[loX..hiX], yc[loY..hiY], sy[loY..hiY])
    requires start == |before| && start + |row| <= vm.Length == |s0| && vm[..] == AddedAt(s0, 0, before)
    modifies vm
    ensures end == start + |row| && vm[..] == AddedAt(s0, 0, before + row)
  {
    ghost var v := vm[..];
    end := MergeValuesRowInto(vm, start, jx, vx, loX, hiX, jy, vy, loY, hiY, alpha, beta, x, sx, yc, sy);
    AddedAtAppend(s0, v, vm[..], before, row);
  }

  /** The row loop of `add_matrix_numeric`: slot p of vm gains entry p of the merged values. */
  method AddValueRows(vm: array<real>, rpX: array<int>, jx: array<int>, vx: array<real>,
                      rpY: array<int>, jy: array<int>, vy: array<real>, m: nat, alpha: real, beta: real,
                      ghost rx: seq<int>, ghost x: seq<int>, ghost sx: seq<real>,
                      ghost ry: seq<int>, ghost yc: seq<int>, ghost sy: seq<real>, ghost rows: seq<seq<real>>)
    requires vm != vx && vm != vy && jx.Length == vx.Length && jy.Length == vy.Length
    requires rx == rpX[..] && x == jx[..] && ry == rpY[..] && yc == jy[..]
    requires sx == Scaled(alpha, vx[..]) && sy == Scaled(beta, vy[..])
    requires |rows| == m && ValueRowsAt(rx, x, sx, ry, yc, sy, rows)
    requires |Flatten(rows)| == vm.Length
    modifies vm
    ensures vm[..] == Plus(old(vm[..]), Flatten(rows))
  {
    ghost var s0 := vm[..];
    assert rows[..0] == [];
    AddedAtNone(s0, 0);
    var itnnz := 0;
    for i := 0 to m
      invariant itnnz == |Flatten(rows[..i])| <= |Flatten(rows)|
      invariant vm[..] == AddedAt(s0, 0, Flatten(rows[..i]))
    {
      itnnz := AddValueRowAt(vm, rpX, jx, vx, rpY, jy, vy, m, alpha, beta, rx, x, sx, ry, yc, sy, rows, s0, i, itnnz);
    }
    assert rows[..m] == rows;
    AddedAtPlus(s0, Flatten(rows));
  }

  /** The body of the row loop of `add_matrix_numeric`: row i read off the row pointers, then added. */
  method AddValueRowAt(vm: array<real>, rpX: array<int>, jx: array<int>, vx: array<real>,
                       rpY: array<int>, jy: array<int>, vy: array<real>, m: nat, alpha: real, beta: real,
                       ghost rx: seq<int>, ghost x: seq<int>, ghost sx: seq<real>,
                       ghost ry: seq<int>, ghost yc: seq<int>, ghost sy: seq<real>, ghost rows: seq<seq<real>>,
                       ghost s0: seq<real>, i: nat, start: nat)
      returns (end: nat)
    requires vm != vx && vm != vy && jx.Length == vx.Length && jy.Length == vy.Length
    requires rx == rpX[..] && x == jx[..] && ry == rpY[..] && yc == jy[..]
    requires sx == Scaled(alpha, vx[..]) && sy == Scaled(beta, vy[..])
    requires |rows| == m && ValueRowsAt(rx, x, sx, ry, yc, sy, rows) && i < m
    requires |Flatten(rows)| == vm.Length == |s0|
    requires start == |Flatten(rows[..i])| <= |Flatten(rows)|
    requires vm[..] == AddedAt(s0, 0, Flatten(rows[..i]))
    modifies vm
    ensures end == |Flatten(rows[..i + 1])| <= |Flatten(rows)|
    ensures vm[..] == AddedAt(s0, 0, Flatten(rows[..i + 1]))
  {
    FlattenPrefixStep(rows, i);
    assert rows[..m] == rows;
    FlattenPrefixMono(rows, i + 1, m);
    ghost var row := rows[i];
    assert rpX[i] == rx[i] && rpX[i + 1] == rx[i + 1] && rpY[i] == ry[i] && rpY[i + 1] == ry[i + 1];
    end := AddValueRow(vm, start, jx, vx, rpX[i], rpX[i + 1], jy, vy, rpY[i], rpY[i + 1], alpha, beta,
                       x, sx, yc, sy, s0, Flatten(rows[..i]), row);
  }
}
