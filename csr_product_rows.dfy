/**
  Row loops of the sparse product M = X*Y (src/LinAlg/hiopMatrixSparseCSR.cpp,
  `times_mat_symbolic` and `times_mat_numeric`): the per-row kernels of
  CsrProductKernels repeated for every row of X, writing the row pointers, column
  indexes and values of M.
 */
module CsrProductRows {
  import opened CsrPattern
  import opened CsrMerge
  import opened CsrProduct
  import opened CsrKernels
  import opened CsrProductKernels

  /** Row i of the product pattern is the product row of the slice of X's columns for row i:
      the per-row form of `ProductRows` the row loops work with. */
  ghost predicate ProductPatternRowsAt(rx: seq<int>, x: seq<int>, yrows: seq<seq<int>>, rows: seq<seq<int>>)
  {
    && |rx| == |rows| + 1
    && forall i :: 0 <= i < |rows| ==> ProductPatternRowAt(rx, x, yrows, rows, i)
  }

  /** Row i of `ProductPatternRowsAt`. */
  ghost predicate ProductPatternRowAt(rx: seq<int>, x: seq<int>, yrows: seq<seq<int>>, rows: seq<seq<int>>, i: int)
  {
    && 0 <= i < |rows| && i + 1 < |rx|
    && 0 <= rx[i] <= rx[i + 1] <= |x| && IndexesRows(x[rx[i]..rx[i + 1]], yrows)
    && rows[i] == ProductRow(x[rx[i]..rx[i + 1]], yrows)
  }

  lemma {:induction false} ProductRowsHold(rx: seq<int>, x: seq<int>, m: nat, yrows: seq<seq<int>>)
    requires WellFormed(rx, |x|, m) && forall k :: 0 <= k < rx[m] ==> 0 <= x[k] < |yrows|
    ensures ProductPatternRowsAt(rx, x, yrows, ProductRows(rx, x, m, yrows))
  {
    var rows := ProductRows(rx, x, m, yrows);
    forall i | 0 <= i < m
      ensures ProductPatternRowAt(rx, x, yrows, rows, i)
    {
      assert rx[0] <= rx[i] <= rx[i + 1] <= rx[m];
      assert RowOf(rx, x, i) == x[rx[i]..rx[i + 1]];
    }
  }

  /** The row loop of `times_mat_symbolic`: row pointers and column indexes of the product
      pattern, written into rpM and jm. */
  method ProductPatternInto(rpM: array<int>, jm: array<int>, flag: array<bool>,
                            rpX: array<int>, jx: array<int>, rpY: array<int>, jy: array<int>, m: nat,
                            ghost rx: seq<int>, ghost x: seq<int>, ghost ry: seq<int>, ghost y: seq<int>,
                            ghost yrows: seq<seq<int>>, ghost rows: seq<seq<int>>)
    requires rpM != jm && rpM != rpX && rpM != rpY && rpM != jx && rpM != jy
    requires jm != rpX && jm != rpY && jm != jx && jm != jy
    requires rx == rpX[..] && x == jx[..] && ry == rpY[..] && y == jy[..]
    requires YRows(ry, y, yrows, flag.Length) && |rows| == m && ProductPatternRowsAt(rx, x, yrows, rows)
    requires rpM.Length == m + 1 && |Flatten(rows)| <= jm.Length
    modifies rpM, jm, flag
    ensures rpM[..] == RowPtr(rows)
    ensures jm[..|Flatten(rows)|] == Flatten(rows)
    ensures forall p :: |Flatten(rows)| <= p < jm.Length ==> jm[p] == old(jm[p])
  {
    var nnzM := 0;
    for i := 0 to m
      invariant nnzM == |Flatten(rows[..i])| <= |Flatten(rows)|
      invariant forall q :: 0 <= q < i ==> rpM[q] == RowPtr(rows)[q]
      invariant jm[..nnzM] == Flatten(rows[..i])
      invariant forall p :: nnzM <= p < jm.Length ==> jm[p] == old(jm[p])
    {
      nnzM := ProductPatternRowInto(rpM, jm, flag, rpX, jx, rpY, jy, m, rx, x, ry, y, yrows, rows, i, nnzM);
    }
    RowPtrAt(rows, m);
    assert rows[..m] == rows;
    rpM[m] := nnzM;
    assert rpM[..] == RowPtr(rows);
  }

  /** The body of the row loop of `times_mat_symbolic`: the row pointer of row i, then the
      product row appended after the entries written so far. */
  method ProductPatternRowInto(rpM: array<int>, jm: array<int>, flag: array<bool>,
                             rpX: array<int>, jx: array<int>, rpY: array<int>, jy: array<int>, m: nat,
                             ghost rx: seq<int>, ghost x: seq<int>, ghost ry: seq<int>, ghost y: seq<int>,
                             ghost yrows: seq<seq<int>>, ghost rows: seq<seq<int>>, i: nat, start: nat)
      returns (end: nat)
    requires rpM != jm && rpM != rpX && rpM != rpY && rpM != jx && rpM != jy
    requires jm != rpX && jm != rpY && jm != jx && jm != jy
    requires rx == rpX[..] && x == jx[..] && ry == rpY[..] && y == jy[..]
    requires YRows(ry, y, yrows, flag.Length) && |rows| == m && ProductPatternRowsAt(rx, x, yrows, rows) && i < m
    requires rpM.Length == m + 1 && |Flatten(rows)| <= jm.Length
    requires start == |Flatten(rows[..i])| <= |Flatten(rows)| && jm[..start] == Flatten(rows[..i])
    modifies rpM, jm, flag
    ensures start <= end == |Flatten(rows[..i + 1])| <= |Flatten(rows)| && jm[..end] == Flatten(rows[..i + 1])
    ensures rpM[..] == old(rpM[..])[i := RowPtr(rows)[i]]
    ensures forall p :: end <= p < jm.Length ==> jm[p] == old(jm[p])
  {
    RowPtrAt(rows, i);
    FlattenPrefixStep(rows, i);
    assert rows[..m] == rows;
    FlattenPrefixMono(rows, i + 1, m);
    ghost var row := rows[i];
    assert ProductPatternRowAt(rx, x, yrows, rows, i);
    assert rpX[i] == rx[i] && rpX[i + 1] == rx[i + 1];
    rpM[i] := start;
    end := ProductRowInto(jm, start, flag, jx, rpX[i], rpX[i + 1], rpY, jy, x, ry, y, yrows);
  }

  /** Row i of alpha*X*Y sits at the slots [rm[i], rm[i+1]) of M, whose columns are the
      product row: the per-row form of `ProductValueRows` on the pattern `ProductRows`. */
  ghost predicate ProductValueRowsAt(rx: seq<int>, x: seq<int>, xv: seq<real>, rm: seq<int>, cols: seq<int>,
                                     yrows: seq<seq<int>>, yvals: seq<seq<real>>, n: int, alpha: real,
                                     vrows: seq<seq<real>>)
  {
    && |rx| == |rm| == |vrows| + 1 && |x| == |xv| && YFits(yrows, yvals, n)
    && forall i :: 0 <= i < |vrows| ==> ProductValueRowAt(rx, x, xv, rm, cols, yrows, yvals, alpha, vrows, i)
  }

  /** Row i of `ProductValueRowsAt`. */
  ghost predicate ProductValueRowAt(rx: seq<int>, x: seq<int>, xv: seq<real>, rm: seq<int>, cols: seq<int>,
                                    yrows: seq<seq<int>>, yvals: seq<seq<real>>, alpha: real,
                                    vrows: seq<seq<real>>, i: int)
  {
    && 0 <= i < |vrows| && i + 1 < |rx| && i + 1 < |rm| && |x| == |xv|
    && |yrows| == |yvals| && (forall k :: 0 <= k < |yrows| ==> |yrows[k]| == |yvals[k]|)
    && 0 <= rx[i] <= rx[i + 1] <= |x| && IndexesRows(x[rx[i]..rx[i + 1]], yrows)
    && rm[i] == |Flatten(vrows[..i])| && 0 <= rm[i] <= rm[i + 1] <= |cols|
    && cols[rm[i]..rm[i + 1]] == ProductRow(x[rx[i]..rx[i + 1]], yrows)
    && vrows[i] == ProductValueRow(x[rx[i]..rx[i + 1]], xv[rx[i]..rx[i + 1]], yrows, yvals, alpha)
  }

  lemma {:induction false} ProductValueRowsHold(rx: seq<int>, x: seq<int>, xv: seq<real>, m: nat,
                                               yrows: seq<seq<int>>, yvals: seq<seq<real>>, n: int, alpha: real)
    requires WellFormed(rx, |x|, m) && |x| == |xv| && forall k :: 0 <= k < rx[m] ==> 0 <= x[k] < |yrows|
    requires YFits(yrows, yvals, n)
    ensures var prows := ProductRows(rx, x, m, yrows);
      ProductValueRowsAt(rx, x, xv, RowPtr(prows), Flatten(prows), yrows, yvals, n, alpha,
                         ProductValueRows(rx, x, xv, m, yrows, yvals, alpha))
    ensures |Flatten(ProductRows(rx, x, m, yrows))| == |Flatten(ProductValueRows(rx, x, xv, m, yrows, yvals, alpha))|
  {
    var prows := ProductRows(rx, x, m, yrows);
    var vrows := ProductValueRows(rx, x, xv, m, yrows, yvals, alpha);
    SameShape(prows, vrows);
    forall i | 0 <= i < m
      ensures ProductValueRowAt(rx, x, xv, RowPtr(prows), Flatten(prows), yrows, yvals, alpha, vrows, i)
    {
      ProductValueRowHolds(rx, x, xv, m, yrows, yvals, n, alpha, prows, vrows, i);
    }
  }

  /** One row of `ProductValueRowsHold`. */
  lemma {:induction false} ProductValueRowHolds(rx: seq<int>, x: seq<int>, xv: seq<real>, m: nat,
                                               yrows: seq<seq<int>>, yvals: seq<seq<real>>, n: int, alpha: real,
                                               prows: seq<seq<int>>, vrows: seq<seq<real>>, i: nat)
    requires WellFormed(rx, |x|, m) && |x| == |xv| && forall k :: 0 <= k < rx[m] ==> 0 <= x[k] < |yrows|
    requires YFits(yrows, yvals, n)
    requires prows == ProductRows(rx, x, m, yrows) && vrows == ProductValueRows(rx, x, xv, m, yrows, yvals, alpha)
    requires RowPtr(prows) == RowPtr(vrows) && i < m
    ensures 0 <= rx[i] <= rx[i + 1] <= |x| && IndexesRows(x[rx[i]..rx[i + 1]], yrows)
    ensures RowPtr(prows)[i] == |Flatten(vrows[..i])| && RowPtr(prows)[i] <= RowPtr(prows)[i + 1] <= |Flatten(prows)|
    ensures Flatten(prows)[RowPtr(prows)[i]..RowPtr(prows)[i + 1]] == ProductRow(x[rx[i]..rx[i + 1]], yrows)
    ensures vrows[i] == ProductValueRow(x[rx[i]..rx[i + 1]], xv[rx[i]..rx[i + 1]], yrows, yvals, alpha)
  {
    assert rx[0] <= rx[i] <= rx[i + 1] <= rx[m];
    assert RowOf(rx, x, i) == x[rx[i]..rx[i + 1]] && RowOf(rx, xv, i) == xv[rx[i]..rx[i + 1]];
    RowPtrAt(vrows, i);
    FlattenRowOf(prows, i);
  }

  /** The row loop of `times_mat_numeric`, after the scaling of M by beta: slot p of vm gains
      entry p of the values of alpha*X*Y, and the workspace W is zero after every row. */
  method ProductValuesInto(vm: array<real>, w: array<real>, rpM: array<int>, jm: array<int>,
                          rpX: array<int>, jx: array<int>, vx: array<real>,
                          rpY: array<int>, jy: array<int>, vy: array<real>, m: nat, alpha: real,
                          ghost rm: seq<int>, ghost cols: seq<int>,
                          ghost rx: seq<int>, ghost x: seq<int>, ghost xv: seq<real>,
                          ghost ry: seq<int>, ghost y: seq<int>, ghost yv: seq<real>,
                          ghost yrows: seq<seq<int>>, ghost yvals: seq<seq<real>>, ghost vrows: seq<seq<real>>)
    requires vm != w && vm != vx && vm != vy && w != vx && w != vy
    requires rm == rpM[..] && cols == jm[..] && rx == rpX[..] && x == jx[..] && xv == vx[..]
    requires ry == rpY[..] && y == jy[..] && yv == vy[..]
    requires jx.Length == vx.Length && jy.Length == vy.Length && jm.Length <= vm.Length
    requires YRows(ry, y, yrows, w.Length) && YVals(ry, yv, yvals)
    requires |vrows| == m && ProductValueRowsAt(rx, x, xv, rm, cols, yrows, yvals, w.Length, alpha, vrows)
    requires |Flatten(vrows)| == vm.Length && w[..] == Zeros(w.Length)
    modifies vm, w
    ensures vm[..] == Plus(old(vm[..]), Flatten(vrows))
    ensures w[..] == Zeros(w.Length)
  {
    ghost var s0 := vm[..];
    assert vrows[..0] == [];
    AddedAtNone(s0, 0);
    for i := 0 to m
      invariant rm == rpM[..] && cols == jm[..] && rx == rpX[..] && x == jx[..] && xv == vx[..]
      invariant ry == rpY[..] && y == jy[..] && yv == vy[..]
      invariant |Flatten(vrows[..i])| <= |s0|
      invariant vm[..] == AddedAt(s0, 0, Flatten(vrows[..i])) && w[..] == Zeros(w.Length)
    {
      ProductValuesRowAt(vm, w, rpM, jm, rpX, jx, vx, rpY, jy, vy, m, alpha,
                        rm, cols, rx, x, xv, ry, y, yv, yrows, yvals, vrows, s0, i);
    }
    assert vrows[..m] == vrows;
    AddedAtPlus(s0, Flatten(vrows));
  }

  /** The body of the row loop of `times_mat_numeric`: row i read off the row pointers of X
      and M, scattered and gathered. */
  method ProductValuesRowAt(vm: array<real>, w: array<real>, rpM: array<int>, jm: array<int>,
                           rpX: array<int>, jx: array<int>, vx: array<real>,
                           rpY: array<int>, jy: array<int>, vy: array<real>, m: nat, alpha: real,
                           ghost rm: seq<int>, ghost cols: seq<int>,
                           ghost rx: seq<int>, ghost x: seq<int>, ghost xv: seq<real>,
                           ghost ry: seq<int>, ghost y: seq<int>, ghost yv: seq<real>,
                           ghost yrows: seq<seq<int>>, ghost yvals: seq<seq<real>>, ghost vrows: seq<seq<real>>,
                           ghost s0: seq<real>, i: nat)
    requires vm != w && vm != vx && vm != vy && w != vx && w != vy
    requires rm == rpM[..] && cols == jm[..] && rx == rpX[..] && x == jx[..] && xv == vx[..]
    requires ry == rpY[..] && y == jy[..] && yv == vy[..]
    requires jx.Length == vx.Length && jy.Length == vy.Length && jm.Length <= vm.Length
    requires YRows(ry, y, yrows, w.Length) && YVals(ry, yv, yvals)
    requires |vrows| == m && ProductValueRowsAt(rx, x, xv, rm, cols, yrows, yvals, w.Length, alpha, vrows) && i < m
    requires |Flatten(vrows)| == vm.Length == |s0| && w[..] == Zeros(w.Length)
    requires |Flatten(vrows[..i])| <= |s0| && vm[..] == AddedAt(s0, 0, Flatten(vrows[..i]))
    modifies vm, w
    ensures |Flatten(vrows[..i + 1])| <= |s0|
    ensures vm[..] == AddedAt(s0, 0, Flatten(vrows[..i + 1])) && w[..] == Zeros(w.Length)
  {
    FlattenPrefixStep(vrows, i);
    assert vrows[..m] == vrows;
    FlattenPrefixMono(vrows, i + 1, m);
    ghost var row := vrows[i];
    assert ProductValueRowAt(rx, x, xv, rm, cols, yrows, yvals, alpha, vrows, i);
    assert rpX[i] == rx[i] && rpX[i + 1] == rx[i + 1] && rpM[i] == rm[i] && rpM[i + 1] == rm[i + 1];
    ghost var v := vm[..];
    ProductValueRowInto(vm, w, rpM[i], rpM[i + 1], jm, jx, vx, rpX[i], rpX[i + 1], rpY, jy, vy, alpha,
                        cols, x, xv, ry, y, yv, yrows, yvals);
    AddedAtAppend(s0, v, vm[..], Flatten(vrows[..i]), row);
  }

  // ----- The three passes of the product on the CSR arrays of X (m x k) and Y (k x n) -----

  /** The count of `times_mat_alloc`: the number of entries of the product pattern. */
  method ProductCount(rpX: array<int>, jx: array<int>, rpY: array<int>, jy: array<int>, m: nat, k: nat, n: nat)
      returns (total: nat)
    requires WellFormed(rpX[..], jx.Length, m) && ColsInRange(jx[..], rpX[m], k)
    requires WellFormed(rpY[..], jy.Length, k) && ColsInRange(jy[..], rpY[k], n)
    ensures total == |Flatten(ProductRows(rpX[..], jx[..], m, Rows(rpY[..], jy[..], k)))|
  {
    ghost var rx, x, ry, y := rpX[..], jx[..], rpY[..], jy[..];
    ghost var yrows := Rows(ry, y, k);
    ghost var rows := ProductRows(rx, x, m, yrows);
    CsrYRows(ry, y, k, n);
    ProductRowsHold(rx, x, m, yrows);
    var flag := new bool[n];
    total := 0;
    for i := 0 to m
      invariant total == |Flatten(rows[..i])|
    {
      FlattenPrefixStep(rows, i);
      assert ProductPatternRowAt(rx, x, yrows, rows, i);
      var c := ProductRowCount(flag, jx, rpX[i], rpX[i + 1], rpY, jy, x, ry, y, yrows);
      total := total + c;
    }
    assert rows[..m] == rows;
  }

  /** The pattern pass of `times_mat_symbolic`, with its own flag array of n entries. */
  method ProductPatternCsr(rpM: array<int>, jm: array<int>, rpX: array<int>, jx: array<int>,
                           rpY: array<int>, jy: array<int>, m: nat, k: nat, n: nat)
    requires rpM != jm && rpM != rpX && rpM != rpY && rpM != jx && rpM != jy
    requires jm != rpX && jm != rpY && jm != jx && jm != jy
    requires WellFormed(rpX[..], jx.Length, m) && ColsInRange(jx[..], rpX[m], k)
    requires WellFormed(rpY[..], jy.Length, k) && ColsInRange(jy[..], rpY[k], n)
    requires rpM.Length == m + 1 && |Flatten(ProductRows(rpX[..], jx[..], m, Rows(rpY[..], jy[..], k)))| <= jm.Length
    modifies rpM, jm
    ensures var rows := ProductRows(rpX[..], jx[..], m, Rows(rpY[..], jy[..], k));
      && rpM[..] == RowPtr(rows) && jm[..|Flatten(rows)|] == Flatten(rows)
      && (forall p :: |Flatten(rows)| <= p < jm.Length ==> jm[p] == old(jm[p]))
      && WellFormed(rpM[..], jm.Length, m)
  {
    ghost var rx, x, ry, y := rpX[..], jx[..], rpY[..], jy[..];
    ghost var yrows := Rows(ry, y, k);
    ghost var rows := ProductRows(rx, x, m, yrows);
    CsrYRows(ry, y, k, n);
    ProductRowsHold(rx, x, m, yrows);
    var flag := new bool[n];
    ProductPatternInto(rpM, jm, flag, rpX, jx, rpY, jy, m, rx, x, ry, y, yrows, rows);
    RowPtrWellFormed(rows);
  }

  /** The value pass of `times_mat_numeric` after the scaling of M and the clearing of W:
      adds the values of alpha*X*Y to the slots of M, whose pattern is the product pattern. */
  method ProductValuesCsr(vm: array<real>, w: array<real>, rpM: array<int>, jm: array<int>,
                          rpX: array<int>, jx: array<int>, vx: array<real>,
                          rpY: array<int>, jy: array<int>, vy: array<real>, m: nat, k: nat, alpha: real)
    requires vm != w && vm != vx && vm != vy && w != vx && w != vy
    requires WellFormed(rpX[..], jx.Length, m) && ColsInRange(jx[..], rpX[m], k) && jx.Length == vx.Length
    requires WellFormed(rpY[..], jy.Length, k) && ColsInRange(jy[..], rpY[k], w.Length) && jy.Length == vy.Length
    requires var rows := ProductRows(rpX[..], jx[..], m, Rows(rpY[..], jy[..], k));
      rpM[..] == RowPtr(rows) && jm[..] == Flatten(rows) && jm.Length == vm.Length
    requires w[..] == Zeros(w.Length)
    modifies vm, w
    ensures var vrows := ProductValueRows(rpX[..], jx[..], vx[..], m, Rows(rpY[..], jy[..], k),
                                          Rows(rpY[..], vy[..], k), alpha);
      && |Flatten(vrows)| == vm.Length
      && vm[..] == Plus(old(vm[..]), Flatten(vrows))
    ensures w[..] == Zeros(w.Length)
  {
    ghost var rx, x, xv, ry, y, yv := rpX[..], jx[..], vx[..], rpY[..], jy[..], vy[..];
    ghost var yrows, yvals := Rows(ry, y, k), Rows(ry, yv, k);
    ghost var vrows := ProductValueRows(rx, x, xv, m, yrows, yvals, alpha);
    ghost var rm, cols := rpM[..], jm[..];
    ProductValuesReady(rx, x, xv, ry, y, yv, m, k, w.Length, alpha);
    ProductValuesInto(vm, w, rpM, jm, rpX, jx, vx, rpY, jy, vy, m, alpha,
                      rm, cols, rx, x, xv, ry, y, yv, yrows, yvals, vrows);
  }

  /** What the value pass needs to know about the rows of X, Y and the product. */
  lemma {:induction false} ProductValuesReady(rx: seq<int>, x: seq<int>, xv: seq<real>,
                                             ry: seq<int>, y: seq<int>, yv: seq<real>, m: nat, k: nat, n: nat, alpha: real)
    requires WellFormed(rx, |x|, m) && ColsInRange(x, rx[m], k) && |x| == |xv|
    requires WellFormed(ry, |y|, k) && ColsInRange(y, ry[k], n) && |y| == |yv|
    ensures YRows(ry, y, Rows(ry, y, k), n) && YVals(ry, yv, Rows(ry, yv, k))
    ensures var prows := ProductRows(rx, x, m, Rows(ry, y, k));
      var vrows := ProductValueRows(rx, x, xv, m, Rows(ry, y, k), Rows(ry, yv, k), alpha);
      && |Flatten(prows)| == |Flatten(vrows)| && |vrows| == m
      && ProductValueRowsAt(rx, x, xv, RowPtr(prows), Flatten(prows), Rows(ry, y, k), Rows(ry, yv, k), n, alpha, vrows)
  {
    var yrows, yvals := Rows(ry, y, k), Rows(ry, yv, k);
    CsrYRows(ry, y, k, n);
    CsrYVals(ry, yv, k);
    YFitsFromCsr(ry, y, yv, yrows, yvals, n);
    ProductValueRowsHold(rx, x, xv, m, yrows, yvals, n, alpha);
  }

  /** The whole of `times_mat_numeric` on the arrays, once W exists: M is scaled by beta
      unless beta is 1, W is cleared, then the value pass adds alpha*X*Y. */
  method ScaleAddProduct(beta: real, vm: array<real>, w: array<real>, rpM: array<int>, jm: array<int>,
                         rpX: array<int>, jx: array<int>, vx: array<real>,
                         rpY: array<int>, jy: array<int>, vy: array<real>, m: nat, k: nat, alpha: real)
    requires vm != w && vm != vx && vm != vy && w != vx && w != vy
    requires WellFormed(rpX[..], jx.Length, m) && ColsInRange(jx[..], rpX[m], k) && jx.Length == vx.Length
    requires WellFormed(rpY[..], jy.Length, k) && ColsInRange(jy[..], rpY[k], w.Length) && jy.Length == vy.Length
    requires var rows := ProductRows(rpX[..], jx[..], m, Rows(rpY[..], jy[..], k));
      rpM[..] == RowPtr(rows) && jm[..] == Flatten(rows) && jm.Length == vm.Length
    modifies vm, w
    ensures var vrows := ProductValueRows(rpX[..], jx[..], vx[..], m, Rows(rpY[..], jy[..], k),
                                          Rows(rpY[..], vy[..], k), alpha);
      && |Flatten(vrows)| == vm.Length
      && vm[..] == Plus(Scaled(beta, old(vm[..])), Flatten(vrows))
    ensures w[..] == Zeros(w.Length)
  {
    ghost var v0 := vm[..];
    if beta != 1.0 {
      ScaleValues(vm, beta);
    }
    assert vm[..] == Scaled(beta, v0);
    ClearWorkspace(w);
    ProductValuesCsr(vm, w, rpM, jm, rpX, jx, vx, rpY, jy, vy, m, k, alpha);
  }
}
