/**
  Specification of the sparse product M = X*Y (src/LinAlg/hiopMatrixSparseCSR.cpp,
  `times_mat_*`). Row i of M is built by walking the stored columns k of row i of X
  and, for each, the stored columns j of row k of Y.

  Pattern: `AppendNew` and `ProductRow` record the columns in the order they are
  first seen (the flag array), so they are distinct but not sorted; the lemmas show
  that a column is in the row exactly when it is stored in row k of Y for some
  stored k of row i of X.

  Values: `AddScaledRow` and `DenseRow` follow the scatter into the dense workspace
  W; the lemmas tie every W[j] to the entry of the product, the sum over the stored
  k of X[i,k]*Y[k,j] (repeated stored columns add up), and show that W is zero off
  the product pattern.
 */
module CsrProduct {
  import opened CsrPattern

  /** acc followed by the columns of `row` that are not seen yet, in first-seen order. */
  function AppendNew(acc: seq<int>, row: seq<int>): (r: seq<int>)
    decreases |row|
  {
    if row == [] then acc
    else
      var p := AppendNew(acc, row[..|row| - 1]);
      if row[|row| - 1] in p then p else p + [row[|row| - 1]]
  }

  /** Every stored column of X's row indexes a row of Y. */
  ghost predicate IndexesRows<T>(xs: seq<int>, yrows: seq<seq<T>>)
  {
    forall t :: 0 <= t < |xs| ==> 0 <= xs[t] < |yrows|
  }

  /** Pattern of row i of X*Y, given the stored columns xs of row i of X and the rows of Y. */
  function ProductRow(xs: seq<int>, yrows: seq<seq<int>>): (r: seq<int>)
    requires IndexesRows(xs, yrows)
    decreases |xs|
  {
    if xs == [] then []
    else AppendNew(ProductRow(xs[..|xs| - 1], yrows), yrows[xs[|xs| - 1]])
  }

  /** The whole pattern of X*Y, row by row. */
  function ProductRows(rpX: seq<int>, jcX: seq<int>, m: nat, yrows: seq<seq<int>>): (rows: seq<seq<int>>)
    requires WellFormed(rpX, |jcX|, m)
    requires forall k :: 0 <= k < rpX[m] ==> 0 <= jcX[k] < |yrows|
    ensures |rows| == m
    ensures forall i :: 0 <= i < m ==> IndexesRows(RowOf(rpX, jcX, i), yrows)
    ensures forall i :: 0 <= i < m ==> rows[i] == ProductRow(RowOf(rpX, jcX, i), yrows)
  {
    assert forall i, t :: 0 <= i < m && 0 <= t < rpX[i + 1] - rpX[i] ==> RowOf(rpX, jcX, i)[t] == jcX[rpX[i] + t];
    seq(m, i requires 0 <= i < m => ProductRow(RowOf(rpX, jcX, i), yrows))
  }

  /** The contexts in which a column occurs: the union of the Y rows named by xs. */
  ghost predicate InSomeRow(j: int, xs: seq<int>, yrows: seq<seq<int>>)
    requires IndexesRows(xs, yrows)
  {
    exists t :: 0 <= t < |xs| && j in yrows[xs[t]]
  }

  lemma {:induction false} AppendNewSpec(acc: seq<int>, row: seq<int>)
    requires Distinct(acc)
    ensures Distinct(AppendNew(acc, row))
    ensures forall x :: x in AppendNew(acc, row) <==> x in acc || x in row
    ensures |acc| <= |AppendNew(acc, row)| && AppendNew(acc, row)[..|acc|] == acc
    decreases |row|
  {
    if row != [] {
      var pre := row[..|row| - 1];
      AppendNewSpec(acc, pre);
      var p := AppendNew(acc, pre);
      assert row == pre + [row[|row| - 1]];
      if row[|row| - 1] !in p {
        var r := p + [row[|row| - 1]];
        assert r[..|acc|] == p[..|acc|];
        forall a, b | 0 <= a < b < |r|
          ensures r[a] != r[b]
        {
          if b == |r| - 1 {
            assert r[a] in p;
          }
        }
      }
    }
  }

  /** The product row is duplicate free and holds exactly the columns of the selected Y rows. */
  lemma {:induction false} ProductRowSpec(xs: seq<int>, yrows: seq<seq<int>>)
    requires IndexesRows(xs, yrows)
    ensures Distinct(ProductRow(xs, yrows))
    ensures forall j :: j in ProductRow(xs, yrows) <==> InSomeRow(j, xs, yrows)
    decreases |xs|
  {
    if xs != [] {
      var pre := xs[..|xs| - 1];
      var k := xs[|xs| - 1];
      ProductRowSpec(pre, yrows);
      AppendNewSpec(ProductRow(pre, yrows), yrows[k]);
      forall j
        ensures j in ProductRow(xs, yrows) <==> InSomeRow(j, xs, yrows)
      {
        if InSomeRow(j, xs, yrows) {
          var t :| 0 <= t < |xs| && j in yrows[xs[t]];
          if t < |pre| {
            assert pre[t] == xs[t];
            assert InSomeRow(j, pre, yrows);
          }
        }
        if InSomeRow(j, pre, yrows) {
          var t :| 0 <= t < |pre| && j in yrows[pre[t]];
          assert xs[t] == pre[t];
        }
      }
    }
  }

  /** The product row is duplicate free. */
  lemma {:induction false} ProductRowDistinct(xs: seq<int>, yrows: seq<seq<int>>)
    requires IndexesRows(xs, yrows)
    ensures Distinct(ProductRow(xs, yrows))
  {
    ProductRowSpec(xs, yrows);
  }

  /** A prefix of X's row yields a prefix of the product row. */
  lemma {:induction false} ProductRowPrefix(xs: seq<int>, yrows: seq<seq<int>>, t: nat)
    requires IndexesRows(xs, yrows) && t < |xs|
    ensures IndexesRows(xs[..t], yrows)
    ensures ProductRow(xs[..t + 1], yrows) == AppendNew(ProductRow(xs[..t], yrows), yrows[xs[t]])
  {
    assert xs[..t + 1][..t] == xs[..t];
  }

  /** Appending two rows one after the other appends their concatenation. */
  lemma {:induction false} AppendNewConcat(acc: seq<int>, a: seq<int>, b: seq<int>)
    ensures AppendNew(acc, a + b) == AppendNew(AppendNew(acc, a), b)
    decreases |b|
  {
    if b == [] {
      assert a + b == a;
    } else {
      var b' := b[..|b| - 1];
      assert (a + b)[..|a + b| - 1] == a + b';
      AppendNewConcat(acc, a, b');
    }
  }

  /** The columns gathered from a prefix of a row are never more than from the whole row. */
  lemma {:induction false} AppendNewPrefixLen(acc: seq<int>, row: seq<int>, t: nat)
    requires Distinct(acc) && t <= |row|
    ensures |AppendNew(acc, row[..t])| <= |AppendNew(acc, row)|
  {
    assert row == row[..t] + row[t..];
    AppendNewConcat(acc, row[..t], row[t..]);
    AppendNewSpec(acc, row[..t]);
    AppendNewSpec(AppendNew(acc, row[..t]), row[t..]);
  }

  /** The product row of a prefix of X's row is never longer than the whole product row. */
  lemma {:induction false} ProductRowPrefixLen(xs: seq<int>, yrows: seq<seq<int>>, t: nat)
    requires IndexesRows(xs, yrows) && t <= |xs|
    ensures IndexesRows(xs[..t], yrows)
    ensures |ProductRow(xs[..t], yrows)| <= |ProductRow(xs, yrows)|
    decreases |xs| - t
  {
    if t < |xs| {
      ProductRowPrefixLen(xs, yrows, t + 1);
      ProductRowPrefix(xs, yrows, t);
      ProductRowSpec(xs[..t], yrows);
      AppendNewSpec(ProductRow(xs[..t], yrows), yrows[xs[t]]);
    } else {
      assert xs[..t] == xs;
    }
  }

  /** Columns of the product lie in [0, n) when those of Y do. */
  lemma {:induction false} ProductRowInRange(xs: seq<int>, yrows: seq<seq<int>>, n: int)
    requires IndexesRows(xs, yrows)
    requires forall k, p :: 0 <= k < |yrows| && 0 <= p < |yrows[k]| ==> 0 <= yrows[k][p] < n
    ensures forall p :: 0 <= p < |ProductRow(xs, yrows)| ==> 0 <= ProductRow(xs, yrows)[p] < n
  {
    ProductRowSpec(xs, yrows);
    forall p | 0 <= p < |ProductRow(xs, yrows)|
      ensures 0 <= ProductRow(xs, yrows)[p] < n
    {
      var j := ProductRow(xs, yrows)[p];
      assert InSomeRow(j, xs, yrows);
      var t :| 0 <= t < |xs| && j in yrows[xs[t]];
      var q :| 0 <= q < |yrows[xs[t]]| && yrows[xs[t]][q] == j;
    }
  }

  // ----- values -----

  /** Column indexes all fall inside a workspace of size n. */
  ghost predicate FitsIn(cols: seq<int>, n: int)
  {
    forall p :: 0 <= p < |cols| ==> 0 <= cols[p] < n
  }

  /** The product v*s of a stored value and a scale factor. Naming it lets the solver
      compare updated workspaces term by term instead of arithmetically. */
  function Times(v: real, s: real): real
  {
    v * s
  }

  /** Scatter of a sparse row scaled by s into the dense workspace w: w[cols[p]] += vals[p]*s. */
  function AddScaledRow(w: seq<real>, cols: seq<int>, vals: seq<real>, s: real): (r: seq<real>)
    requires |cols| == |vals| && FitsIn(cols, |w|)
    ensures |r| == |w|
    decreases |cols|
  {
    if cols == [] then w
    else
      var c := cols[|cols| - 1];
      var w' := AddScaledRow(w, cols[..|cols| - 1], vals[..|vals| - 1], s);
      w'[c := w'[c] + Times(vals[|vals| - 1], s)]
  }

  /** The rows of Y (pattern and values) fit a workspace of size n. */
  ghost predicate YFits(yrows: seq<seq<int>>, yvals: seq<seq<real>>, n: int)
  {
    && |yrows| == |yvals|
    && forall k :: 0 <= k < |yrows| ==> |yrows[k]| == |yvals[k]| && FitsIn(yrows[k], n)
  }

  /** The workspace after the scatters of row i: w plus X[i,k]*Y[k,:] for every stored k. */
  function DenseRow(w: seq<real>, xs: seq<int>, xv: seq<real>, yrows: seq<seq<int>>, yvals: seq<seq<real>>): (r: seq<real>)
    requires |xs| == |xv| && IndexesRows(xs, yrows) && YFits(yrows, yvals, |w|)
    ensures |r| == |w|
    decreases |xs|
  {
    if xs == [] then w
    else
      var k := xs[|xs| - 1];
      AddScaledRow(DenseRow(w, xs[..|xs| - 1], xv[..|xv| - 1], yrows, yvals), yrows[k], yvals[k], xv[|xv| - 1])
  }

  /** Dense value of a sparse row at column j: the sum of its stored values at j. */
  function EntrySum(cols: seq<int>, vals: seq<real>, j: int): real
    requires |cols| == |vals|
    decreases |cols|
  {
    if cols == [] then 0.0
    else EntrySum(cols[..|cols| - 1], vals[..|vals| - 1], j) + (if cols[|cols| - 1] == j then vals[|vals| - 1] else 0.0)
  }

  /** Entry (i, j) of X*Y: the sum over stored k of row i of X of X[i,k]*Y[k,j]. */
  function ProductEntry(xs: seq<int>, xv: seq<real>, yrows: seq<seq<int>>, yvals: seq<seq<real>>, j: int): real
    requires |xs| == |xv| && IndexesRows(xs, yrows) && |yrows| == |yvals|
    requires forall k :: 0 <= k < |yrows| ==> |yrows[k]| == |yvals[k]|
    decreases |xs|
  {
    if xs == [] then 0.0
    else
      var k := xs[|xs| - 1];
      ProductEntry(xs[..|xs| - 1], xv[..|xv| - 1], yrows, yvals, j) + xv[|xv| - 1] * EntrySum(yrows[k], yvals[k], j)
  }

  /** Row i of alpha*X*Y on its pattern: at each column j of the product row, alpha times
      entry (i, j) of the product. */
  function ProductValueRow(xs: seq<int>, xv: seq<real>, yrows: seq<seq<int>>, yvals: seq<seq<real>>, alpha: real): (r: seq<real>)
    requires |xs| == |xv| && IndexesRows(xs, yrows) && |yrows| == |yvals|
    requires forall k :: 0 <= k < |yrows| ==> |yrows[k]| == |yvals[k]|
    ensures |r| == |ProductRow(xs, yrows)|
  {
    var cols := ProductRow(xs, yrows);
    seq(|cols|, t requires 0 <= t < |cols| => alpha * ProductEntry(xs, xv, yrows, yvals, cols[t]))
  }

  /** The values of alpha*X*Y, row by row, on the pattern `ProductRows`. */
  function ProductValueRows(rpX: seq<int>, jcX: seq<int>, vX: seq<real>, m: nat,
                            yrows: seq<seq<int>>, yvals: seq<seq<real>>, alpha: real): (rows: seq<seq<real>>)
    requires WellFormed(rpX, |jcX|, m) && |jcX| == |vX|
    requires forall k :: 0 <= k < rpX[m] ==> 0 <= jcX[k] < |yrows|
    requires |yrows| == |yvals| && forall k :: 0 <= k < |yrows| ==> |yrows[k]| == |yvals[k]|
    ensures |rows| == m
    ensures forall i :: 0 <= i < m ==> IndexesRows(RowOf(rpX, jcX, i), yrows)
    ensures forall i :: 0 <= i < m ==> rows[i] == ProductValueRow(RowOf(rpX, jcX, i), RowOf(rpX, vX, i), yrows, yvals, alpha)
  {
    assert forall i, t :: 0 <= i < m && 0 <= t < rpX[i + 1] - rpX[i] ==> RowOf(rpX, jcX, i)[t] == jcX[rpX[i] + t];
    seq(m, i requires 0 <= i < m => ProductValueRow(RowOf(rpX, jcX, i), RowOf(rpX, vX, i), yrows, yvals, alpha))
  }

  /** The values gathered into a row of M: alpha*W[j] for every column j of the row. */
  function GatherRow(w: seq<real>, cols: seq<int>, alpha: real): (r: seq<real>)
    requires FitsIn(cols, |w|)
    ensures |r| == |cols|
  {
    seq(|cols|, p requires 0 <= p < |cols| => alpha * w[cols[p]])
  }

  /** The workspace after the gather resets the columns of the row. */
  function Cleared(w: seq<real>, cols: seq<int>): (r: seq<real>)
    ensures |r| == |w|
  {
    seq(|w|, j requires 0 <= j < |w| => if j in cols then 0.0 else w[j])
  }

  /** The all-zero workspace. */
  function Zeros(n: nat): (r: seq<real>)
    ensures |r| == n && forall j :: 0 <= j < n ==> r[j] == 0.0
  {
    seq(n, _ => 0.0)
  }

  lemma {:induction false} AddScaledRowAt(w: seq<real>, cols: seq<int>, vals: seq<real>, s: real, j: int)
    requires |cols| == |vals| && FitsIn(cols, |w|) && 0 <= j < |w|
    ensures AddScaledRow(w, cols, vals, s)[j] == w[j] + s * EntrySum(cols, vals, j)
    decreases |cols|
  {
    if cols != [] {
      var cs := cols[..|cols| - 1];
      var vs := vals[..|vals| - 1];
      AddScaledRowAt(w, cs, vs, s, j);
      var e := EntrySum(cs, vs, j);
      var v := vals[|vals| - 1];
      if cols[|cols| - 1] == j {
        calc {
          AddScaledRow(w, cols, vals, s)[j];
          (w[j] + s * e) + v * s;
          w[j] + s * (e + v);
        }
      }
    }
  }

  /** Scattering the rows of Y selected by row i of X leaves in W, at column j,
      the starting value plus entry (i, j) of the product. */
  lemma {:induction false} DenseRowAt(w: seq<real>, xs: seq<int>, xv: seq<real>, yrows: seq<seq<int>>,
                                     yvals: seq<seq<real>>, j: int)
    requires |xs| == |xv| && IndexesRows(xs, yrows) && YFits(yrows, yvals, |w|) && 0 <= j < |w|
    ensures DenseRow(w, xs, xv, yrows, yvals)[j] == w[j] + ProductEntry(xs, xv, yrows, yvals, j)
    decreases |xs|
  {
    if xs != [] {
      var k := xs[|xs| - 1];
      var pre := DenseRow(w, xs[..|xs| - 1], xv[..|xv| - 1], yrows, yvals);
      DenseRowAt(w, xs[..|xs| - 1], xv[..|xv| - 1], yrows, yvals, j);
      AddScaledRowAt(pre, yrows[k], yvals[k], xv[|xv| - 1], j);
    }
  }

  lemma {:induction false} EntrySumAbsent(cols: seq<int>, vals: seq<real>, j: int)
    requires |cols| == |vals| && j !in cols
    ensures EntrySum(cols, vals, j) == 0.0
    decreases |cols|
  {
    if cols != [] {
      assert cols == cols[..|cols| - 1] + [cols[|cols| - 1]];
      EntrySumAbsent(cols[..|cols| - 1], vals[..|vals| - 1], j);
    }
  }

  /** Off the product pattern the product entry is zero. */
  lemma {:induction false} ProductEntryOffPattern(xs: seq<int>, xv: seq<real>, yrows: seq<seq<int>>,
                                                 yvals: seq<seq<real>>, j: int)
    requires |xs| == |xv| && IndexesRows(xs, yrows) && |yrows| == |yvals|
    requires forall k :: 0 <= k < |yrows| ==> |yrows[k]| == |yvals[k]|
    requires j !in ProductRow(xs, yrows)
    ensures ProductEntry(xs, xv, yrows, yvals, j) == 0.0
    decreases |xs|
  {
    if xs != [] {
      var pre := xs[..|xs| - 1];
      var k := xs[|xs| - 1];
      ProductRowSpec(pre, yrows);
      AppendNewSpec(ProductRow(pre, yrows), yrows[k]);
      ProductEntryOffPattern(pre, xv[..|xv| - 1], yrows, yvals, j);
      EntrySumAbsent(yrows[k], yvals[k], j);
    }
  }

  /** The scatter of row i into a zero workspace followed by the gather over the product
      pattern: the gathered values are row i of alpha*X*Y, and the workspace is zero again,
      since off the product pattern the scatter left it at zero. */
  lemma {:induction false} GatherProductRow(n: nat, xs: seq<int>, xv: seq<real>, yrows: seq<seq<int>>,
                                           yvals: seq<seq<real>>, alpha: real)
    requires |xs| == |xv| && IndexesRows(xs, yrows) && YFits(yrows, yvals, n)
    ensures Distinct(ProductRow(xs, yrows)) && FitsIn(ProductRow(xs, yrows), n)
    ensures GatherRow(DenseRow(Zeros(n), xs, xv, yrows, yvals), ProductRow(xs, yrows), alpha)
         == ProductValueRow(xs, xv, yrows, yvals, alpha)
    ensures Cleared(DenseRow(Zeros(n), xs, xv, yrows, yvals), ProductRow(xs, yrows)) == Zeros(n)
  {
    var cols := ProductRow(xs, yrows);
    ProductRowSpec(xs, yrows);
    forall k, p | 0 <= k < |yrows| && 0 <= p < |yrows[k]|
      ensures 0 <= yrows[k][p] < n
    {
      assert FitsIn(yrows[k], n);
    }
    ProductRowInRange(xs, yrows, n);
    var d := DenseRow(Zeros(n), xs, xv, yrows, yvals);
    var g, e := GatherRow(d, cols, alpha), ProductValueRow(xs, xv, yrows, yvals, alpha);
    forall t | 0 <= t < |cols|
      ensures g[t] == e[t]
    {
      DenseRowAt(Zeros(n), xs, xv, yrows, yvals, cols[t]);
    }
    var c := Cleared(d, cols);
    forall j | 0 <= j < n
      ensures c[j] == 0.0
    {
      if j !in cols {
        ProductEntryOffPattern(xs, xv, yrows, yvals, j);
        DenseRowAt(Zeros(n), xs, xv, yrows, yvals, j);
      }
    }
  }

  /** With no columns in Y the product has no entries. */
  lemma {:induction false} ProductNoColumns(rpX: seq<int>, jcX: seq<int>, m: nat, yrows: seq<seq<int>>)
    requires WellFormed(rpX, |jcX|, m) && forall k :: 0 <= k < rpX[m] ==> 0 <= jcX[k] < |yrows|
    requires forall k, p :: 0 <= k < |yrows| && 0 <= p < |yrows[k]| ==> 0 <= yrows[k][p] < 0
    ensures Flatten(ProductRows(rpX, jcX, m, yrows)) == []
  {
    var rows := ProductRows(rpX, jcX, m, yrows);
    forall i | 0 <= i < m
      ensures rows[i] == []
    {
      var r := ProductRow(RowOf(rpX, jcX, i), yrows);
      ProductRowInRange(RowOf(rpX, jcX, i), yrows, 0);
      FirstInRange(r, 0);
    }
    FlattenEmptyRows(rows);
  }

  /** The first element of a sequence with all its elements in [0, n) is in [0, n). */
  lemma {:induction false} FirstInRange(s: seq<int>, n: int)
    requires forall p :: 0 <= p < |s| ==> 0 <= s[p] < n
    ensures |s| > 0 ==> 0 <= s[0] < n
  {
  }
}
