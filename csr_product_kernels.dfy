/**
  Array loops of the sparse product M = X*Y (src/LinAlg/hiopMatrixSparseCSR.cpp,
  `times_mat_alloc`, `times_mat_symbolic`, `times_mat_numeric`), one row at a time.
  Each method is proved against the specification functions of CsrProduct: the
  pattern loops against `AppendNew` / `ProductRow`, the scatter into the dense
  workspace W against `AddScaledRow` / `DenseRow`.
 */
module CsrProductKernels {
  import opened CsrPattern
  import opened CsrProduct
  import opened CsrKernels

  /** memset(flag, 0, n): no column is marked. */
  method ClearFlags(flag: array<bool>)
    modifies flag
    ensures forall j :: 0 <= j < flag.Length ==> !flag[j]
  {
    for j := 0 to flag.Length
      invariant forall j' :: 0 <= j' < j ==> !flag[j']
    {
      flag[j] := false;
    }
  }

  /** The flags mark exactly the columns of acc. */
  ghost predicate Marks(flag: seq<bool>, acc: seq<int>)
  {
    forall j :: 0 <= j < |flag| ==> (flag[j] <==> j in acc)
  }

  /** The slots y[lo..hi] hold columns inside [0, n). */
  ghost predicate SlotsIn(y: seq<int>, lo: nat, hi: nat, n: int)
    requires lo <= hi <= |y|
  {
    forall p :: lo <= p < hi ==> 0 <= y[p] < n
  }

  /** One step of the first-seen union: the next column is added unless it was seen. */
  lemma {:induction false} AppendNewStep(acc: seq<int>, y: seq<int>, lo: nat, py: nat)
    requires lo <= py < |y|
    ensures AppendNew(acc, y[lo..py + 1])
         == var p := AppendNew(acc, y[lo..py]); if y[py] in p then p else p + [y[py]]
  {
    assert y[lo..py + 1][..py - lo] == y[lo..py];
  }

  /** Counts the columns of y[lo..hi] not marked yet, marking them: the inner loop of
      `times_mat_alloc`. */
  method AppendNewCount(flag: array<bool>, jy: array<int>, lo: nat, hi: nat,
                        ghost y: seq<int>, ghost acc: seq<int>) returns (cnt: nat)
    requires y == jy[..] && lo <= hi <= jy.Length && SlotsIn(y, lo, hi, flag.Length)
    requires Marks(flag[..], acc)
    modifies flag
    ensures |acc| + cnt == |AppendNew(acc, y[lo..hi])|
    ensures Marks(flag[..], AppendNew(acc, y[lo..hi]))
  {
    cnt := 0;
    for py := lo to hi
      invariant |acc| + cnt == |AppendNew(acc, y[lo..py])|
      invariant Marks(flag[..], AppendNew(acc, y[lo..py]))
    {
      AppendNewStep(acc, y, lo, py);
      var j := jy[py];
      if !flag[j] {
        cnt := cnt + 1;
        flag[j] := true;
      }
    }
  }

  /** Appends column j at jm[nnz] unless it is marked, marking it: the body of the inner
      loop of `times_mat_symbolic`. */
  method AppendOne(jm: array<int>, nnz: nat, flag: array<bool>, j: int, ghost pre: seq<int>, ghost acc: seq<int>)
      returns (nnz': nat)
    requires 0 <= j < flag.Length && Marks(flag[..], acc)
    requires nnz <= jm.Length && (j !in acc ==> nnz < jm.Length) && jm[..nnz] == pre + acc
    modifies jm, flag
    ensures var r := if j in acc then acc else acc + [j];
      && nnz' == nnz + |r| - |acc| <= jm.Length && jm[..nnz'] == pre + r && Marks(flag[..], r)
    ensures forall p :: nnz' <= p < jm.Length ==> jm[p] == old(jm[p])
  {
    nnz' := nnz;
    if !flag[j] {
      jm[nnz] := j;
      flag[j] := true;
      nnz' := nnz + 1;
      assert jm[..nnz'] == (pre + acc) + [j];
    }
  }

  /** Writes the columns of y[lo..hi] not marked yet at jm[nnz..], marking them: the inner
      loop of `times_mat_symbolic`. jm[..nnz] holds pre followed by acc on entry. */
  method AppendNewInto(jm: array<int>, nnz: nat, flag: array<bool>, jy: array<int>, lo: nat, hi: nat,
                       ghost y: seq<int>, ghost pre: seq<int>, ghost acc: seq<int>) returns (nnz': nat)
    requires jm != jy && y == jy[..] && lo <= hi <= jy.Length && SlotsIn(y, lo, hi, flag.Length)
    requires Distinct(acc) && Marks(flag[..], acc)
    requires |pre| + |AppendNew(acc, y[lo..hi])| <= jm.Length
    requires nnz <= jm.Length && jm[..nnz] == pre + acc
    modifies jm, flag
    ensures var r := AppendNew(acc, y[lo..hi]);
      && nnz <= nnz' == |pre| + |r| && jm[..nnz'] == pre + r && Marks(flag[..], r)
    ensures forall p :: nnz' <= p < jm.Length ==> jm[p] == old(jm[p])
  {
    nnz' := nnz;
    for py := lo to hi
      invariant var r := AppendNew(acc, y[lo..py]);
        && nnz <= nnz' == |pre| + |r| <= jm.Length && jm[..nnz'] == pre + r && Marks(flag[..], r)
      invariant forall p :: nnz' <= p < jm.Length ==> jm[p] == old(jm[p])
    {
      AppendNewStep(acc, y, lo, py);
      AppendNewPrefixLen(acc, y[lo..hi], py + 1 - lo);
      assert y[lo..hi][..py + 1 - lo] == y[lo..py + 1];
      AppendNewSpec(acc, y[lo..py]);
      nnz' := AppendOne(jm, nnz', flag, jy[py], pre, AppendNew(acc, y[lo..py]));
    }
  }

  /** The rows of Y as seen through its CSR arrays (row pointers `rp`, columns `y`), row
      by row: row k occupies the slots [rp[k], rp[k+1]) and its columns lie in [0, n).
      Stated per row, so that the loops only ever look at the rows they visit. */
  ghost predicate YRows(rp: seq<int>, y: seq<int>, yrows: seq<seq<int>>, n: int)
  {
    && |rp| == |yrows| + 1
    && forall k {:trigger yrows[k]} :: 0 <= k < |yrows| ==>
         0 <= rp[k] <= rp[k + 1] <= |y| && y[rp[k]..rp[k + 1]] == yrows[k] && SlotsIn(y, rp[k], rp[k + 1], n)
  }

  /** Facts about row k of Y used by the loops: its slots and its columns. */
  lemma {:induction false} YRowAt(rp: seq<int>, y: seq<int>, yrows: seq<seq<int>>, n: int, k: nat)
    requires YRows(rp, y, yrows, n) && k < |yrows|
    ensures 0 <= rp[k] <= rp[k + 1] <= |y| && y[rp[k]..rp[k + 1]] == yrows[k]
    ensures SlotsIn(y, rp[k], rp[k + 1], n)
  {
    assert yrows[k] == yrows[k];
  }

  /** A well-formed CSR pattern with columns in [0, n) presents its rows this way. */
  lemma {:induction false} CsrYRows(rp: seq<int>, y: seq<int>, m: nat, n: int)
    requires WellFormed(rp, |y|, m) && ColsInRange(y, rp[m], n)
    ensures YRows(rp, y, Rows(rp, y, m), n)
  {
    var yrows := Rows(rp, y, m);
    forall k {:trigger yrows[k]} | 0 <= k < |yrows|
      ensures 0 <= rp[k] <= rp[k + 1] <= |y| && y[rp[k]..rp[k + 1]] == yrows[k] && SlotsIn(y, rp[k], rp[k + 1], n)
    {
      assert rp[k + 1] <= rp[m];
    }
  }

  /** Number of entries of row i of X*Y: a row of the counting loop of `times_mat_alloc`. */
  method ProductRowCount(flag: array<bool>, jx: array<int>, loX: nat, hiX: nat, rpY: array<int>, jy: array<int>,
                         ghost x: seq<int>, ghost rp: seq<int>, ghost y: seq<int>, ghost yrows: seq<seq<int>>)
      returns (cnt: nat)
    requires x == jx[..] && rp == rpY[..] && y == jy[..] && loX <= hiX <= jx.Length
    requires YRows(rp, y, yrows, flag.Length) && IndexesRows(x[loX..hiX], yrows)
    modifies flag
    ensures cnt == |ProductRow(x[loX..hiX], yrows)|
  {
    ghost var xs := x[loX..hiX];
    ghost var acc: seq<int> := [];
    ClearFlags(flag);
    cnt := 0;
    for px := loX to hiX
      invariant IndexesRows(xs[..px - loX], yrows) && acc == ProductRow(xs[..px - loX], yrows)
      invariant cnt == |acc| && Marks(flag[..], acc)
    {
      ProductRowPrefix(xs, yrows, px - loX);
      var k := jx[px];
      assert xs[px - loX] == k;
      var c := CountRowStep(flag, rpY, jy, k, rp, y, yrows, acc);
      cnt := cnt + c;
      acc := AppendNew(acc, yrows[k]);
    }
    assert xs[..hiX - loX] == xs;
  }

  /** The columns of row k of Y that are not marked yet, counted and marked: one stored
      entry of row i of X in `times_mat_alloc`. */
  method CountRowStep(flag: array<bool>, rpY: array<int>, jy: array<int>, k: int,
                      ghost rp: seq<int>, ghost y: seq<int>, ghost yrows: seq<seq<int>>, ghost acc: seq<int>)
      returns (c: nat)
    requires rp == rpY[..] && y == jy[..] && YRows(rp, y, yrows, flag.Length) && 0 <= k < |yrows|
    requires Marks(flag[..], acc)
    modifies flag
    ensures |acc| + c == |AppendNew(acc, yrows[k])| && Marks(flag[..], AppendNew(acc, yrows[k]))
  {
    YRowAt(rp, y, yrows, flag.Length, k);
    c := AppendNewCount(flag, jy, rpY[k], rpY[k + 1], y, acc);
  }

  /** Writes the pattern of row i of X*Y after jm[..start]: a row of `times_mat_symbolic`. */
  method ProductRowInto(jm: array<int>, start: nat, flag: array<bool>, jx: array<int>, loX: nat, hiX: nat,
                        rpY: array<int>, jy: array<int>,
                        ghost x: seq<int>, ghost rp: seq<int>, ghost y: seq<int>, ghost yrows: seq<seq<int>>)
      returns (end: nat)
    requires jm != jx && jm != rpY && jm != jy
    requires x == jx[..] && rp == rpY[..] && y == jy[..] && loX <= hiX <= jx.Length
    requires YRows(rp, y, yrows, flag.Length) && IndexesRows(x[loX..hiX], yrows)
    requires start + |ProductRow(x[loX..hiX], yrows)| <= jm.Length
    modifies jm, flag
    ensures end == start + |ProductRow(x[loX..hiX], yrows)|
    ensures jm[..end] == old(jm[..start]) + ProductRow(x[loX..hiX], yrows)
    ensures forall p :: end <= p < jm.Length ==> jm[p] == old(jm[p])
  {
    ghost var xs := x[loX..hiX];
    ghost var pre := jm[..start];
    ghost var bound := start + |ProductRow(xs, yrows)|;
    ghost var acc: seq<int> := [];
    ClearFlags(flag);
    end := start;
    for px := loX to hiX
      invariant x == jx[..] && rp == rpY[..] && y == jy[..]
      invariant IndexesRows(xs[..px - loX], yrows) && acc == ProductRow(xs[..px - loX], yrows)
      invariant end == start + |acc| <= jm.Length && jm[..end] == pre + acc && Marks(flag[..], acc)
      invariant forall p :: end <= p < jm.Length ==> jm[p] == old(jm[p])
    {
      var t, k := px - loX, jx[px];
      assert xs[t] == k;
      ProductRowPrefix(xs, yrows, t);
      ProductRowPrefixLen(xs, yrows, t + 1);
      ProductRowDistinct(xs[..t], yrows);
      end := ProductRowStep(jm, end, flag, rpY, jy, k, rp, y, yrows, pre, acc, bound);
      acc := AppendNew(acc, yrows[k]);
    }
    assert xs[..hiX - loX] == xs;
  }

  /** Appends the unmarked columns of row k of Y: one stored entry of row i of X in
      `times_mat_symbolic`. */
  method ProductRowStep(jm: array<int>, nnz: nat, flag: array<bool>, rpY: array<int>, jy: array<int>, k: int,
                        ghost rp: seq<int>, ghost y: seq<int>, ghost yrows: seq<seq<int>>,
                        ghost pre: seq<int>, ghost acc: seq<int>, ghost bound: nat)
      returns (nnz': nat)
    requires jm != rpY && jm != jy
    requires rp == rpY[..] && y == jy[..] && YRows(rp, y, yrows, flag.Length) && 0 <= k < |yrows|
    requires Distinct(acc) && Marks(flag[..], acc)
    requires |pre| + |AppendNew(acc, yrows[k])| <= bound <= jm.Length
    requires nnz <= jm.Length && jm[..nnz] == pre + acc
    modifies jm, flag
    ensures var r := AppendNew(acc, yrows[k]);
      && nnz <= nnz' == |pre| + |r| <= bound && jm[..nnz'] == pre + r && Marks(flag[..], r)
    ensures forall p :: nnz' <= p < jm.Length ==> jm[p] == old(jm[p])
  {
    YRowAt(rp, y, yrows, flag.Length, k);
    nnz' := AppendNewInto(jm, nnz, flag, jy, rpY[k], rpY[k + 1], y, pre, acc);
  }

  // ----- values -----

  /** W[y[p]] += yv[p]*val for the slots of row k of Y: the innermost loop of
      `times_mat_numeric`. */
  method ScatterRow(w: array<real>, jy: array<int>, vy: array<real>, lo: nat, hi: nat, val: real,
                    ghost y: seq<int>, ghost yv: seq<real>)
    requires y == jy[..] && yv == vy[..] && w != vy
    requires lo <= hi <= jy.Length == vy.Length && SlotsIn(y, lo, hi, w.Length)
    modifies w
    ensures FitsIn(y[lo..hi], w.Length)
    ensures w[..] == AddScaledRow(old(w[..]), y[lo..hi], yv[lo..hi], val)
  {
    ghost var w0 := w[..];
    for py := lo to hi
      invariant FitsIn(y[lo..py], w.Length)
      invariant w[..] == AddScaledRow(w0, y[lo..py], yv[lo..py], val)
    {
      AddScaledRowStep(w0, y, yv, lo, py, val);
      var j := jy[py];
      ghost var before := w[..];
      var t := vy[py] * val;
      assert t == Times(yv[py], val) && w[j] == before[j];
      w[j] := w[j] + t;
      assert w[..] == before[j := before[j] + Times(yv[py], val)];
    }
  }

  /** One more slot of the scatter updates one entry of the workspace. */
  lemma {:induction false} AddScaledRowStep(w: seq<real>, y: seq<int>, yv: seq<real>, lo: nat, py: nat, s: real)
    requires lo <= py < |y| == |yv| && FitsIn(y[lo..py], |w|) && 0 <= y[py] < |w|
    ensures FitsIn(y[lo..py + 1], |w|)
    ensures var r := AddScaledRow(w, y[lo..py], yv[lo..py], s);
      AddScaledRow(w, y[lo..py + 1], yv[lo..py + 1], s) == r[y[py] := r[y[py]] + Times(yv[py], s)]
  {
    var cols, vals := y[lo..py + 1], yv[lo..py + 1];
    assert cols[..|cols| - 1] == y[lo..py] && vals[..|vals| - 1] == yv[lo..py];
    forall p | 0 <= p < |cols|
      ensures 0 <= cols[p] < |w|
    {
      if p < |cols| - 1 {
        assert cols[p] == y[lo..py][p];
      }
    }
    assert cols[|cols| - 1] == y[py] && vals[|vals| - 1] == yv[py];
    var r := AddScaledRow(w, cols[..|cols| - 1], vals[..|vals| - 1], s);
    assert AddScaledRow(w, cols, vals, s) == r[cols[|cols| - 1] := r[cols[|cols| - 1]] + Times(vals[|vals| - 1], s)];
  }

  /** A prefix of a run of row indexes of Y indexes rows of Y as well. */
  lemma {:induction false} IndexesSlice<T>(x: seq<int>, lo: nat, p: nat, hi: nat, yrows: seq<seq<T>>)
    requires lo <= p <= hi <= |x| && IndexesRows(x[lo..hi], yrows)
    ensures IndexesRows(x[lo..p], yrows)
  {
    forall t | 0 <= t < p - lo
      ensures 0 <= x[lo..p][t] < |yrows|
    {
      assert x[lo..p][t] == x[lo..hi][t];
    }
  }

  /** One more stored entry of row i of X scatters one more row of Y. */
  lemma {:induction false} DenseRowStep(w: seq<real>, x: seq<int>, xv: seq<real>, lo: nat, px: nat,
                     yrows: seq<seq<int>>, yvals: seq<seq<real>>)
    requires lo <= px < |x| == |xv| && IndexesRows(x[lo..px + 1], yrows) && YFits(yrows, yvals, |w|)
    ensures IndexesRows(x[lo..px], yrows) && 0 <= x[px] < |yrows|
    ensures DenseRow(w, x[lo..px + 1], xv[lo..px + 1], yrows, yvals)
         == AddScaledRow(DenseRow(w, x[lo..px], xv[lo..px], yrows, yvals), yrows[x[px]], yvals[x[px]], xv[px])
  {
    var xs, vs := x[lo..px + 1], xv[lo..px + 1];
    assert xs[..|xs| - 1] == x[lo..px] && vs[..|vs| - 1] == xv[lo..px];
    assert xs[|xs| - 1] == x[px] && vs[|vs| - 1] == xv[px];
  }

  /** The values of Y as seen through its CSR arrays, row by row. */
  ghost predicate YVals(rp: seq<int>, yv: seq<real>, yvals: seq<seq<real>>)
  {
    && |rp| == |yvals| + 1
    && forall k {:trigger yvals[k]} :: 0 <= k < |yvals| ==> 0 <= rp[k] <= rp[k + 1] <= |yv| && yv[rp[k]..rp[k + 1]] == yvals[k]
  }

  lemma {:induction false} YValAt(rp: seq<int>, yv: seq<real>, yvals: seq<seq<real>>, k: nat)
    requires YVals(rp, yv, yvals) && k < |yvals|
    ensures 0 <= rp[k] <= rp[k + 1] <= |yv| && yv[rp[k]..rp[k + 1]] == yvals[k]
  {
    assert yvals[k] == yvals[k];
  }

  /** Well-formed CSR values present their rows this way. */
  lemma {:induction false} CsrYVals(rp: seq<int>, yv: seq<real>, m: nat)
    requires WellFormed(rp, |yv|, m)
    ensures YVals(rp, yv, Rows(rp, yv, m))
  {
  }

  /** The rows of Y read from its CSR arrays fit a workspace of size n. */
  lemma {:induction false} YFitsFromCsr(rp: seq<int>, y: seq<int>, yv: seq<real>, yrows: seq<seq<int>>, yvals: seq<seq<real>>, n: int)
    requires YRows(rp, y, yrows, n) && YVals(rp, yv, yvals)
    ensures YFits(yrows, yvals, n)
  {
    forall k {:trigger yrows[k]} | 0 <= k < |yrows|
      ensures |yrows[k]| == |yvals[k]| && FitsIn(yrows[k], n)
    {
      YRowAt(rp, y, yrows, n, k);
    }
  }

  /** Scatters row i of X times Y into W: the loop over the stored entries of row i of X
      in `times_mat_numeric`. */
  method DenseRowInto(w: array<real>, jx: array<int>, vx: array<real>, loX: nat, hiX: nat,
                      rpY: array<int>, jy: array<int>, vy: array<real>,
                      ghost x: seq<int>, ghost xv: seq<real>, ghost rp: seq<int>, ghost y: seq<int>, ghost yv: seq<real>,
                      ghost yrows: seq<seq<int>>, ghost yvals: seq<seq<real>>)
    requires w != vx && w != vy && x == jx[..] && xv == vx[..] && rp == rpY[..] && y == jy[..] && yv == vy[..]
    requires loX <= hiX <= jx.Length == vx.Length && jy.Length == vy.Length
    requires YRows(rp, y, yrows, w.Length) && YVals(rp, yv, yvals) && IndexesRows(x[loX..hiX], yrows)
    modifies w
    ensures YFits(yrows, yvals, w.Length)
    ensures w[..] == DenseRow(old(w[..]), x[loX..hiX], xv[loX..hiX], yrows, yvals)
  {
    ghost var w0 := w[..];
    YFitsFromCsr(rp, y, yv, yrows, yvals, w.Length);
    for px := loX to hiX
      invariant IndexesRows(x[loX..px], yrows)
      invariant w[..] == DenseRow(w0, x[loX..px], xv[loX..px], yrows, yvals)
    {
      IndexesSlice(x, loX, px + 1, hiX, yrows);
      DenseRowStep(w0, x, xv, loX, px, yrows, yvals);
      var k := jx[px];
      YRowAt(rp, y, yrows, w.Length, k);
      YValAt(rp, yv, yvals, k);
      ScatterRow(w, jy, vy, rpY[k], rpY[k + 1], vx[px], y, yv);
    }
  }

  /** valuesM[p] += alpha*W[jcolindM[p]] and W[jcolindM[p]] := 0 for the slots of row i of M:
      the gather loop of `times_mat_numeric`. The columns of the row are distinct. */
  method Gather(vm: array<real>, lo: nat, hi: nat, jm: array<int>, w: array<real>, alpha: real, ghost cols: seq<int>)
    requires vm != w && cols == jm[..] && lo <= hi <= jm.Length && hi <= vm.Length
    requires Distinct(cols[lo..hi]) && SlotsIn(cols, lo, hi, w.Length)
    modifies vm, w
    ensures FitsIn(cols[lo..hi], w.Length)
    ensures vm[..] == AddedAt(old(vm[..]), lo, GatherRow(old(w[..]), cols[lo..hi], alpha))
    ensures w[..] == Cleared(old(w[..]), cols[lo..hi])
  {
    ghost var v0, w0 := vm[..], w[..];
    assert FitsIn(cols[lo..hi], w.Length) by {
      forall t | 0 <= t < hi - lo
        ensures 0 <= cols[lo..hi][t] < w.Length
      {
        assert cols[lo..hi][t] == cols[lo + t];
      }
    }
    ghost var g := GatherRow(w0, cols[lo..hi], alpha);
    assert g[..0] == [];
    AddedAtNone(v0, lo);
    for p := lo to hi
      invariant cols == jm[..]
      invariant vm[..] == AddedAt(v0, lo, g[..p - lo])
      invariant w[..] == Cleared(w0, cols[lo..p])
    {
      GatherStep(vm, w, jm, lo, p, hi, alpha, cols, v0, w0, g);
    }
    assert g[..hi - lo] == g;
  }

  /** One pass of the gather loop, slot p: the run of gathered values grows by one entry and
      one more column of the workspace is reset. */
  method GatherStep(vm: array<real>, w: array<real>, jm: array<int>, lo: nat, p: nat, hi: nat, alpha: real,
                    ghost cols: seq<int>, ghost v0: seq<real>, ghost w0: seq<real>, ghost g: seq<real>)
    requires vm != w && cols == jm[..] && lo <= p < hi <= jm.Length && hi <= vm.Length == |v0|
    requires Distinct(cols[lo..hi]) && 0 <= cols[p] < w.Length == |w0| && FitsIn(cols[lo..hi], |w0|)
    requires g == GatherRow(w0, cols[lo..hi], alpha)
    requires vm[..] == AddedAt(v0, lo, g[..p - lo]) && w[..] == Cleared(w0, cols[lo..p])
    modifies vm, w
    ensures vm[..] == AddedAt(v0, lo, g[..p + 1 - lo]) && w[..] == Cleared(w0, cols[lo..p + 1])
  {
    var j := jm[p];
    ClearedStep(w0, cols, lo, p, hi);
    assert g[p - lo] == alpha * w0[j] && g[..p + 1 - lo] == g[..p - lo] + [g[p - lo]];
    AddedAtExtend(v0, lo, g[..p - lo], g[p - lo], p, g[..p + 1 - lo]);
    GatherSlot(vm, p, w, j, alpha, g[p - lo]);
  }

  /** The body of the gather loop: one slot gains alpha*W[j], and W[j] is reset. */
  method GatherSlot(vm: array<real>, p: nat, w: array<real>, j: int, alpha: real, ghost gain: real)
    requires vm != w && p < vm.Length && 0 <= j < w.Length && gain == alpha * w[j]
    modifies vm, w
    ensures vm[..] == old(vm[..])[p := old(vm[..])[p] + gain]
    ensures w[..] == old(w[..])[j := 0.0]
  {
    vm[p] := vm[p] + alpha * w[j];
    w[j] := 0.0;
  }

  /** Resetting one more column of a duplicate-free row: the column was not reset before. */
  lemma {:induction false} ClearedStep(w: seq<real>, cols: seq<int>, lo: nat, p: nat, hi: nat)
    requires lo <= p < hi <= |cols| && Distinct(cols[lo..hi]) && 0 <= cols[p] < |w|
    ensures Cleared(w, cols[lo..p])[cols[p]] == w[cols[p]]
    ensures Cleared(w, cols[lo..p + 1]) == Cleared(w, cols[lo..p])[cols[p] := 0.0]
  {
    var run := cols[lo..hi];
    forall q | lo <= q < p
      ensures cols[q] != cols[p]
    {
      assert run[q - lo] == cols[q] && run[p - lo] == cols[p];
    }
    assert cols[lo..p + 1] == cols[lo..p] + [cols[p]];
  }

  /** W[j] := 0 for every column j: the workspace reset of `times_mat_symbolic` and
      `times_mat_numeric`. */
  method ClearWorkspace(w: array<real>)
    modifies w
    ensures w[..] == Zeros(w.Length)
  {
    for j := 0 to w.Length
      invariant forall j' :: 0 <= j' < j ==> w[j'] == 0.0
    {
      w[j] := 0.0;
    }
  }

  /** Row i of `times_mat_numeric`: the rows of Y selected by row i of X are scattered into
      the zero workspace W, then gathered, times alpha, into the slots [lo, hi) of M, whose
      columns are the product pattern of the row. The slots gain row i of alpha*X*Y and W is
      zero again. */
  method ProductValueRowInto(vm: array<real>, w: array<real>, lo: nat, hi: nat, jm: array<int>,
                             jx: array<int>, vx: array<real>, loX: nat, hiX: nat,
                             rpY: array<int>, jy: array<int>, vy: array<real>, alpha: real,
                             ghost cols: seq<int>, ghost x: seq<int>, ghost xv: seq<real>,
                             ghost rp: seq<int>, ghost y: seq<int>, ghost yv: seq<real>,
                             ghost yrows: seq<seq<int>>, ghost yvals: seq<seq<real>>)
    requires vm != w && vm != vx && vm != vy && w != vx && w != vy
    requires cols == jm[..] && x == jx[..] && xv == vx[..] && rp == rpY[..] && y == jy[..] && yv == vy[..]
    requires loX <= hiX <= jx.Length == vx.Length && jy.Length == vy.Length
    requires YRows(rp, y, yrows, w.Length) && YVals(rp, yv, yvals) && IndexesRows(x[loX..hiX], yrows)
    requires lo <= hi <= jm.Length && hi <= vm.Length && cols[lo..hi] == ProductRow(x[loX..hiX], yrows)
    requires w[..] == Zeros(w.Length)
    modifies vm, w
    ensures YFits(yrows, yvals, w.Length)
    ensures vm[..] == AddedAt(old(vm[..]), lo, ProductValueRow(x[loX..hiX], xv[loX..hiX], yrows, yvals, alpha))
    ensures w[..] == Zeros(w.Length)
  {
    DenseRowInto(w, jx, vx, loX, hiX, rpY, jy, vy, x, xv, rp, y, yv, yrows, yvals);
    GatherProductRow(w.Length, x[loX..hiX], xv[loX..hiX], yrows, yvals, alpha);
    assert SlotsIn(cols, lo, hi, w.Length) by {
      forall p | lo <= p < hi
        ensures 0 <= cols[p] < w.Length
      {
        assert cols[p] == cols[lo..hi][p - lo];
      }
    }
    Gather(vm, lo, hi, jm, w, alpha, cols);
  }
}
