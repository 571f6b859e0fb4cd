/**
  Array loops shared by the CSR kernels of src/LinAlg/hiopMatrixSparseCSR.cpp.
  Each method works in place on the arrays it is given and is proved against the
  specification functions of CsrPattern, CsrCount, CsrMerge and CsrProduct.
 */
module CsrKernels {
  import opened CsrPattern
  import opened CsrCount
  import opened CsrMerge
  import opened CsrProduct

  /** a := gamma*a, with the source's three branches: 0 zeroes the array, 1 leaves it
      alone, any other factor scales every entry (`DSCAL`). */
  method ScaleValues(a: array<real>, gamma: real)
    modifies a
    ensures a[..] == Scaled(gamma, old(a[..]))
  {
    ghost var a0 := a[..];
    if gamma == 0.0 {
      for k := 0 to a.Length
        invariant forall q :: 0 <= q < k ==> a[q] == 0.0
      {
        a[k] := 0.0;
      }
    } else if gamma != 1.0 {
      for k := 0 to a.Length
        invariant forall q :: 0 <= q < k ==> a[q] == gamma * old(a[q])
        invariant forall q :: k <= q < a.Length ==> a[q] == old(a[q])
      {
        a[k] := gamma * a[k];
      }
    }
    forall k | 0 <= k < a.Length
      ensures a[k] == Scaled(gamma, a0)[k]
    {
      assert a[k] == gamma * a0[k];
    }
    assert a[..] == Scaled(gamma, a0);
  }

  /** Counting-sort distribution: entry t is written at slot rs[key[t]], which then advances.
      Starting from the row starts, every row c of the result receives the entries of key c
      in their original order, and rs ends at the row ends. */
  method Scatter<T>(dst: array<T>, rs: array<int>, data: seq<T>, key: seq<int>)
    requires (dst as object) != (rs as object)
    requires |data| == |key| == dst.Length && AllIn(key, rs.Length)
    requires forall r :: 0 <= r < rs.Length ==> rs[r] == CountBelow(key, r)
    modifies dst, rs
    ensures forall r :: 0 <= r < rs.Length ==> rs[r] == CountBelow(key, r + 1)
    ensures dst[..] == Flatten(TransposeRows(data, key, rs.Length))
  {
    var m := rs.Length;
    ScatterStart(dst[..], rs[..], data, key, m);
    for t := 0 to |key|
      invariant Advanced(rs[..], key, t)
      invariant Placed(dst[..], data, key, t, m)
    {
      ScatterOne(dst, rs, data, key, t);
    }
    ScatterEnd(rs[..], key);
    PlacedAll(dst[..], data, key, m);
  }

  lemma {:induction false} ScatterStart<T>(d: seq<T>, s: seq<int>, data: seq<T>, key: seq<int>, m: nat)
    requires |data| == |key| == |d| && |s| == m
    requires forall r :: 0 <= r < m ==> s[r] == CountBelow(key, r)
    ensures Advanced(s, key, 0) && Placed(d, data, key, 0, m)
  {
    assert key[..0] == [] && data[..0] == [];
  }

  lemma {:induction false} ScatterEnd(s: seq<int>, key: seq<int>)
    requires Advanced(s, key, |key|)
    ensures forall r :: 0 <= r < |s| ==> s[r] == CountBelow(key, r + 1)
  {
    assert key[..|key|] == key;
    forall r | 0 <= r < |s|
      ensures s[r] == CountBelow(key, r + 1)
    {
      CountBelowStep(key, r);
    }
  }

  /** After t scatter steps, the cursor of every key r has advanced past the keys r among the
      first t triplets. */
  ghost predicate Advanced(s: seq<int>, key: seq<int>, t: nat)
    requires t <= |key|
  {
    forall r :: 0 <= r < |s| ==> s[r] == CountBelow(key, r) + Count(key[..t], r)
  }

  /** After t scatter steps, the block of every key r starts with the selected entries of
      the first t triplets. */
  ghost predicate Placed<T>(d: seq<T>, data: seq<T>, key: seq<int>, t: nat, m: nat)
    requires |data| == |key| && t <= |key|
  {
    forall r :: 0 <= r < m ==>
      && CountBelow(key, r) + Count(key[..t], r) <= |d|
      && d[CountBelow(key, r)..CountBelow(key, r) + Count(key[..t], r)] == Select(data[..t], key[..t], r)
  }

  /** One step of the scatter loop. */
  method ScatterOne<T>(dst: array<T>, rs: array<int>, data: seq<T>, key: seq<int>, t: nat)
    requires (dst as object) != (rs as object)
    requires |data| == |key| == dst.Length && t < |key| && AllIn(key, rs.Length)
    requires Advanced(rs[..], key, t) && Placed(dst[..], data, key, t, rs.Length)
    modifies dst, rs
    ensures Advanced(rs[..], key, t + 1) && Placed(dst[..], data, key, t + 1, rs.Length)
  {
    var c := key[t];
    ghost var s, d := rs[..], dst[..];
    assert s[c] == CountBelow(key, c) + Count(key[..t], c);
    ScatterSlot(key, t, c, c);
    var nz := rs[c];
    dst[nz] := data[t];
    rs[c] := nz + 1;
    AdvancedStep(s, rs[..], key, t);
    PlacedStep(d, dst[..], data, key, t, rs.Length);
  }

  lemma {:induction false} AdvancedStep(s: seq<int>, s': seq<int>, key: seq<int>, t: nat)
    requires t < |key| && AllIn(key, |s|) && Advanced(s, key, t)
    requires s' == s[key[t] := s[key[t]] + 1]
    ensures Advanced(s', key, t + 1)
  {
    forall r | 0 <= r < |s|
      ensures s'[r] == CountBelow(key, r) + Count(key[..t + 1], r)
    {
      CountStepAt(key, t, r);
    }
  }

  lemma {:induction false} PlacedStep<T>(d: seq<T>, d': seq<T>, data: seq<T>, key: seq<int>, t: nat, m: nat)
    requires |data| == |key| == |d| && t < |key| && AllIn(key, m) && Placed(d, data, key, t, m)
    requires CountBelow(key, key[t]) + Count(key[..t], key[t]) < |d|
    requires d' == d[CountBelow(key, key[t]) + Count(key[..t], key[t]) := data[t]]
    ensures Placed(d', data, key, t + 1, m)
  {
    var c := key[t];
    var nz := CountBelow(key, c) + Count(key[..t], c);
    forall r | 0 <= r < m
      ensures CountBelow(key, r) + Count(key[..t + 1], r) <= |d'|
      ensures d'[CountBelow(key, r)..CountBelow(key, r) + Count(key[..t + 1], r)] == Select(data[..t + 1], key[..t + 1], r)
    {
      var lo, hi := CountBelow(key, r), CountBelow(key, r) + Count(key[..t], r);
      PlacedStepRow(d, data, key, t, c, nz, r, lo, hi, d');
    }
  }

  /** Row r of the placement after one more step, from row r before it. */
  lemma {:induction false} PlacedStepRow<T>(d: seq<T>, data: seq<T>, key: seq<int>, t: nat, c: int,
                                            nz: int, r: int, lo: int, hi: int, d': seq<T>)
    requires |data| == |key| == |d| && t < |key| && c == key[t] && 0 <= c && 0 <= r
    requires nz == CountBelow(key, c) + Count(key[..t], c) && nz < |d| && d' == d[nz := data[t]]
    requires lo == CountBelow(key, r) && hi == lo + Count(key[..t], r) <= |d|
    requires d[lo..hi] == Select(data[..t], key[..t], r)
    ensures hi + (if r == c then 1 else 0) == CountBelow(key, r) + Count(key[..t + 1], r) <= |d'|
    ensures d'[lo..hi + (if r == c then 1 else 0)] == Select(data[..t + 1], key[..t + 1], r)
  {
    ScatterSlot(key, t, c, r);
    CountStepAt(key, t, r);
    SelectStepAt(data, key, t, r);
    if r == c {
      assert d'[lo..hi + 1] == d[lo..hi] + [data[t]];
    } else {
      assert d'[lo..hi] == d[lo..hi];
    }
  }

  lemma {:induction false} PlacedAll<T>(d: seq<T>, data: seq<T>, key: seq<int>, m: nat)
    requires |data| == |key| == |d| && AllIn(key, m) && Placed(d, data, key, |key|, m)
    ensures d == Flatten(TransposeRows(data, key, m))
  {
    var co := CountOffsets(key, m);
    CountOffsetsWellFormed(key, m);
    var rows := Rows(co, d, m);
    forall r | 0 <= r < m
      ensures rows[r] == Select(data, key, r)
    {
      PlacedRow(d, data, key, m, r);
    }
    assert rows == TransposeRows(data, key, m);
    EncodeDecode(co, d, m);
    assert d[..co[m]] == d;
  }

  lemma {:induction false} PlacedRow<T>(d: seq<T>, data: seq<T>, key: seq<int>, m: nat, r: nat)
    requires |data| == |key| == |d| && Placed(d, data, key, |key|, m) && r < m
    ensures CountBelow(key, r) <= CountBelow(key, r + 1) <= |d|
    ensures d[CountBelow(key, r)..CountBelow(key, r + 1)] == Select(data, key, r)
  {
    assert key[..|key|] == key && data[..|data|] == data;
    CountBelowStep(key, r);
  }

  /** The counts of the first t + 1 keys grow only for key[t]. */
  lemma {:induction false} CountStepAt(key: seq<int>, t: nat, r: int)
    requires t < |key|
    ensures Count(key[..t + 1], r) == Count(key[..t], r) + (if r == key[t] then 1 else 0)
  {
    assert key[..t + 1][..t] == key[..t];
  }

  /** The selections of the first t + 1 triplets grow only for key[t]. */
  lemma {:induction false} SelectStepAt<T>(data: seq<T>, key: seq<int>, t: nat, r: int)
    requires |data| == |key| && t < |key|
    ensures Select(data[..t + 1], key[..t + 1], r)
         == Select(data[..t], key[..t], r) + (if r == key[t] then [data[t]] else [])
  {
    assert key[..t + 1][..t] == key[..t] && data[..t + 1][..t] == data[..t];
  }

  /** The slot written for entry t lies inside the block of key c = key[t], and the cursor of
      every other key r lies in a block before or after it. */
  lemma {:induction false} ScatterSlot(key: seq<int>, t: nat, c: int, r: int)
    requires t < |key| && c == key[t]
    ensures CountBelow(key, c) + Count(key[..t], c) < CountBelow(key, c + 1) <= |key|
    ensures r < c ==> CountBelow(key, r) + Count(key[..t], r) <= CountBelow(key, c)
    ensures r > c ==> CountBelow(key, c + 1) <= CountBelow(key, r)
  {
    CountStepAt(key, t, c);
    CountPrefix(key, t + 1, c);
    CountBelowStep(key, c);
    if r < c {
      CountPrefix(key, t, r);
      CountBelowStep(key, r);
      CountBelowMono(key, r + 1, c);
    } else if r > c {
      CountBelowMono(key, c + 1, r);
    }
  }

  /** Undo of the scatter's advance: shifts the row ends down by one row and puts 0 in front,
      which gives back the row starts. */
  method Rollback(rs: array<int>, ghost bounds: seq<int>)
    requires rs.Length > 0 && |bounds| == rs.Length + 1 && bounds[0] == 0
    requires forall r :: 0 <= r < rs.Length ==> rs[r] == bounds[r + 1]
    modifies rs
    ensures forall r :: 0 <= r < rs.Length ==> rs[r] == bounds[r]
  {
    var i := rs.Length - 1;
    while i >= 1
      invariant 0 <= i < rs.Length
      invariant forall r :: 0 <= r <= i ==> rs[r] == bounds[r + 1]
      invariant forall r :: i < r < rs.Length ==> rs[r] == bounds[r]
    {
      rs[i] := rs[i - 1];
      i := i - 1;
    }
    rs[0] := 0;
  }

  // ----- sorted merge of one row of X and one row of Y (add_matrix_*) -----

  /** One step of the merge walk, seen on array slices: the next entry is the smaller of the
      two column indexes, and the cursors advance past it (both, when they are equal). */
  lemma {:induction false} MergeSlices(x: seq<int>, ptX: nat, hiX: nat, y: seq<int>, ptY: nat, hiY: nat,
                                       ptX': nat, ptY': nat)
    requires ptX < hiX <= |x| && ptY < hiY <= |y|
    requires ptX' == (if x[ptX] <= y[ptY] then ptX + 1 else ptX)
    requires ptY' == (if x[ptX] >= y[ptY] then ptY + 1 else ptY)
    ensures Merge(x[ptX..hiX], y[ptY..hiY])
         == [if x[ptX] <= y[ptY] then x[ptX] else y[ptY]] + Merge(x[ptX'..hiX], y[ptY'..hiY])
  {
    assert x[ptX..hiX][1..] == x[ptX + 1..hiX];
    assert y[ptY..hiY][1..] == y[ptY + 1..hiY];
  }

  /** The merge step as seen by a walk that has already emitted the first e entries of `full`. */
  lemma {:induction false} MergeStep(x: seq<int>, ptX: nat, hiX: nat, y: seq<int>, ptY: nat, hiY: nat,
                                     full: seq<int>, e: nat, ptX': nat, ptY': nat)
    requires ptX < hiX <= |x| && ptY < hiY <= |y|
    requires ptX' == (if x[ptX] <= y[ptY] then ptX + 1 else ptX)
    requires ptY' == (if x[ptX] >= y[ptY] then ptY + 1 else ptY)
    requires e <= |full| && full[e..] == Merge(x[ptX..hiX], y[ptY..hiY])
    ensures e < |full| && full[e] == if x[ptX] <= y[ptY] then x[ptX] else y[ptY]
    ensures full[e + 1..] == Merge(x[ptX'..hiX], y[ptY'..hiY])
  {
    MergeSlices(x, ptX, hiX, y, ptY, hiY, ptX', ptY');
    assert full[e + 1..] == full[e..][1..];
  }

  /** Once one row is used up, the rest of the merge is the other row. */
  lemma {:induction false} MergeUsedUp(a: seq<int>, b: seq<int>)
    requires a == [] || b == []
    ensures Merge(a, b) == a + b
  {
  }

  /** Number of entries of row i of X + Y: the merge walk of `add_matrix_alloc` on one row. */
  method MergeRowCount(jx: array<int>, loX: nat, hiX: nat, jy: array<int>, loY: nat, hiY: nat) returns (cnt: nat)
    requires loX <= hiX <= jx.Length && loY <= hiY <= jy.Length
    ensures cnt == |Merge(jx[loX..hiX], jy[loY..hiY])|
  {
    ghost var x, y := jx[..], jy[..];
    assert jx[loX..hiX] == x[loX..hiX] && jy[loY..hiY] == y[loY..hiY];
    ghost var total := |Merge(x[loX..hiX], y[loY..hiY])|;
    var ptX, ptY := loX, loY;
    cnt := 0;
    while ptX < hiX && ptY < hiY
      invariant loX <= ptX <= hiX && loY <= ptY <= hiY
      invariant cnt + |Merge(x[ptX..hiX], y[ptY..hiY])| == total
      decreases (hiX - ptX) + (hiY - ptY)
    {
      ghost var pX, pY := ptX, ptY;
      cnt := cnt + 1;
      if jx[ptX] < jy[ptY] {
        ptX := ptX + 1;
      } else if jx[ptX] == jy[ptY] {
        ptX := ptX + 1;
        ptY := ptY + 1;
      } else {
        ptY := ptY + 1;
      }
      MergeSlices(x, pX, hiX, y, pY, hiY, ptX, ptY);
    }
    MergeUsedUp(x[ptX..hiX], y[ptY..hiY]);
    assert cnt + (hiX - ptX) + (hiY - ptY) == total;
    while ptX < hiX
      invariant ptX <= hiX && cnt + (hiX - ptX) + (hiY - ptY) == total
    {
      cnt := cnt + 1;
      ptX := ptX + 1;
    }
    while ptY < hiY
      invariant ptY <= hiY && cnt + (hiY - ptY) == total
    {
      cnt := cnt + 1;
      ptY := ptY + 1;
    }
  }

  /** Writes row i of the pattern of X + Y at jm[start..]: the walk of `add_matrix_symbolic`.
      `x` and `y` are the column arrays of X and Y. */
  method MergeRowInto(jm: array<int>, start: nat, jx: array<int>, loX: nat, hiX: nat, jy: array<int>, loY: nat, hiY: nat,
                      ghost x: seq<int>, ghost y: seq<int>)
      returns (end: nat)
    requires jm != jx && jm != jy && x == jx[..] && y == jy[..]
    requires loX <= hiX <= jx.Length && loY <= hiY <= jy.Length
    requires start + |Merge(x[loX..hiX], y[loY..hiY])| <= jm.Length
    modifies jm
    ensures end == start + |Merge(x[loX..hiX], y[loY..hiY])|
    ensures jm[..] == Overwrite(old(jm[..]), start, Merge(x[loX..hiX], y[loY..hiY]))
  {
    ghost var full := Merge(x[loX..hiX], y[loY..hiY]);
    ghost var v0 := jm[..];
    var ptX, ptY;
    end, ptX, ptY := MergeRowHead(jm, start, jx, loX, hiX, jy, loY, hiY, x, y);
    ghost var e0 := end - start;
    ghost var a, b := x[ptX..hiX], y[ptY..hiY];
    assert |a| == hiX - ptX && |b| == hiY - ptY && |full| == e0 + |a| + |b|;
    ghost var v1, e := jm[..], end;
    end := CopyRun(jm, end, jx, ptX, hiX, x);
    ghost var v2, e1 := jm[..], end;
    end := CopyRun(jm, end, jy, ptY, hiY, y);
    OverwriteRuns(v0, v1, v2, jm[..], start, full, e, e1, a, b);
  }

  /** d with the run r written from slot `at` on. */
  function Overwrite<T>(d: seq<T>, at: nat, r: seq<T>): (e: seq<T>)
    requires at + |r| <= |d|
    ensures |e| == |d|
  {
    d[..at] + r + d[at + |r|..]
  }

  lemma {:induction false} OverwriteRun<T>(d: seq<T>, at: nat, r: seq<T>)
    requires at + |r| <= |d|
    ensures Overwrite(d, at, r)[at..at + |r|] == r
    ensures Overwrite(d, at, r)[..at + |r|] == d[..at] + r
    ensures Overwrite(d, at, r)[at + |r|..] == d[at + |r|..]
    ensures forall p :: 0 <= p < |d| && !(at <= p < at + |r|) ==> Overwrite(d, at, r)[p] == d[p]
  {
    var e := Overwrite(d, at, r);
    forall p | 0 <= p < |d| && !(at <= p < at + |r|)
      ensures e[p] == d[p]
    {
      if p >= at + |r| {
        assert e[p] == d[at + |r|..][p - at - |r|];
      }
    }
  }

  /** Writing one more entry right after a run extends the run. */
  lemma {:induction false} OverwriteExtend<T>(d: seq<T>, at: nat, r: seq<T>, v: T, k: nat, r': seq<T>)
    requires k == at + |r| < |d| && r' == r + [v]
    ensures Overwrite(d, at, r)[k := v] == Overwrite(d, at, r')
  {
    var e, e' := Overwrite(d, at, r)[k := v], Overwrite(d, at, r');
    forall p | 0 <= p < |d|
      ensures e[p] == e'[p]
    {
      if p > at + |r| {
        assert e[p] == d[at + |r|..][p - at - |r|];
        assert e'[p] == d[at + |r| + 1..][p - at - |r| - 1];
      }
    }
  }

  /** The head walk's run full[..e0 - start] (giving d1), then the tail copies a (giving d2) and
      b (giving d3), make up the run full. */
  lemma {:induction false} OverwriteRuns<T>(d: seq<T>, d1: seq<T>, d2: seq<T>, d3: seq<T>, start: nat,
                                            full: seq<T>, e0: nat, e1: nat, a: seq<T>, b: seq<T>)
    requires start <= e0 <= start + |full| <= |d| && full[e0 - start..] == a + b && e1 == e0 + |a|
    requires d1 == Overwrite(d, start, full[..e0 - start]) && d2 == Overwrite(d1, e0, a) && d3 == Overwrite(d2, e1, b)
    ensures d3 == Overwrite(d, start, full)
  {
    assert full == full[..e0 - start] + a + b by {
      assert full == full[..e0 - start] + full[e0 - start..];
    }
    assert d3 == d[..start] + full[..e0 - start] + a + b + d[start + |full|..];
  }

  /** A tail loop of the merge walk: copies src[lo..hi] to dst[at..]. */
  method CopyRun(dst: array<int>, at: nat, src: array<int>, lo: nat, hi: nat, ghost s: seq<int>) returns (end: nat)
    requires dst != src && s == src[..] && lo <= hi <= src.Length && at + (hi - lo) <= dst.Length
    modifies dst
    ensures end == at + (hi - lo)
    ensures dst[..] == Overwrite(old(dst[..]), at, s[lo..hi])
  {
    ghost var d0 := dst[..];
    end := at;
    for pt := lo to hi
      invariant end == at + (pt - lo)
      invariant dst[..] == Overwrite(d0, at, s[lo..pt])
    {
      assert s[lo..pt + 1] == s[lo..pt] + [s[pt]];
      OverwriteExtend(d0, at, s[lo..pt], s[pt], end, s[lo..pt + 1]);
      dst[end] := src[pt];
      end := end + 1;
    }
  }

  /** The `while` part of the merge walk, which runs until one of the two rows is used up:
      it has written the first entries of the merge, and the rest is what is left of the rows. */
  method MergeRowHead(jm: array<int>, start: nat, jx: array<int>, loX: nat, hiX: nat, jy: array<int>, loY: nat, hiY: nat,
                      ghost x: seq<int>, ghost y: seq<int>)
      returns (end: nat, ptX: nat, ptY: nat)
    requires jm != jx && jm != jy && x == jx[..] && y == jy[..]
    requires loX <= hiX <= jx.Length && loY <= hiY <= jy.Length
    requires start + |Merge(x[loX..hiX], y[loY..hiY])| <= jm.Length
    modifies jm
    ensures loX <= ptX <= hiX && loY <= ptY <= hiY && (ptX == hiX || ptY == hiY)
    ensures var full := Merge(x[loX..hiX], y[loY..hiY]);
      && start <= end <= start + |full|
      && full[end - start..] == x[ptX..hiX] + y[ptY..hiY]
      && jm[..] == Overwrite(old(jm[..]), start, full[..end - start])
  {
    ghost var full := Merge(x[loX..hiX], y[loY..hiY]);
    ghost var d0 := jm[..];
    ptX, ptY := loX, loY;
    end := start;
    while ptX < hiX && ptY < hiY
      invariant loX <= ptX <= hiX && loY <= ptY <= hiY && start <= end <= start + |full|
      invariant full[end - start..] == Merge(x[ptX..hiX], y[ptY..hiY])
      invariant jm[..] == Overwrite(d0, start, full[..end - start])
      decreases (hiX - ptX) + (hiY - ptY)
    {
      ptX, ptY := MergeStepInto(jm, start, end, jx, ptX, hiX, jy, ptY, hiY, x, y, full, d0);
      end := end + 1;
    }
    MergeUsedUp(x[ptX..hiX], y[ptY..hiY]);
  }

  /** One pass of the `while` loop of the merge walk: compares the two column indexes and
      writes the smaller one (both, when equal, give one entry) at slot `end`. */
  method MergeStepInto(jm: array<int>, start: nat, end: nat, jx: array<int>, ptX: nat, hiX: nat,
                       jy: array<int>, ptY: nat, hiY: nat, ghost x: seq<int>, ghost y: seq<int>,
                       ghost full: seq<int>, ghost d0: seq<int>)
      returns (ptX': nat, ptY': nat)
    requires jm != jx && jm != jy && x == jx[..] && y == jy[..]
    requires ptX < hiX <= jx.Length && ptY < hiY <= jy.Length
    requires start <= end <= start + |full| <= jm.Length == |d0|
    requires full[end - start..] == Merge(x[ptX..hiX], y[ptY..hiY])
    requires jm[..] == Overwrite(d0, start, full[..end - start])
    modifies jm
    ensures end < start + |full| && jm[..] == Overwrite(d0, start, full[..end + 1 - start])
    ensures ptX <= ptX' <= hiX && ptY <= ptY' <= hiY && ptX + ptY < ptX' + ptY'
    ensures full[end + 1 - start..] == Merge(x[ptX'..hiX], y[ptY'..hiY])
  {
    assert full[..end + 1 - start] == full[..end - start] + [full[end - start]];
    OverwriteExtend(d0, start, full[..end - start], full[end - start], end, full[..end + 1 - start]);
    if jx[ptX] < jy[ptY] {
      jm[end] := jx[ptX];
      ptX', ptY' := ptX + 1, ptY;
    } else if jx[ptX] == jy[ptY] {
      jm[end] := jx[ptX];
      ptX', ptY' := ptX + 1, ptY + 1;
    } else {
      jm[end] := jy[ptY];
      ptX', ptY' := ptX, ptY + 1;
    }
    MergeStep(x, ptX, hiX, y, ptY, hiY, full, end - start, ptX', ptY');
    assert full[end + 1 - start..] == full[end - start + 1..];
  }

  // ----- values of one row of gamma*M + alpha*X + beta*Y (add_matrix_numeric) -----

  /** One step of the value walk emits the next entry of the merged (scaled) values; the cursors
      advance past the smaller column index (both, when they are equal). */
  lemma {:induction false} MergeValuesStep(x: seq<int>, sx: seq<real>, ptX: nat, hiX: nat,
                                          y: seq<int>, sy: seq<real>, ptY: nat, hiY: nat, fv: seq<real>, e: nat,
                                          ptX': nat, ptY': nat)
    requires ptX < hiX <= |x| == |sx| && ptY < hiY <= |y| == |sy|
    requires e <= |fv| && fv[e..] == MergeValues(x[ptX..hiX], sx[ptX..hiX], y[ptY..hiY], sy[ptY..hiY])
    requires ptX' == (if x[ptX] <= y[ptY] then ptX + 1 else ptX)
    requires ptY' == (if x[ptX] >= y[ptY] then ptY + 1 else ptY)
    ensures e < |fv|
    ensures fv[e] == if x[ptX] < y[ptY] then sx[ptX] else if x[ptX] == y[ptY] then sx[ptX] + sy[ptY] else sy[ptY]
    ensures fv[e + 1..] == MergeValues(x[ptX'..hiX], sx[ptX'..hiX], y[ptY'..hiY], sy[ptY'..hiY])
  {
    assert x[ptX..hiX][1..] == x[ptX + 1..hiX];
    assert sx[ptX..hiX][1..] == sx[ptX + 1..hiX];
    assert y[ptY..hiY][1..] == y[ptY + 1..hiY];
    assert sy[ptY..hiY][1..] == sy[ptY + 1..hiY];
    assert fv[e + 1..] == fv[e..][1..];
  }

  /** Once one row is used up, the rest of the merged values is what is left of the other. */
  lemma {:induction false} MergeValuesRest(x: seq<int>, sx: seq<real>, ptX: nat, hiX: nat,
                                          y: seq<int>, sy: seq<real>, ptY: nat, hiY: nat, fv: seq<real>, e: nat)
    requires ptX <= hiX <= |x| == |sx| && ptY <= hiY <= |y| == |sy| && (ptX == hiX || ptY == hiY)
    requires e <= |fv| && fv[e..] == MergeValues(x[ptX..hiX], sx[ptX..hiX], y[ptY..hiY], sy[ptY..hiY])
    ensures fv[e..] == sx[ptX..hiX] + sy[ptY..hiY]
  {
  }

  /** A tail loop of the value walk: dst[at..] += c * src[lo..hi], where `s` holds c*src. */
  method AddRun(dst: array<real>, at: nat, src: array<real>, lo: nat, hi: nat, c: real, ghost s: seq<real>)
      returns (end: nat)
    requires dst != src && s == Scaled(c, src[..]) && lo <= hi <= src.Length && at + (hi - lo) <= dst.Length
    modifies dst
    ensures end == at + (hi - lo)
    ensures dst[..] == AddedAt(old(dst[..]), at, s[lo..hi])
  {
    ghost var d0 := dst[..];
    end := at;
    for pt := lo to hi
      invariant end == at + (pt - lo)
      invariant dst[..] == AddedAt(d0, at, s[lo..pt])
    {
      assert s[lo..pt + 1] == s[lo..pt] + [s[pt]];
      AddedAtExtend(d0, at, s[lo..pt], s[pt], end, s[lo..pt + 1]);
      var inc := c * src[pt];
      assert inc == s[pt];
      assert dst[end] == dst[..][end] == d0[end];
      dst[end] := dst[end] + inc;
      end := end + 1;
    }
  }

  /** d with the run r added entry by entry from slot `at` on. */
  function AddedAt(d: seq<real>, at: nat, r: seq<real>): (e: seq<real>)
    requires at + |r| <= |d|
    ensures |e| == |d|
  {
    seq(|d|, p requires 0 <= p < |d| => if at <= p < at + |r| then d[p] + r[p - at] else d[p])
  }

  /** Adding nothing leaves d as it is. */
  lemma {:induction false} AddedAtNone(d: seq<real>, at: nat)
    requires at <= |d|
    ensures AddedAt(d, at, []) == d
  {
  }

  /** Adding a run that covers the whole of d is the entry-wise sum. */
  lemma {:induction false} AddedAtPlus(d: seq<real>, r: seq<real>)
    requires |r| == |d|
    ensures AddedAt(d, 0, r) == Plus(d, r)
  {
  }

  /** The run `before` from slot 0 on (giving d1), then the run `row` right after it (giving
      d2), add up to the run before + row. */
  lemma {:induction false} AddedAtAppend(d: seq<real>, d1: seq<real>, d2: seq<real>, before: seq<real>, row: seq<real>)
    requires |before| + |row| <= |d| && d1 == AddedAt(d, 0, before) && d2 == AddedAt(d1, |before|, row)
    ensures d2 == AddedAt(d, 0, before + row)
  {
    var e := AddedAt(d, 0, before + row);
    forall p | 0 <= p < |d|
      ensures d2[p] == e[p]
    {
      if p < |before| {
        assert (before + row)[p] == before[p];
      } else if p < |before| + |row| {
        assert (before + row)[p] == row[p - |before|];
      }
    }
  }

  /** Adding one more entry right after a run extends the run. */
  lemma {:induction false} AddedAtExtend(d: seq<real>, at: nat, r: seq<real>, v: real, k: nat, r': seq<real>)
    requires k == at + |r| < |d| && r' == r + [v]
    ensures AddedAt(d, at, r)[k] == d[k]
    ensures AddedAt(d, at, r)[k := d[k] + v] == AddedAt(d, at, r')
  {
    var e, e' := AddedAt(d, at, r)[k := d[k] + v], AddedAt(d, at, r');
    forall p | 0 <= p < |d|
      ensures e[p] == e'[p]
    {
      if at <= p < at + |r| {
        assert (r + [v])[p - at] == r[p - at];
      }
    }
  }

  /** The head walk's run fv[..e0], then the tail runs a and b, add up to the run fv. */
  lemma {:induction false} AddedAtRuns(d: seq<real>, d1: seq<real>, d2: seq<real>, d3: seq<real>, start: nat,
                                       fv: seq<real>, e0: nat, e1: nat, a: seq<real>, b: seq<real>)
    requires start <= e0 <= start + |fv| <= |d| && fv[e0 - start..] == a + b && e1 == e0 + |a|
    requires d1 == AddedAt(d, start, fv[..e0 - start]) && d2 == AddedAt(d1, e0, a) && d3 == AddedAt(d2, e1, b)
    ensures d3 == AddedAt(d, start, fv)
  {
    var e := AddedAt(d, start, fv);
    forall p | 0 <= p < |d|
      ensures d3[p] == e[p]
    {
      if e0 <= p < start + |fv| {
        assert fv[p - start] == fv[e0 - start..][p - e0] == (a + b)[p - e0];
      }
    }
  }

  /** The update of one pass of the `while` loop of the value walk: slot `end` gains the
      next entry `inc` of the merged values. */
  method AddAtSlot(vm: array<real>, start: nat, end: nat, inc: real, ghost fv: seq<real>, ghost d0: seq<real>)
    requires start <= end < start + |fv| <= vm.Length == |d0| && inc == fv[end - start]
    requires vm[..] == AddedAt(d0, start, fv[..end - start])
    modifies vm
    ensures vm[..] == AddedAt(d0, start, fv[..end + 1 - start])
  {
    assert fv[..end + 1 - start] == fv[..end - start] + [inc];
    AddedAtExtend(d0, start, fv[..end - start], inc, end, fv[..end + 1 - start]);
    assert vm[end] == vm[..][end] == d0[end];
    vm[end] := vm[end] + inc;
  }

  /** The comparison of one pass of the value walk: the scaled value(s) it adds, which is
      entry e of the merged values, and where the two row cursors go. */
  method NextValue(jx: array<int>, vx: array<real>, ptX: nat, hiX: nat,
                   jy: array<int>, vy: array<real>, ptY: nat, hiY: nat, alpha: real, beta: real,
                   ghost x: seq<int>, ghost sx: seq<real>, ghost y: seq<int>, ghost sy: seq<real>,
                   ghost wx: seq<real>, ghost wy: seq<real>, ghost fv: seq<real>, ghost e: nat)
      returns (ptX': nat, ptY': nat, inc: real)
    requires x == jx[..] && y == jy[..] && wx == vx[..] && wy == vy[..]
    requires sx == Scaled(alpha, wx) && sy == Scaled(beta, wy)
    requires ptX < hiX <= jx.Length == vx.Length && ptY < hiY <= jy.Length == vy.Length
    requires e <= |fv| && fv[e..] == MergeValues(x[ptX..hiX], sx[ptX..hiX], y[ptY..hiY], sy[ptY..hiY])
    ensures e < |fv| && inc == fv[e]
    ensures ptX <= ptX' <= hiX && ptY <= ptY' <= hiY && ptX + ptY < ptX' + ptY'
    ensures fv[e + 1..] == MergeValues(x[ptX'..hiX], sx[ptX'..hiX], y[ptY'..hiY], sy[ptY'..hiY])
  {
    if jx[ptX] < jy[ptY] {
      inc := alpha * vx[ptX];
      assert inc == sx[ptX];
      ptX', ptY' := ptX + 1, ptY;
    } else if jx[ptX] == jy[ptY] {
      inc := alpha * vx[ptX] + beta * vy[ptY];
      assert inc == sx[ptX] + sy[ptY];
      ptX', ptY' := ptX + 1, ptY + 1;
    } else {
      inc := beta * vy[ptY];
      assert inc == sy[ptY];
      ptX', ptY' := ptX, ptY + 1;
    }
    MergeValuesStep(x, sx, ptX, hiX, y, sy, ptY, hiY, fv, e, ptX', ptY');
  }

  /** The `while` part of the value walk of one row, until one of the two rows is used up.
      `sx` and `sy` are alpha times the values of X and beta times those of Y. */
  method MergeValuesRowHead(vm: array<real>, start: nat,
                            jx: array<int>, vx: array<real>, loX: nat, hiX: nat,
                            jy: array<int>, vy: array<real>, loY: nat, hiY: nat, alpha: real, beta: real,
                            ghost x: seq<int>, ghost sx: seq<real>, ghost y: seq<int>, ghost sy: seq<real>)
      returns (end: nat, ptX: nat, ptY: nat)
    requires vm != vx && vm != vy && x == jx[..] && y == jy[..]
    requires sx == Scaled(alpha, vx[..]) && sy == Scaled(beta, vy[..])
    requires loX <= hiX <= jx.Length == vx.Length && loY <= hiY <= jy.Length == vy.Length
    requires start + |Merge(x[loX..hiX], y[loY..hiY])| <= vm.Length
    modifies vm
    ensures loX <= ptX <= hiX && loY <= ptY <= hiY && (ptX == hiX || ptY == hiY)
    ensures var fv := MergeValues(x[loX..hiX], sx[loX..hiX], y[loY..hiY], sy[loY..hiY]);
      && start <= end <= start + |fv|
      && fv[end - start..] == MergeValues(x[ptX..hiX], sx[ptX..hiX], y[ptY..hiY], sy[ptY..hiY])
      && vm[..] == AddedAt(old(vm[..]), start, fv[..end - start])
  {
    ghost var fv := MergeValues(x[loX..hiX], sx[loX..hiX], y[loY..hiY], sy[loY..hiY]);
    ghost var d0, wx, wy := vm[..], vx[..], vy[..];
    ptX, ptY := loX, loY;
    end := start;
    while ptX < hiX && ptY < hiY
      invariant loX <= ptX <= hiX && loY <= ptY <= hiY && start <= end <= start + |fv|
      invariant fv[end - start..] == MergeValues(x[ptX..hiX], sx[ptX..hiX], y[ptY..hiY], sy[ptY..hiY])
      invariant vm[..] == AddedAt(d0, start, fv[..end - start])
      invariant x == jx[..] && y == jy[..] && wx == vx[..] && wy == vy[..]
      decreases (hiX - ptX) + (hiY - ptY)
    {
      var inc;
      ptX, ptY, inc := NextValue(jx, vx, ptX, hiX, jy, vy, ptY, hiY, alpha, beta, x, sx, y, sy, wx, wy, fv, end - start);
      AddAtSlot(vm, start, end, inc, fv, d0);
      end := end + 1;
    }
  }

  /** Adds row i of alpha*X + beta*Y to vm[start..], whose slots follow the merged pattern:
      the row loop body of `add_matrix_numeric`. */
  method MergeValuesRowInto(vm: array<real>, start: nat,
                            jx: array<int>, vx: array<real>, loX: nat, hiX: nat,
                            jy: array<int>, vy: array<real>, loY: nat, hiY: nat, alpha: real, beta: real,
                            ghost x: seq<int>, ghost sx: seq<real>, ghost y: seq<int>, ghost sy: seq<real>)
      returns (end: nat)
    requires vm != vx && vm != vy && x == jx[..] && y == jy[..]
    requires sx == Scaled(alpha, vx[..]) && sy == Scaled(beta, vy[..])
    requires loX <= hiX <= jx.Length == vx.Length && loY <= hiY <= jy.Length == vy.Length
    requires start + |Merge(x[loX..hiX], y[loY..hiY])| <= vm.Length
    modifies vm
    ensures var fv := MergeValues(x[loX..hiX], sx[loX..hiX], y[loY..hiY], sy[loY..hiY]);
      && end == start + |fv|
      && vm[..] == AddedAt(old(vm[..]), start, fv)
  {
    ghost var fv := MergeValues(x[loX..hiX], sx[loX..hiX], y[loY..hiY], sy[loY..hiY]);
    ghost var v0 := vm[..];
    var ptX, ptY;
    end, ptX, ptY := MergeValuesRowHead(vm, start, jx, vx, loX, hiX, jy, vy, loY, hiY, alpha, beta, x, sx, y, sy);
    ghost var e0 := end - start;
    MergeValuesRest(x, sx, ptX, hiX, y, sy, ptY, hiY, fv, e0);
    ghost var a, b := sx[ptX..hiX], sy[ptY..hiY];
    assert |a| == hiX - ptX && |b| == hiY - ptY && |fv| == e0 + |a| + |b|;
    ghost var v1, e := vm[..], end;
    end := AddRun(vm, end, vx, ptX, hiX, alpha, sx);
    ghost var v2, e1 := vm[..], end;
    end := AddRun(vm, end, vy, ptY, hiY, beta, sy);
    AddedAtRuns(v0, v1, v2, vm[..], start, fv, e, e1, a, b);
  }

}
