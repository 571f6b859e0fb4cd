/**
  Compressed-sparse-row (CSR) encoding of a matrix given row by row.

  A matrix pattern (or its values) is a sequence of rows; CSR stores it as the
  concatenation of the rows (`jcolind_` / `values_`) together with the row
  offsets (`irowptr_`), where row i occupies the slots [irowptr_[i], irowptr_[i+1]).
  `Flatten` and `RowPtr` are the encoding, `RowOf` the decoding, and the lemmas
  below show that the two are inverse to each other.
 */
module CsrPattern {

  /** Concatenation of all rows, in row order. */
  function Flatten<T>(rows: seq<seq<T>>): (r: seq<T>)
    decreases |rows|
  {
    if rows == [] then [] else Flatten(rows[..|rows| - 1]) + rows[|rows| - 1]
  }

  /** Row offsets: entry i is where row i starts in `Flatten(rows)`. */
  function RowPtr<T>(rows: seq<seq<T>>): (r: seq<int>)
    ensures |r| == |rows| + 1
    ensures r[0] == 0 && r[|rows|] == |Flatten(rows)|
    decreases |rows|
  {
    if rows == [] then [0] else RowPtr(rows[..|rows| - 1]) + [|Flatten(rows)|]
  }

  /** Row pointers of an m-row CSR matrix whose stored slots number `len`:
      they start at 0, never decrease, and end inside the slot arrays. */
  ghost predicate WellFormed(rp: seq<int>, len: int, m: nat)
  {
    && |rp| == m + 1
    && rp[0] == 0
    && rp[m] <= len
    && forall i, j :: 0 <= i <= j <= m ==> rp[i] <= rp[j]
  }

  /** Every stored column index below `len` lies in [0, n). */
  ghost predicate ColsInRange(jc: seq<int>, len: int, n: int)
    requires len <= |jc|
  {
    forall k :: 0 <= k < len ==> 0 <= jc[k] < n
  }

  /** Row i of a CSR array (column indexes or values). */
  function RowOf<T>(rp: seq<int>, data: seq<T>, i: nat): (r: seq<T>)
    requires i + 1 < |rp| && 0 <= rp[i] <= rp[i + 1] <= |data|
    ensures |r| == rp[i + 1] - rp[i]
  {
    data[rp[i]..rp[i + 1]]
  }

  /** The rows of an m-row CSR array. */
  function Rows<T>(rp: seq<int>, data: seq<T>, m: nat): (r: seq<seq<T>>)
    requires WellFormed(rp, |data|, m)
    ensures |r| == m
    ensures forall i :: 0 <= i < m ==> r[i] == data[rp[i]..rp[i + 1]]
  {
    seq(m, i requires 0 <= i < m => RowOf(rp, data, i))
  }

  /** Strictly increasing: sorted and free of duplicates. */
  ghost predicate StrictlySorted(s: seq<int>)
  {
    forall a, b :: 0 <= a < b < |s| ==> s[a] < s[b]
  }

  /** No element occurs twice. */
  ghost predicate Distinct<T>(s: seq<T>)
  {
    forall a, b :: 0 <= a < b < |s| ==> s[a] != s[b]
  }

  lemma {:induction false} FlattenAppend<T>(a: seq<seq<T>>, b: seq<seq<T>>)
    ensures Flatten(a + b) == Flatten(a) + Flatten(b)
    decreases |b|
  {
    if b == [] {
      assert a + b == a;
    } else {
      var b' := b[..|b| - 1];
      assert (a + b)[..|a + b| - 1] == a + b';
      FlattenAppend(a, b');
    }
  }

  /** Flatten of the first i+1 rows adds row i to the flatten of the first i. */
  lemma {:induction false} FlattenPrefixStep<T>(rows: seq<seq<T>>, i: nat)
    requires i < |rows|
    ensures Flatten(rows[..i + 1]) == Flatten(rows[..i]) + rows[i]
  {
    assert rows[..i + 1][..i] == rows[..i];
  }

  /** Offset i is the total length of the first i rows. */
  lemma {:induction false} RowPtrAt<T>(rows: seq<seq<T>>, i: nat)
    requires i <= |rows|
    ensures RowPtr(rows)[i] == |Flatten(rows[..i])|
    decreases |rows|
  {
    if i == |rows| {
      assert rows[..i] == rows;
    } else {
      var p := rows[..|rows| - 1];
      assert p[..i] == rows[..i];
      RowPtrAt(p, i);
    }
  }

  /** Prefix of row pointers: RowPtr of the first i rows is the first i+1 offsets. */
  lemma {:induction false} RowPtrPrefix<T>(rows: seq<seq<T>>, i: nat)
    requires i <= |rows|
    ensures RowPtr(rows[..i]) == RowPtr(rows)[..i + 1]
    decreases |rows|
  {
    if i == |rows| {
      assert rows[..i] == rows;
    } else {
      var p := rows[..|rows| - 1];
      assert RowPtr(rows) == RowPtr(p) + [|Flatten(rows)|];
      assert p[..i] == rows[..i];
      RowPtrPrefix(p, i);
      assert RowPtr(rows)[..i + 1] == RowPtr(p)[..i + 1];
    }
  }

  /** Consecutive offsets differ by the length of the row between them. */
  lemma {:induction false} RowPtrStep<T>(rows: seq<seq<T>>, i: nat)
    requires i < |rows|
    ensures RowPtr(rows)[i + 1] == RowPtr(rows)[i] + |rows[i]|
  {
    RowPtrAt(rows, i);
    RowPtrAt(rows, i + 1);
    FlattenPrefixStep(rows, i);
  }

  /** Offsets never decrease. */
  lemma {:induction false} RowPtrMono<T>(rows: seq<seq<T>>, i: nat, j: nat)
    requires i <= j <= |rows|
    ensures RowPtr(rows)[i] <= RowPtr(rows)[j]
  {
    RowPtrAt(rows, i);
    RowPtrAt(rows, j);
    FlattenPrefixMono(rows, i, j);
  }

  lemma {:induction false} FlattenPrefixMono<T>(rows: seq<seq<T>>, i: nat, j: nat)
    requires i <= j <= |rows|
    ensures |Flatten(rows[..i])| <= |Flatten(rows[..j])|
    decreases j - i
  {
    if i < j {
      FlattenPrefixMono(rows, i, j - 1);
      FlattenPrefixStep(rows, j - 1);
    }
  }

  /** The row pointers of any row sequence are well formed and end at the flattened length. */
  lemma {:induction false} RowPtrWellFormed<T>(rows: seq<seq<T>>)
    ensures WellFormed(RowPtr(rows), |Flatten(rows)|, |rows|)
    ensures forall i :: 0 <= i < |rows| ==> RowPtr(rows)[i + 1] == RowPtr(rows)[i] + |rows[i]|
  {
    var rp := RowPtr(rows);
    forall i | 0 <= i < |rows|
      ensures rp[i + 1] == rp[i] + |rows[i]|
    {
      RowPtrStep(rows, i);
    }
    forall i, j | 0 <= i <= j <= |rows|
      ensures rp[i] <= rp[j]
    {
      RowPtrMono(rows, i, j);
    }
  }

  /** Decoding after encoding: row i of the CSR arrays is the original row i. */
  lemma {:induction false} FlattenRowOf<T>(rows: seq<seq<T>>, i: nat)
    requires i < |rows|
    ensures 0 <= RowPtr(rows)[i] <= RowPtr(rows)[i + 1] <= |Flatten(rows)|
    ensures Flatten(rows)[RowPtr(rows)[i]..RowPtr(rows)[i + 1]] == rows[i]
  {
    var pre, row, post := rows[..i], rows[i], rows[i + 1..];
    var head := pre + [row];
    assert rows == head + post;
    assert rows[..i + 1] == head && head[..i] == pre;
    FlattenAppend(head, post);
    RowPtrAt(rows, i);
    RowPtrAt(rows, i + 1);
    var lo := |Flatten(pre)|;
    assert Flatten(head) == Flatten(pre) + row;
    assert Flatten(rows)[lo..lo + |row|] == row;
  }

  /** Entry k of row i sits at offset RowPtr[i] + k of the concatenation. */
  lemma {:induction false} FlattenSlot<T>(rows: seq<seq<T>>, i: nat, k: nat)
    requires i < |rows| && k < |rows[i]|
    ensures 0 <= RowPtr(rows)[i] && RowPtr(rows)[i] + k < |Flatten(rows)| && Flatten(rows)[RowPtr(rows)[i] + k] == rows[i][k]
  {
    FlattenRowOf(rows, i);
    assert Flatten(rows)[RowPtr(rows)[i]..RowPtr(rows)[i + 1]][k] == rows[i][k];
  }

  lemma {:induction false} DecodeEncode<T>(rows: seq<seq<T>>)
    ensures WellFormed(RowPtr(rows), |Flatten(rows)|, |rows|)
    ensures Rows(RowPtr(rows), Flatten(rows), |rows|) == rows
  {
    RowPtrWellFormed(rows);
    var r := Rows(RowPtr(rows), Flatten(rows), |rows|);
    forall i | 0 <= i < |rows|
      ensures r[i] == rows[i]
    {
      FlattenRowOf(rows, i);
    }
  }

  /** Encoding after decoding: a well-formed CSR array is the encoding of its rows. */
  lemma {:induction false} EncodeDecode<T>(rp: seq<int>, data: seq<T>, m: nat)
    requires WellFormed(rp, |data|, m)
    ensures RowPtr(Rows(rp, data, m)) == rp
    ensures Flatten(Rows(rp, data, m)) == data[..rp[m]]
    decreases m
  {
    var rows := Rows(rp, data, m);
    if m == 0 {
      assert rows == [];
    } else {
      var rp' := rp[..m];
      RowsPrefix(rp, data, m);
      EncodeDecode(rp', data, m - 1);
      var rows' := Rows(rp', data, m - 1);
      var last := data[rp[m - 1]..rp[m]];
      assert Flatten(rows) == Flatten(rows') + last;
      assert data[..rp[m]] == data[..rp[m - 1]] + last;
      assert RowPtr(rows) == RowPtr(rows') + [|Flatten(rows)|];
      assert rp == rp' + [rp[m]];
    }
  }

  /** Dropping the last row pointer drops the last row. */
  lemma {:induction false} RowsPrefix<T>(rp: seq<int>, data: seq<T>, m: nat)
    requires WellFormed(rp, |data|, m) && m > 0
    ensures WellFormed(rp[..m], |data|, m - 1)
    ensures Rows(rp, data, m)[..m - 1] == Rows(rp[..m], data, m - 1)
    ensures Rows(rp, data, m)[m - 1] == data[rp[m - 1]..rp[m]]
  {
    assert WellFormed(rp[..m], |data|, m - 1);
    var rows, rows' := Rows(rp, data, m), Rows(rp[..m], data, m - 1);
    assert forall i :: 0 <= i < m - 1 ==> rows[i] == rows'[i];
  }

  /** Row offsets depend only on the row lengths: two row sequences of the same shape
      (for example a pattern and its values) have the same row pointers. */
  lemma {:induction false} SameShape<S, T>(a: seq<seq<S>>, b: seq<seq<T>>)
    requires |a| == |b| && forall i :: 0 <= i < |a| ==> |a[i]| == |b[i]|
    ensures RowPtr(a) == RowPtr(b) && |Flatten(a)| == |Flatten(b)|
    decreases |a|
  {
    if a != [] {
      var a', b' := a[..|a| - 1], b[..|b| - 1];
      SameShape(a', b');
      assert |Flatten(a)| == |Flatten(a')| + |a[|a| - 1]|;
      assert |Flatten(b)| == |Flatten(b')| + |b[|b| - 1]|;
      assert RowPtr(a) == RowPtr(a') + [|Flatten(a)|];
    }
  }

  /** Two row sequences of the same shape keep entry k of row i at the same offset. */
  lemma {:induction false} SameShapeSlot<S, T>(a: seq<seq<S>>, b: seq<seq<T>>, i: nat, k: nat)
    requires |a| == |b| && forall r :: 0 <= r < |a| ==> |a[r]| == |b[r]|
    requires i < |a| && k < |a[i]|
    ensures RowPtr(a) == RowPtr(b) && |Flatten(a)| == |Flatten(b)|
    ensures 0 <= RowPtr(a)[i] && RowPtr(a)[i] + k < |Flatten(a)|
    ensures Flatten(a)[RowPtr(a)[i] + k] == a[i][k] && Flatten(b)[RowPtr(a)[i] + k] == b[i][k]
  {
    SameShape(a, b);
    FlattenSlot(a, i, k);
    FlattenSlot(b, i, k);
  }

  /** Every element of the concatenation comes from one of the rows. */
  lemma {:induction false} FlattenMember<T>(rows: seq<seq<T>>, x: T)
    requires x in Flatten(rows)
    ensures exists i :: 0 <= i < |rows| && x in rows[i]
    decreases |rows|
  {
    var p := rows[..|rows| - 1];
    if x in Flatten(p) {
      FlattenMember(p, x);
      var i :| 0 <= i < |p| && x in p[i];
      assert x in rows[i];
    } else {
      assert x in rows[|rows| - 1];
    }
  }

  /** Empty rows concatenate to nothing. */
  lemma {:induction false} FlattenEmptyRows<T>(rows: seq<seq<T>>)
    requires forall i :: 0 <= i < |rows| ==> rows[i] == []
    ensures Flatten(rows) == []
    decreases |rows|
  {
    if rows != [] {
      FlattenEmptyRows(rows[..|rows| - 1]);
    }
  }

  /** A well-formed CSR array whose last row pointer is 0 has only empty rows. */
  lemma {:induction false} NoSlotsNoRows<T>(rp: seq<int>, data: seq<T>, m: nat)
    requires WellFormed(rp, |data|, m) && rp[m] == 0
    ensures forall i :: 0 <= i < m ==> RowOf(rp, data, i) == []
  {
    forall i | 0 <= i < m
      ensures RowOf(rp, data, i) == []
    {
      assert rp[i] <= rp[i + 1] <= rp[m];
    }
  }
}
