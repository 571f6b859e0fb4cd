/**
  Counting specifications behind the triplet-to-CSR conversions.

  A triplet (coordinate) matrix is given by its row indexes, column indexes and
  values, one per nonzero. `form_from_symbolic` counts nonzeros per row and turns
  the counts into row offsets; `form_transpose_from_symbolic` counts nonzeros per
  column and distributes every triplet (r, c) into row c of the transpose, a
  counting sort. `Count`, `CountBelow` and `Select` state what those loops compute.
 */
module CsrCount {
  import opened CsrPattern

  /** Number of entries of s equal to r. */
  function Count(s: seq<int>, r: int): (c: nat)
    ensures c <= |s|
    decreases |s|
  {
    if s == [] then 0 else Count(s[..|s| - 1], r) + (if s[|s| - 1] == r then 1 else 0)
  }

  /** Number of entries of s strictly below r. */
  function CountBelow(s: seq<int>, r: int): (c: nat)
    ensures c <= |s|
    decreases |s|
  {
    if s == [] then 0 else CountBelow(s[..|s| - 1], r) + (if s[|s| - 1] < r then 1 else 0)
  }

  /** The entries of `data` whose key is c, in their original order. */
  function Select<T>(data: seq<T>, key: seq<int>, c: int): (r: seq<T>)
    requires |data| == |key|
    ensures |r| == Count(key, c)
    decreases |key|
  {
    if key == [] then []
    else
      var p := Select(data[..|data| - 1], key[..|key| - 1], c);
      if key[|key| - 1] == c then p + [data[|data| - 1]] else p
  }

  /** Row offsets obtained from row indexes by counting: offset i is the number of entries in rows below i. */
  function CountOffsets(s: seq<int>, m: nat): (rp: seq<int>)
    ensures |rp| == m + 1
    ensures forall i :: 0 <= i <= m ==> rp[i] == CountBelow(s, i)
  {
    seq(m + 1, i => CountBelow(s, i))
  }

  /** The rows of the transpose of a triplet matrix with `nr` columns: row c holds the entries of column c. */
  function TransposeRows<T>(data: seq<T>, key: seq<int>, nr: nat): (rows: seq<seq<T>>)
    requires |data| == |key|
    ensures |rows| == nr
    ensures forall c :: 0 <= c < nr ==> rows[c] == Select(data, key, c)
  {
    seq(nr, c => Select(data, key, c))
  }

  ghost predicate AllIn(s: seq<int>, m: int)
  {
    forall t :: 0 <= t < |s| ==> 0 <= s[t] < m
  }

  /** Triplets ordered by row and, inside a row, by strictly increasing column. */
  ghost predicate TripletSorted(irow: seq<int>, jcol: seq<int>)
    requires |irow| == |jcol|
  {
    forall a, b :: 0 <= a < b < |irow| ==> irow[a] < irow[b] || (irow[a] == irow[b] && jcol[a] < jcol[b])
  }

  ghost predicate AllBelow(s: seq<int>, x: int)
  {
    forall k :: 0 <= k < |s| ==> s[k] < x
  }

  lemma {:induction false} CountBelowStep(s: seq<int>, r: int)
    ensures CountBelow(s, r + 1) == CountBelow(s, r) + Count(s, r)
    decreases |s|
  {
    if s != [] {
      CountBelowStep(s[..|s| - 1], r);
    }
  }

  lemma {:induction false} CountBelowZero(s: seq<int>, m: int)
    requires AllIn(s, m)
    ensures CountBelow(s, 0) == 0 && CountBelow(s, m) == |s|
    decreases |s|
  {
    if s != [] {
      CountBelowZero(s[..|s| - 1], m);
    }
  }

  lemma {:induction false} CountBelowMono(s: seq<int>, a: int, b: int)
    requires a <= b
    ensures CountBelow(s, a) <= CountBelow(s, b)
    decreases |s|
  {
    if s != [] {
      CountBelowMono(s[..|s| - 1], a, b);
    }
  }

  /** Counting over a prefix never exceeds counting over the whole sequence. */
  lemma {:induction false} CountPrefix(s: seq<int>, t: nat, r: int)
    requires t <= |s|
    ensures Count(s[..t], r) <= Count(s, r)
    decreases |s| - t
  {
    if t < |s| {
      CountPrefix(s, t + 1, r);
      assert s[..t + 1][..t] == s[..t];
    } else {
      assert s[..t] == s;
    }
  }

  /** Counting offsets are well-formed CSR row pointers that end at the number of triplets,
      and consecutive offsets differ by the row's count. */
  lemma {:induction false} CountOffsetsWellFormed(s: seq<int>, m: nat)
    requires AllIn(s, m)
    ensures WellFormed(CountOffsets(s, m), |s|, m)
    ensures CountOffsets(s, m)[m] == |s|
    ensures forall i :: 0 <= i < m ==> CountOffsets(s, m)[i + 1] == CountOffsets(s, m)[i] + Count(s, i)
  {
    CountBelowZero(s, m);
    forall i, j | 0 <= i <= j <= m
      ensures CountBelow(s, i) <= CountBelow(s, j)
    {
      CountBelowMono(s, i, j);
    }
    forall i | 0 <= i < m
      ensures CountBelow(s, i + 1) == CountBelow(s, i) + Count(s, i)
    {
      CountBelowStep(s, i);
    }
  }

  /** The rows of the transpose are encoded with the counting offsets of the column indexes. */
  lemma {:induction false} TransposeRowPtr<T>(data: seq<T>, key: seq<int>, nr: nat)
    requires |data| == |key| && AllIn(key, nr)
    ensures RowPtr(TransposeRows(data, key, nr)) == CountOffsets(key, nr)
    ensures |Flatten(TransposeRows(data, key, nr))| == |key|
  {
    var rows := TransposeRows(data, key, nr);
    var rp := RowPtr(rows);
    var co := CountOffsets(key, nr);
    RowPtrWellFormed(rows);
    CountOffsetsWellFormed(key, nr);
    CountBelowZero(key, nr);
    assert forall i :: 0 <= i <= nr ==> rp[i] == co[i] by {
      forall i | 0 <= i <= nr
        ensures rp[i] == co[i]
      {
        RowPtrIsCount(rows, key, nr, i, co);
      }
    }
  }

  lemma {:induction false} RowPtrIsCount<T>(rows: seq<seq<T>>, key: seq<int>, nr: nat, i: nat, co: seq<int>)
    requires |rows| == nr && i <= nr && co == CountOffsets(key, nr) && AllIn(key, nr)
    requires forall c :: 0 <= c < nr ==> |rows[c]| == Count(key, c)
    ensures RowPtr(rows)[i] == co[i]
    decreases i
  {
    RowPtrWellFormed(rows);
    if i == 0 {
      CountBelowZero(key, nr);
    } else {
      RowPtrIsCount(rows, key, nr, i - 1, co);
      CountOffsetsWellFormed(key, nr);
    }
  }

  /** With sorted triplets, every row of the transpose lists its column indexes in strictly increasing order. */
  lemma {:induction false} TransposeRowSorted(irow: seq<int>, jcol: seq<int>, c: int)
    requires |irow| == |jcol| && TripletSorted(irow, jcol)
    ensures StrictlySorted(Select(irow, jcol, c))
  {
    SelectBelowLast(irow, jcol, c, |irow|);
    assert irow[..|irow|] == irow && jcol[..|jcol|] == jcol;
  }

  lemma {:induction false} SelectBelowLast(irow: seq<int>, jcol: seq<int>, c: int, t: nat)
    requires |irow| == |jcol| && TripletSorted(irow, jcol) && t <= |irow|
    ensures StrictlySorted(Select(irow[..t], jcol[..t], c))
    decreases t
  {
    if t > 0 {
      var sel := Select(irow[..t], jcol[..t], c);
      assert irow[..t][..t - 1] == irow[..t - 1];
      assert jcol[..t][..t - 1] == jcol[..t - 1];
      SelectBelowLast(irow, jcol, c, t - 1);
      var p := Select(irow[..t - 1], jcol[..t - 1], c);
      if jcol[t - 1] == c {
        assert sel == p + [irow[t - 1]];
        if t > 1 {
          SelectBelow(irow, jcol, c, t - 2, t - 1);
        }
        forall a, b | 0 <= a < b < |sel|
          ensures sel[a] < sel[b]
        {
          if b == |sel| - 1 {
            assert sel[a] == p[a];
          } else {
            assert sel[a] == p[a] && sel[b] == p[b];
          }
        }
      } else {
        assert sel == p;
      }
    }
  }

  /** Elements selected from the first t triplets for column c are rows of triplets before t
      that lie in column c, hence (by the ordering) strictly below the row of a later triplet of column c. */
  lemma {:induction false} SelectBelow(irow: seq<int>, jcol: seq<int>, c: int, t: nat, u: nat)
    requires |irow| == |jcol| && TripletSorted(irow, jcol) && t < u < |irow| && jcol[u] == c
    ensures AllBelow(Select(irow[..t + 1], jcol[..t + 1], c), irow[u])
    decreases t
  {
    var sel := Select(irow[..t + 1], jcol[..t + 1], c);
    assert irow[..t + 1][..t] == irow[..t];
    assert jcol[..t + 1][..t] == jcol[..t];
    var p := Select(irow[..t], jcol[..t], c);
    assert sel == if jcol[t] == c then p + [irow[t]] else p;
    if t > 0 {
      SelectBelow(irow, jcol, c, t - 1, u);
    } else {
      assert p == [];
    }
  }

  lemma {:induction false} CountAllBelow(s: seq<int>, c: int)
    requires forall t :: 0 <= t < |s| ==> s[t] <= c
    ensures CountBelow(s, c) + Count(s, c) == |s|
    decreases |s|
  {
    if s != [] {
      CountAllBelow(s[..|s| - 1], c);
    }
  }

  lemma {:induction false} CountNone(s: seq<int>, c: int)
    requires forall t :: 0 <= t < |s| ==> s[t] < c
    ensures CountBelow(s, c) == |s| && Count(s, c) == 0
    decreases |s|
  {
    if s != [] {
      CountNone(s[..|s| - 1], c);
    }
  }

  /** For non-decreasing keys, the entries with key c form the contiguous block that starts
      after the entries with smaller keys. */
  lemma {:induction false} SelectContiguous<T>(data: seq<T>, key: seq<int>, c: int)
    requires |data| == |key|
    requires forall a, b :: 0 <= a < b < |key| ==> key[a] <= key[b]
    ensures CountBelow(key, c) + Count(key, c) <= |key|
    ensures Select(data, key, c) == data[CountBelow(key, c)..CountBelow(key, c) + Count(key, c)]
    decreases |key|
  {
    if key != [] {
      var n := |key| - 1;
      var k' := key[..n];
      SelectContiguous(data[..n], k', c);
      var cb, cn := CountBelow(k', c), Count(k', c);
      assert data[..n][cb..cb + cn] == data[cb..cb + cn];
      if key[n] == c {
        CountAllBelow(k', c);
      } else if key[n] < c {
        CountNone(k', c);
      }
      SelectContiguousStep(data, key, c, cb, cn);
    }
  }

  /** The inductive step of `SelectContiguous`: the block of key c after appending one entry
      whose key is the largest so far. */
  lemma {:induction false} SelectContiguousStep<T>(data: seq<T>, key: seq<int>, c: int, cb: nat, cn: nat)
    requires |data| == |key| > 0
    requires cb == CountBelow(key[..|key| - 1], c) && cn == Count(key[..|key| - 1], c)
    requires cb + cn <= |key| - 1
    requires Select(data[..|data| - 1], key[..|key| - 1], c) == data[cb..cb + cn]
    requires key[|key| - 1] == c ==> cb + cn == |key| - 1
    requires key[|key| - 1] < c ==> cb == |key| - 1 && cn == 0
    ensures CountBelow(key, c) + Count(key, c) <= |key|
    ensures Select(data, key, c) == data[CountBelow(key, c)..CountBelow(key, c) + Count(key, c)]
  {
    var n := |key| - 1;
    var sel' := Select(data[..|data| - 1], key[..n], c);
    assert CountBelow(key, c) == cb + (if key[n] < c then 1 else 0);
    assert Count(key, c) == cn + (if key[n] == c then 1 else 0);
    if key[n] == c {
      assert Select(data, key, c) == sel' + [data[n]];
      assert data[cb..n + 1] == data[cb..n] + [data[n]];
    } else if key[n] < c {
      assert Select(data, key, c) == sel' == [];
    } else {
      assert Select(data, key, c) == sel';
    }
  }

  /** Triplet-to-CSR: with triplets sorted by row and rows in [0, m), row i of the CSR matrix
      (counting offsets over the unchanged column array) is the list of columns of row i,
      strictly increasing. */
  lemma {:induction false} TripletRows(irow: seq<int>, jcol: seq<int>, m: nat, i: nat)
    requires |irow| == |jcol| && TripletSorted(irow, jcol) && AllIn(irow, m) && i < m
    ensures WellFormed(CountOffsets(irow, m), |jcol|, m)
    ensures RowOf(CountOffsets(irow, m), jcol, i) == Select(jcol, irow, i)
    ensures StrictlySorted(RowOf(CountOffsets(irow, m), jcol, i))
  {
    CountOffsetsWellFormed(irow, m);
    CountBelowStep(irow, i);
    KeysNonDecreasing(irow, jcol);
    SelectContiguous(jcol, irow, i);
    var lo, hi := CountBelow(irow, i), CountBelow(irow, i + 1);
    forall t | lo <= t < hi
      ensures irow[t] == i
    {
      BlockKeys(irow, i, t);
    }
    SameRowSorted(irow, jcol, i, lo, hi);
  }

  /** Sorted triplets have non-decreasing row indexes. */
  lemma {:induction false} KeysNonDecreasing(irow: seq<int>, jcol: seq<int>)
    requires |irow| == |jcol| && TripletSorted(irow, jcol)
    ensures forall a, b :: 0 <= a < b < |irow| ==> irow[a] <= irow[b]
  {
  }

  /** Among sorted triplets, a run of one row lists strictly increasing columns. */
  lemma {:induction false} SameRowSorted(irow: seq<int>, jcol: seq<int>, i: int, lo: nat, hi: nat)
    requires |irow| == |jcol| && TripletSorted(irow, jcol) && lo <= hi <= |irow|
    requires forall t :: lo <= t < hi ==> irow[t] == i
    ensures StrictlySorted(jcol[lo..hi])
  {
    var run := jcol[lo..hi];
    forall a, b | 0 <= a < b < |run|
      ensures run[a] < run[b]
    {
      assert irow[lo + a] == i == irow[lo + b];
    }
  }

  /** For non-decreasing keys, position t lies in the block of key c exactly when key[t] == c. */
  lemma {:induction false} BlockKeys(key: seq<int>, c: int, t: nat)
    requires forall a, b :: 0 <= a < b < |key| ==> key[a] <= key[b]
    requires CountBelow(key, c) <= t < CountBelow(key, c) + Count(key, c) <= |key|
    ensures key[t] == c
  {
    var ones := seq(|key|, _ => 0);
    assert |ones| == |key|;
    var tags := seq(|key|, k requires 0 <= k < |key| => k);
    SelectContiguous(tags, key, c);
    var sel := Select(tags, key, c);
    assert sel[t - CountBelow(key, c)] == t;
    SelectedHaveKey(tags, key, c, t);
  }

  lemma {:induction false} SelectedHaveKey(tags: seq<int>, key: seq<int>, c: int, t: int)
    requires |tags| == |key| && forall k :: 0 <= k < |tags| ==> tags[k] == k
    requires t in Select(tags, key, c)
    ensures 0 <= t < |key| && key[t] == c
    decreases |key|
  {
    var n := |key| - 1;
    var p := Select(tags[..n], key[..n], c);
    if t in p {
      SelectedHaveKey(tags[..n], key[..n], c, t);
    } else {
      assert t == tags[n];
    }
  }

  /** Triplet k is entry number Count(key[..k], key[k]) of the selection of its key. */
  lemma {:induction false} SelectAt<T>(data: seq<T>, key: seq<int>, k: nat)
    requires |data| == |key| && k < |key|
    ensures Count(key[..k], key[k]) < |Select(data, key, key[k])|
    ensures Select(data, key, key[k])[Count(key[..k], key[k])] == data[k]
    decreases |key|
  {
    var n := |key| - 1;
    var c := key[k];
    var d', k' := data[..n], key[..n];
    if k == n {
      assert k' == key[..k];
    } else {
      SelectAt(d', k', k);
      assert k'[..k] == key[..k] && k'[k] == c && d'[k] == data[k];
      CountPrefix(k', k, c);
    }
  }

  /** The entries selected for a key are entries of the data. */
  lemma {:induction false} SelectedFrom<T>(data: seq<T>, key: seq<int>, c: int, x: T)
    requires |data| == |key| && x in Select(data, key, c)
    ensures x in data
    decreases |key|
  {
    var n := |key| - 1;
    if x in Select(data[..n], key[..n], c) {
      SelectedFrom(data[..n], key[..n], c, x);
      assert data[..n] <= data;
    } else {
      assert x == data[n];
    }
  }
}
