/**
  Specification of the sparse matrix sum M = X + Y (src/LinAlg/hiopMatrixSparseCSR.cpp,
  `add_matrix_*`): row i of M is the sorted merge of the column lists of row i of X
  and row i of Y, and its values are alpha*X + beta*Y on that pattern.

  `Merge` and `MergeValues` follow the two-pointer walk of the source (the values of X
  and Y enter it already multiplied by alpha and beta); the lemmas connect them to an
  independent description: for strictly sorted rows the merge is strictly sorted,
  holds exactly the union of the two column sets, has the union's size, and carries
  at every column j the value alpha*X[i,j] + beta*Y[i,j].
 */
module CsrMerge {
  import opened CsrPattern

  function Merge(a: seq<int>, b: seq<int>): (r: seq<int>)
    decreases |a| + |b|
  {
    if a == [] then b
    else if b == [] then a
    else if a[0] < b[0] then [a[0]] + Merge(a[1..], b)
    else if a[0] == b[0] then [a[0]] + Merge(a[1..], b[1..])
    else [b[0]] + Merge(a, b[1..])
  }

  /** The values along the merge walk, for values already scaled by alpha and beta:
      a column stored in one row only keeps that row's value, a column stored in both
      gets the sum. */
  function MergeValues(a: seq<int>, va: seq<real>, b: seq<int>, vb: seq<real>): (r: seq<real>)
    requires |a| == |va| && |b| == |vb|
    ensures |r| == |Merge(a, b)|
    decreases |a| + |b|
  {
    if a == [] then vb
    else if b == [] then va
    else if a[0] < b[0] then [va[0]] + MergeValues(a[1..], va[1..], b, vb)
    else if a[0] == b[0] then [va[0] + vb[0]] + MergeValues(a[1..], va[1..], b[1..], vb[1..])
    else [vb[0]] + MergeValues(a, va, b[1..], vb[1..])
  }

  /** c times every value. */
  function Scaled(c: real, s: seq<real>): (r: seq<real>)
    ensures |r| == |s| && forall k :: 0 <= k < |s| ==> r[k] == c * s[k]
  {
    seq(|s|, k requires 0 <= k < |s| => c * s[k])
  }

  /** Entry-wise sum of two vectors of the same length. */
  function Plus(u: seq<real>, v: seq<real>): (r: seq<real>)
    requires |u| == |v|
    ensures |r| == |u| && forall k :: 0 <= k < |u| ==> r[k] == u[k] + v[k]
  {
    seq(|u|, k requires 0 <= k < |u| => u[k] + v[k])
  }

  /** The value a sparse row stores at column j, 0 when j is not stored. */
  function Lookup(cols: seq<int>, vals: seq<real>, j: int): real
    requires |cols| == |vals|
  {
    if cols == [] then 0.0 else if cols[0] == j then vals[0] else Lookup(cols[1..], vals[1..], j)
  }

  /** The set of elements of a sequence. */
  function Elements(s: seq<int>): (r: set<int>)
    ensures forall x :: x in r <==> x in s
  {
    set x | x in s
  }

  /** Rows of the pattern of X + Y. */
  function MergeRows(rpX: seq<int>, jcX: seq<int>, rpY: seq<int>, jcY: seq<int>, m: nat): (rows: seq<seq<int>>)
    requires WellFormed(rpX, |jcX|, m) && WellFormed(rpY, |jcY|, m)
    ensures |rows| == m
    ensures forall i :: 0 <= i < m ==> rows[i] == Merge(RowOf(rpX, jcX, i), RowOf(rpY, jcY, i))
  {
    seq(m, i requires 0 <= i < m => Merge(RowOf(rpX, jcX, i), RowOf(rpY, jcY, i)))
  }

  /** Rows of the values alpha*X + beta*Y, on the pattern `MergeRows`. */
  function MergeValueRows(rpX: seq<int>, jcX: seq<int>, vX: seq<real>, rpY: seq<int>, jcY: seq<int>, vY: seq<real>,
                          m: nat, alpha: real, beta: real): (rows: seq<seq<real>>)
    requires |jcX| == |vX| && |jcY| == |vY|
    requires WellFormed(rpX, |jcX|, m) && WellFormed(rpY, |jcY|, m)
    ensures |rows| == m
    ensures forall i :: 0 <= i < m ==>
      rows[i] == MergeValues(RowOf(rpX, jcX, i), Scaled(alpha, RowOf(rpX, vX, i)),
                             RowOf(rpY, jcY, i), Scaled(beta, RowOf(rpY, vY, i)))
  {
    seq(m, i requires 0 <= i < m =>
      MergeValues(RowOf(rpX, jcX, i), Scaled(alpha, RowOf(rpX, vX, i)), RowOf(rpY, jcY, i), Scaled(beta, RowOf(rpY, vY, i))))
  }

  /** Every element of s is above h. */
  ghost predicate AllAbove(s: seq<int>, h: int)
  {
    forall k :: 0 <= k < |s| ==> h < s[k]
  }

  lemma {:induction false} SortedTail(s: seq<int>)
    requires StrictlySorted(s) && s != []
    ensures StrictlySorted(s[1..]) && AllAbove(s[1..], s[0])
  {
  }

  lemma {:induction false} ConsSorted(h: int, t: seq<int>)
    requires StrictlySorted(t) && AllAbove(t, h)
    ensures StrictlySorted([h] + t)
  {
    var r := [h] + t;
    forall i, j | 0 <= i < j < |r|
      ensures r[i] < r[j]
    {
      if i > 0 {
        assert r[i] == t[i - 1];
      }
      assert r[j] == t[j - 1];
    }
  }

  /** A bound below both rows is a bound below their merge. */
  lemma {:induction false} MergeAbove(a: seq<int>, b: seq<int>, h: int)
    requires AllAbove(a, h) && AllAbove(b, h)
    ensures AllAbove(Merge(a, b), h)
    decreases |a| + |b|
  {
    if a != [] && b != [] {
      if a[0] < b[0] {
        MergeAbove(a[1..], b, h);
      } else if a[0] == b[0] {
        MergeAbove(a[1..], b[1..], h);
      } else {
        MergeAbove(a, b[1..], h);
      }
    }
  }

  /** The merge contains exactly the columns of either row. */
  lemma {:induction false} MergeElements(a: seq<int>, b: seq<int>)
    ensures forall x :: x in Merge(a, b) <==> x in a || x in b
    decreases |a| + |b|
  {
    if a != [] && b != [] {
      if a[0] < b[0] {
        MergeElements(a[1..], b);
      } else if a[0] == b[0] {
        MergeElements(a[1..], b[1..]);
      } else {
        MergeElements(a, b[1..]);
      }
      assert a == [a[0]] + a[1..] && b == [b[0]] + b[1..];
    }
  }

  /** The merge of two strictly sorted rows is strictly sorted. */
  lemma {:induction false} MergeSorted(a: seq<int>, b: seq<int>)
    requires StrictlySorted(a) && StrictlySorted(b)
    ensures StrictlySorted(Merge(a, b))
    decreases |a| + |b|
  {
    if a != [] && b != [] {
      SortedTail(a);
      SortedTail(b);
      if a[0] < b[0] {
        MergeSorted(a[1..], b);
        assert AllAbove(b, a[0]);
        MergeAbove(a[1..], b, a[0]);
        ConsSorted(a[0], Merge(a[1..], b));
      } else if a[0] == b[0] {
        MergeSorted(a[1..], b[1..]);
        MergeAbove(a[1..], b[1..], a[0]);
        ConsSorted(a[0], Merge(a[1..], b[1..]));
      } else {
        MergeSorted(a, b[1..]);
        assert AllAbove(a, b[0]);
        MergeAbove(a, b[1..], b[0]);
        ConsSorted(b[0], Merge(a, b[1..]));
      }
    }
  }

  lemma {:induction false} DistinctCard(s: seq<int>)
    requires Distinct(s)
    ensures |Elements(s)| == |s|
    decreases |s|
  {
    if s != [] {
      var t := s[..|s| - 1];
      DistinctCard(t);
      assert Elements(s) == Elements(t) + {s[|s| - 1]};
      assert forall k :: 0 <= k < |t| ==> t[k] != s[|s| - 1];
    }
  }

  /** `add_matrix_alloc` counts, per row, the size of the union of the two column sets. */
  lemma {:induction false} MergeSize(a: seq<int>, b: seq<int>)
    requires StrictlySorted(a) && StrictlySorted(b)
    ensures |Merge(a, b)| == |Elements(a) + Elements(b)|
  {
    MergeSorted(a, b);
    MergeElements(a, b);
    DistinctCard(Merge(a, b));
    assert Elements(Merge(a, b)) == Elements(a) + Elements(b);
  }

  /** A column below every stored column is not stored. */
  lemma {:induction false} LookupBelow(cols: seq<int>, vals: seq<real>, j: int)
    requires |cols| == |vals| && AllAbove(cols, j)
    ensures Lookup(cols, vals, j) == 0.0
    decreases |cols|
  {
    if cols != [] {
      LookupBelow(cols[1..], vals[1..], j);
    }
  }

  lemma {:induction false} LookupAt(cols: seq<int>, vals: seq<real>, k: nat)
    requires |cols| == |vals| && k < |cols| && StrictlySorted(cols)
    ensures Lookup(cols, vals, cols[k]) == vals[k]
    decreases k
  {
    if k > 0 {
      SortedTail(cols);
      LookupAt(cols[1..], vals[1..], k - 1);
    }
  }

  /** Looking up in scaled values scales the lookup: with `MergeValuesAt` this gives the
      value alpha*X[i,j] + beta*Y[i,j] at every merged column j. */
  lemma {:induction false} LookupScaled(cols: seq<int>, vals: seq<real>, c: real, j: int)
    requires |cols| == |vals|
    ensures Lookup(cols, Scaled(c, vals), j) == c * Lookup(cols, vals, j)
    decreases |cols|
  {
    if cols != [] && cols[0] != j {
      var s, t := Scaled(c, vals)[1..], Scaled(c, vals[1..]);
      assert |s| == |t|;
      forall k | 0 <= k < |s|
        ensures s[k] == t[k]
      {
        assert s[k] == c * vals[k + 1];
      }
      assert s == t;
      LookupScaled(cols[1..], vals[1..], c, j);
    }
  }

  /** At every merged column j the merged value is the sum of what the two rows store at j. */
  lemma {:induction false} MergeValuesAt(a: seq<int>, va: seq<real>, b: seq<int>, vb: seq<real>, k: nat)
    requires |a| == |va| && |b| == |vb| && StrictlySorted(a) && StrictlySorted(b)
    requires k < |Merge(a, b)|
    ensures MergeValues(a, va, b, vb)[k] == Lookup(a, va, Merge(a, b)[k]) + Lookup(b, vb, Merge(a, b)[k])
    decreases |a| + |b|, 1
  {
    if a == [] {
      LookupAt(b, vb, k);
    } else if b == [] {
      LookupAt(a, va, k);
    } else if a[0] <= b[0] {
      MergeValuesHead(a, va, b, vb, k);
    } else {
      MergeSwap(a, va, b, vb);
      MergeValuesHead(b, vb, a, va, k);
    }
  }

  /** The merge is symmetric in its two operands. */
  lemma {:induction false} MergeSwap(a: seq<int>, va: seq<real>, b: seq<int>, vb: seq<real>)
    requires |a| == |va| && |b| == |vb|
    ensures Merge(a, b) == Merge(b, a)
    ensures MergeValues(a, va, b, vb) == MergeValues(b, vb, a, va)
    decreases |a| + |b|
  {
    if a != [] && b != [] {
      if a[0] < b[0] {
        MergeSwap(a[1..], va[1..], b, vb);
      } else if a[0] == b[0] {
        MergeSwap(a[1..], va[1..], b[1..], vb[1..]);
      } else {
        MergeSwap(a, va, b[1..], vb[1..]);
      }
    }
  }

  /** The case where the head of row a is the smallest column of both. */
  lemma {:induction false} MergeValuesHead(a: seq<int>, va: seq<real>, b: seq<int>, vb: seq<real>, k: nat)
    requires |a| == |va| && |b| == |vb| && StrictlySorted(a) && StrictlySorted(b)
    requires a != [] && b != [] && a[0] <= b[0]
    requires k < |Merge(a, b)|
    ensures MergeValues(a, va, b, vb)[k] == Lookup(a, va, Merge(a, b)[k]) + Lookup(b, vb, Merge(a, b)[k])
    decreases |a| + |b|, 0
  {
    SortedTail(a);
    SortedTail(b);
    if a[0] < b[0] {
      assert AllAbove(b, a[0]);
      if k == 0 {
        LookupBelow(b, vb, a[0]);
      } else {
        MergeValuesAt(a[1..], va[1..], b, vb, k - 1);
        MergeAbove(a[1..], b, a[0]);
        MergeTailLookup(a, va, b, vb, a[1..], va[1..], b, vb, Merge(a[1..], b)[k - 1]);
      }
    } else if k > 0 {
      MergeValuesAt(a[1..], va[1..], b[1..], vb[1..], k - 1);
      MergeAbove(a[1..], b[1..], a[0]);
      MergeTailLookup(a, va, b, vb, a[1..], va[1..], b[1..], vb[1..], Merge(a[1..], b[1..])[k - 1]);
    }
  }

  /** Lookups past the common head see only the tails. */
  lemma {:induction false} MergeTailLookup(a: seq<int>, va: seq<real>, b: seq<int>, vb: seq<real>,
                        a': seq<int>, va': seq<real>, b': seq<int>, vb': seq<real>, x: int)
    requires |a| == |va| && |b| == |vb| && a != [] && b != []
    requires a' == a[1..] && va' == va[1..]
    requires (b' == b && vb' == vb) || (b' == b[1..] && vb' == vb[1..] && a[0] == b[0])
    requires a[0] < x
    ensures Lookup(a, va, x) == Lookup(a', va', x)
    ensures Lookup(b, vb, x) == Lookup(b', vb', x)
  {
  }

  /** Scaling commutes with taking a slice. */
  lemma {:induction false} ScaledSlice(c: real, s: seq<real>, lo: nat, hi: nat)
    requires lo <= hi <= |s|
    ensures Scaled(c, s)[lo..hi] == Scaled(c, s[lo..hi])
  {
    var a, b := Scaled(c, s)[lo..hi], Scaled(c, s[lo..hi]);
    forall k | 0 <= k < hi - lo
      ensures a[k] == b[k]
    {
      assert s[lo..hi][k] == s[lo + k];
    }
  }
}
