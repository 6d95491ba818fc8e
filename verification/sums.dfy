/** Integer vectors and square matrices, their sums, and the position swap that
    both quadratic-assignment searches apply to a solution vector. */
module Sums {

  /** The sum of the entries of `v`. */
  function VecSum(v: seq<int>): int
  {
    if |v| == 0 then 0 else VecSum(v[..|v| - 1]) + v[|v| - 1]
  }

  /** Growing a prefix by one entry adds that entry: the step of a left-to-right
      accumulation loop. */
  lemma VecSumPrefix(v: seq<int>, k: nat)
    requires k < |v|
    ensures VecSum(v[..k + 1]) == VecSum(v[..k]) + v[k]
  {
    assert v[..k + 1][..k] == v[..k];
  }

  /** A vector whose entries are all zero sums to zero. */
  lemma {:induction false} VecSumZero(v: seq<int>)
    requires forall k :: 0 <= k < |v| ==> v[k] == 0
    ensures VecSum(v) == 0
  {
    if |v| > 0 {
      VecSumZero(v[..|v| - 1]);
    }
  }

  /** Entry-wise sums of vectors add up. */
  lemma {:induction false} VecSumAdd(u: seq<int>, v: seq<int>, w: seq<int>)
    requires |u| == |v| == |w|
    requires forall k :: 0 <= k < |w| ==> w[k] == u[k] + v[k]
    ensures VecSum(w) == VecSum(u) + VecSum(v)
  {
    if |w| > 0 {
      VecSumAdd(u[..|u| - 1], v[..|v| - 1], w[..|w| - 1]);
    }
  }

  /** Entry-wise differences of vectors subtract. */
  lemma {:induction false} VecSumSub(u: seq<int>, v: seq<int>, w: seq<int>)
    requires |u| == |v| == |w|
    requires forall k :: 0 <= k < |w| ==> w[k] == u[k] - v[k]
    ensures VecSum(w) == VecSum(u) - VecSum(v)
  {
    if |w| > 0 {
      VecSumSub(u[..|u| - 1], v[..|v| - 1], w[..|w| - 1]);
    }
  }

  /** Scaling every entry by two doubles the sum. */
  lemma {:induction false} VecSumDouble(u: seq<int>, w: seq<int>)
    requires |u| == |w|
    requires forall k :: 0 <= k < |w| ==> w[k] == 2 * u[k]
    ensures VecSum(w) == 2 * VecSum(u)
  {
    if |w| > 0 {
      VecSumDouble(u[..|u| - 1], w[..|w| - 1]);
    }
  }

  /** A vector of non-negative entries has a non-negative sum. */
  lemma {:induction false} VecSumNonNegative(v: seq<int>)
    requires forall k :: 0 <= k < |v| ==> v[k] >= 0
    ensures VecSum(v) >= 0
  {
    if |v| > 0 {
      VecSumNonNegative(v[..|v| - 1]);
    }
  }

  /** Taking one entry out of a vector: the sum is that entry plus the sum
      with the entry zeroed. */
  lemma {:induction false} VecSumPoint(v: seq<int>, k: nat)
    requires k < |v|
    ensures VecSum(v) == v[k] + VecSum(v[k := 0])
  {
    var n := |v| - 1;
    if k == n {
      assert v[k := 0][..n] == v[..n];
    } else {
      VecSumPoint(v[..n], k);
      assert v[k := 0][..n] == v[..n][k := 0];
    }
  }

  /** Taking two distinct entries out of a vector. */
  lemma VecSumTwo(v: seq<int>, r: nat, s: nat)
    requires r < |v| && s < |v| && r != s
    ensures VecSum(v) == v[r] + v[s] + VecSum(seq(|v|, k requires 0 <= k < |v| =>
                                                  if k != r && k != s then v[k] else 0))
  {
    VecSumPoint(v, r);
    VecSumPoint(v[r := 0], s);
    assert v[r := 0][s := 0] == seq(|v|, k requires 0 <= k < |v| => if k != r && k != s then v[k] else 0);
  }

  /** A matrix with `n` rows of `n` entries each. */
  predicate Square(m: seq<seq<int>>, n: nat)
  {
    |m| == n && forall i :: 0 <= i < n ==> |m[i]| == n
  }

  /** The sum of all entries of a matrix, row by row. */
  function MatSum(m: seq<seq<int>>): int
  {
    VecSum(seq(|m|, i requires 0 <= i < |m| => VecSum(m[i])))
  }

  /** Entry-wise differences of matrices subtract. */
  lemma MatSumSub(a: seq<seq<int>>, b: seq<seq<int>>, c: seq<seq<int>>, n: nat)
    requires Square(a, n) && Square(b, n) && Square(c, n)
    requires forall i, k :: 0 <= i < n && 0 <= k < n ==> c[i][k] == a[i][k] - b[i][k]
    ensures MatSum(c) == MatSum(a) - MatSum(b)
  {
    forall i | 0 <= i < n
      ensures VecSum(c[i]) == VecSum(a[i]) - VecSum(b[i])
    {
      VecSumSub(a[i], b[i], c[i]);
    }
    VecSumSub(seq(n, i requires 0 <= i < n => VecSum(a[i])),
              seq(n, i requires 0 <= i < n => VecSum(b[i])),
              seq(n, i requires 0 <= i < n => VecSum(c[i])));
  }

  /** For every index `k` other than `r` and `s`, the entries of rows `r` and
      `s` and of columns `r` and `s` at `k` added up; zero at `r` and `s`. */
  function CrossPairs(e: seq<seq<int>>, n: nat, r: nat, s: nat): (v: seq<int>)
    requires Square(e, n) && r < n && s < n
    ensures |v| == n
  {
    seq(n, k requires 0 <= k < n => if k != r && k != s then e[r][k] + e[s][k] + e[k][r] + e[k][s] else 0)
  }

  /** The sum of a square matrix that is zero outside rows and columns `r` and
      `s` (r != s): the four corner entries plus, for every other index `k`,
      the two row entries and the two column entries at `k`. */
  lemma MatSumCross(e: seq<seq<int>>, n: nat, r: nat, s: nat)
    requires Square(e, n) && r < n && s < n && r != s
    requires forall i, k :: 0 <= i < n && 0 <= k < n && i != r && i != s && k != r && k != s ==> e[i][k] == 0
    ensures MatSum(e) == e[r][r] + e[r][s] + e[s][r] + e[s][s] + VecSum(CrossPairs(e, n, r, s))
  {
    var rows := seq(n, i requires 0 <= i < n => VecSum(e[i]));
    var rest := seq(n, k requires 0 <= k < n => if k != r && k != s then rows[k] else 0);
    VecSumTwo(rows, r, s);
    // every other row holds only its two entries in columns r and s
    var cols := seq(n, k requires 0 <= k < n => if k != r && k != s then e[k][r] + e[k][s] else 0);
    forall i | 0 <= i < n && i != r && i != s
      ensures rows[i] == e[i][r] + e[i][s]
    {
      VecSumTwo(e[i], r, s);
      VecSumZero(seq(n, k requires 0 <= k < n => if k != r && k != s then e[i][k] else 0));
    }
    assert rest == cols;
    // rows r and s
    var rowR := seq(n, k requires 0 <= k < n => if k != r && k != s then e[r][k] else 0);
    var rowS := seq(n, k requires 0 <= k < n => if k != r && k != s then e[s][k] else 0);
    VecSumTwo(e[r], r, s);
    VecSumTwo(e[s], r, s);
    var both := seq(n, k requires 0 <= k < n => if k != r && k != s then e[r][k] + e[s][k] else 0);
    VecSumAdd(rowR, rowS, both);
    VecSumAdd(both, cols, CrossPairs(e, n, r, s));
  }

  /** For every index other than `r` and `s`, the entries of rows `r` and `s`
      at that index added up; zero at `r` and `s`. */
  function RowPair(e: seq<seq<int>>, n: nat, r: nat, s: nat): (v: seq<int>)
    requires Square(e, n) && r < n && s < n
    ensures |v| == n
  {
    seq(n, k requires 0 <= k < n => if k != r && k != s then e[r][k] + e[s][k] else 0)
  }

  /** A square matrix confined to rows and columns `r` and `s`, zero at their
      crossings and reading the same along those rows as down those columns,
      sums to twice its two rows. */
  lemma MatSumSymmetricCross(e: seq<seq<int>>, n: nat, r: nat, s: nat)
    requires Square(e, n) && r < n && s < n && r != s
    requires forall i, k :: 0 <= i < n && 0 <= k < n && i != r && i != s && k != r && k != s ==> e[i][k] == 0
    requires e[r][r] == 0 && e[r][s] == 0 && e[s][r] == 0 && e[s][s] == 0
    requires forall k :: 0 <= k < n && k != r && k != s ==> e[k][r] == e[r][k] && e[k][s] == e[s][k]
    ensures MatSum(e) == 2 * VecSum(RowPair(e, n, r, s))
  {
    MatSumCross(e, n, r, s);
    var half := RowPair(e, n, r, s);
    var cross := CrossPairs(e, n, r, s);
    forall k | 0 <= k < n
      ensures cross[k] == 2 * half[k]
    {
    }
    VecSumDouble(half, cross);
  }

  /** The leading `m` by `m` block of an `n` by `n` matrix. */
  function Lead(e: seq<seq<int>>, n: nat, m: nat): (b: seq<seq<int>>)
    requires Square(e, n) && m <= n
    ensures Square(b, m)
  {
    seq(m, i requires 0 <= i < m => e[i][..m])
  }

  /** Column `m` of an `n` by `n` matrix above row `m`. */
  function ColumnAbove(e: seq<seq<int>>, n: nat, m: nat): (c: seq<int>)
    requires Square(e, n) && m < n
    ensures |c| == m
  {
    seq(m, i requires 0 <= i < m => e[i][m])
  }

  /** Growing the leading block by one adds the new column above the
      diagonal and the new row up to the diagonal. */
  lemma LeadStep(e: seq<seq<int>>, n: nat, m: nat)
    requires Square(e, n) && m < n
    ensures MatSum(Lead(e, n, m + 1)) == MatSum(Lead(e, n, m)) + VecSum(ColumnAbove(e, n, m)) + VecSum(e[m][..m + 1])
  {
    var big, small := Lead(e, n, m + 1), Lead(e, n, m);
    var bigRows := seq(m + 1, i requires 0 <= i < m + 1 => VecSum(big[i]));
    var smallRows := seq(m, i requires 0 <= i < m => VecSum(small[i]));
    forall i | 0 <= i < m
      ensures bigRows[i] == smallRows[i] + e[i][m]
    {
      VecSumPrefix(e[i], m);
      assert big[i] == e[i][..m + 1] && small[i] == e[i][..m];
    }
    VecSumAdd(smallRows, ColumnAbove(e, n, m), bigRows[..m]);
    assert MatSum(big) == VecSum(bigRows[..m]) + bigRows[m];
  }

  /** A symmetric matrix with a zero diagonal: every off-diagonal entry has
      an equal twin across the diagonal. */
  predicate SymmetricHollow(e: seq<seq<int>>, n: nat)
    requires Square(e, n)
  {
    && (forall i, k :: 0 <= i < n && 0 <= k < n ==> e[i][k] == e[k][i])
    && (forall i :: 0 <= i < n ==> e[i][i] == 0)
  }

  /** Every leading block of a symmetric matrix with a zero diagonal has an
      even sum. */
  lemma {:induction false} LeadSumEven(e: seq<seq<int>>, n: nat, m: nat)
    requires Square(e, n) && m <= n && SymmetricHollow(e, n)
    ensures MatSum(Lead(e, n, m)) % 2 == 0
    decreases m
  {
    if m == 0 {
      assert Lead(e, n, m) == [];
    } else {
      var k := m - 1;
      LeadSumEven(e, n, k);
      LeadStep(e, n, k);
      VecSumPrefix(e[k], k);
      assert ColumnAbove(e, n, k) == e[k][..k];
    }
  }

  /** A symmetric matrix with a zero diagonal has an even sum. */
  lemma MatSumEven(e: seq<seq<int>>, n: nat)
    requires Square(e, n) && SymmetricHollow(e, n)
    ensures MatSum(e) % 2 == 0
  {
    LeadSumEven(e, n, n);
    forall i | 0 <= i < n
      ensures Lead(e, n, n)[i] == e[i]
    {
      assert e[i][..n] == e[i];
    }
    assert Lead(e, n, n) == e;
  }

  /** `v` with the entries at positions `r` and `s` exchanged. */
  function Swap(v: seq<int>, r: nat, s: nat): (w: seq<int>)
    requires r < |v| && s < |v|
    ensures |w| == |v| && w[r] == v[s] && w[s] == v[r]
    ensures forall k :: 0 <= k < |v| && k != r && k != s ==> w[k] == v[k]
    ensures multiset(w) == multiset(v)
  {
    v[r := v[s]][s := v[r]]
  }

  /** Exchanging the same two positions twice gives the vector back. */
  lemma SwapTwice(v: seq<int>, r: nat, s: nat)
    requires r < |v| && s < |v|
    ensures Swap(Swap(v, r, s), r, s) == v
  {
  }

  /** `v` holds each of 0 .. n-1 exactly once. */
  predicate IsPermutation(v: seq<int>, n: nat)
  {
    |v| == n && multiset(v) == multiset(seq(n, i requires 0 <= i < n => i))
  }

  /** A permutation only holds values in range, so it can index rows of an
      `n`-row matrix. */
  lemma PermutationInRange(v: seq<int>, n: nat)
    requires IsPermutation(v, n)
    ensures forall k :: 0 <= k < |v| ==> 0 <= v[k] < n
  {
    var id := seq(n, i requires 0 <= i < n => i);
    forall k | 0 <= k < |v|
      ensures 0 <= v[k] < n
    {
      assert v[k] in multiset(v);
      assert v[k] in multiset(id);
      assert v[k] in id;
    }
  }
}
