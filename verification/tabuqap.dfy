/** The tabu search for the quadratic assignment problem in
    assignment3/src/tabuSearch.cpp and its earlier revision
    assignment3/src/tabuSearch.cc: the cost of a solution over adjacency
    lists, the change of cost of a swap, the tabu test, the bounded tabu
    deque, and one step of each phase of the search with its random choices
    passed in. */
module TabuQap {
  import opened Wrappers
  import opened Sums

  /** Which of the two source revisions is meant. */
  datatype Revision = Cc | Cpp

  /** `dimension_`, `flow_` and `adjacency_`. */
  datatype Problem = Problem(dimension: nat, flow: seq<seq<int>>, adjacency: map<int, seq<int>>)

  /** `adjacency_[i]`: `std::map::operator[]` yields an empty list for a
      missing key. */
  function Adj(p: Problem, i: int): seq<int>
  {
    if i in p.adjacency then p.adjacency[i] else []
  }

  /** Every entry of `l` is an index below `n`. */
  predicate InBounds(l: seq<int>, n: nat)
  {
    forall k :: 0 <= k < |l| ==> 0 <= l[k] < n
  }

  predicate ValidProblem(p: Problem)
  {
    Square(p.flow, p.dimension) && forall i :: 0 <= i < p.dimension ==> InBounds(Adj(p, i), p.dimension)
  }

  /** A solution places facility `i` at location `sol[i]`. */
  predicate Indexes(sol: seq<int>, n: nat)
  {
    |sol| == n && InBounds(sol, n)
  }

  /** Symmetric flow, no self-loops, and each facility listed among the
      neighbours of another as often as that one is listed among its own, as
      when every edge line of the input is stored from both ends: the shape
      under which the incremental cost is exact. */
  predicate Symmetric(p: Problem)
    requires ValidProblem(p)
  {
    var n := p.dimension;
    && (forall x, y :: 0 <= x < n && 0 <= y < n ==> p.flow[x][y] == p.flow[y][x])
    && (forall i :: 0 <= i < n ==> i !in Adj(p, i))
    && (forall i, k :: 0 <= i < n && 0 <= k < n ==> multiset(Adj(p, i))[k] == multiset(Adj(p, k))[i])
  }

  /** The sum of `v[k]` over the entries `k` of `l`, in list order. */
  function ListSum(l: seq<int>, v: seq<int>): int
    requires InBounds(l, |v|)
  {
    if |l| == 0 then 0 else ListSum(l[..|l| - 1], v) + v[l[|l| - 1]]
  }

  /** `v` weighted by how often each position is listed in `l`. */
  function Mask(l: seq<int>, v: seq<int>): (m: seq<int>)
    ensures |m| == |v|
  {
    seq(|v|, k requires 0 <= k < |v| => multiset(l)[k] * v[k])
  }

  /** Summing over a list of positions, repeats included, is summing the
      vector weighted by the positions' multiplicities. */
  lemma {:induction false} ListSumMask(l: seq<int>, v: seq<int>)
    requires InBounds(l, |v|)
    ensures ListSum(l, v) == VecSum(Mask(l, v))
    decreases |l|
  {
    if |l| == 0 {
      VecSumZero(Mask(l, v));
    } else {
      var init, x := l[..|l| - 1], l[|l| - 1];
      assert l == init + [x];
      ListSumMask(init, v);
      var point := seq(|v|, k requires 0 <= k < |v| => if k == x then v[x] else 0);
      forall k | 0 <= k < |v|
        ensures Mask(l, v)[k] == Mask(init, v)[k] + point[k]
      {
        var c := multiset(init)[k];
        if k == x {
          assert multiset(l)[k] == c + 1;
          MulSucc(c, v[k]);
        } else {
          assert multiset(l)[k] == c;
        }
      }
      VecSumAdd(Mask(init, v), point, Mask(l, v));
      VecSumPoint(point, x);
      VecSumZero(point[x := 0]);
    }
  }

  lemma MulSucc(c: int, a: int)
    ensures (c + 1) * a == c * a + a
  {
  }

  lemma MulSub(c: int, a: int, b: int)
    ensures c * a - c * b == c * (a - b)
  {
  }

  /** `flow_[sol[x]][sol[y]]`. */
  function Flow(p: Problem, sol: seq<int>, x: int, y: int): int
    requires ValidProblem(p) && Indexes(sol, p.dimension)
    requires 0 <= x < p.dimension && 0 <= y < p.dimension
  {
    p.flow[sol[x]][sol[y]]
  }

  /** The flows from facility `i` to every facility. */
  function Row(p: Problem, sol: seq<int>, i: int): (v: seq<int>)
    requires ValidProblem(p) && Indexes(sol, p.dimension) && 0 <= i < p.dimension
    ensures |v| == p.dimension
  {
    seq(p.dimension, k requires 0 <= k < p.dimension => Flow(p, sol, i, k))
  }

  /** The accumulated sum of `calculateCost` before halving: every adjacency
      is counted from both ends. */
  function RawCost(p: Problem, sol: seq<int>): int
    requires ValidProblem(p) && Indexes(sol, p.dimension)
  {
    VecSum(RowCosts(p, sol))
  }

  /** The inner loop's sum for each facility: the flows to its neighbours. */
  function RowCosts(p: Problem, sol: seq<int>): (c: seq<int>)
    requires ValidProblem(p) && Indexes(sol, p.dimension)
    ensures |c| == p.dimension
  {
    seq(p.dimension, i requires 0 <= i < p.dimension => ListSum(Adj(p, i), Row(p, sol, i)))
  }

  /** C++ `x / 2`: rounds toward zero. */
  function TruncHalf(x: int): (h: int)
    ensures x >= 0 ==> h == x / 2
    ensures x < 0 ==> h == -((-x) / 2)
  {
    if x >= 0 then x / 2 else -((-x) / 2)
  }

  /** `calculateCost`: half the raw sum, with `>> 1` (rounding down) in the
      later revision and `/ 2` (rounding toward zero) in the earlier one. The
      two differ only on odd negative sums (-1 halves to -1 and to 0), which
      a symmetric problem never produces. */
  function CalculateCost(rev: Revision, p: Problem, sol: seq<int>): (c: int)
    requires ValidProblem(p) && Indexes(sol, p.dimension)
    ensures rev == Cpp ==> 2 * c <= RawCost(p, sol) < 2 * c + 2
    ensures rev == Cc && RawCost(p, sol) >= 0 ==> 2 * c <= RawCost(p, sol) < 2 * c + 2
    ensures rev == Cc && RawCost(p, sol) < 0 ==> 2 * c - 2 < RawCost(p, sol) <= 2 * c
  {
    var raw := RawCost(p, sol);
    if rev == Cpp then raw / 2 else TruncHalf(raw)
  }

  /** What moving facility `x` to `y`'s location does to `x`'s terms: the
      change for each neighbour `k` other than `y`. */
  function Shift(p: Problem, sol: seq<int>, x: int, y: int): (v: seq<int>)
    requires ValidProblem(p) && Indexes(sol, p.dimension)
    requires 0 <= x < p.dimension && 0 <= y < p.dimension
    ensures |v| == p.dimension
  {
    seq(p.dimension, k requires 0 <= k < p.dimension =>
      if k != y then Flow(p, sol, y, k) - Flow(p, sol, x, k) else 0)
  }

  /** `moveCost`: the change of cost of swapping facilities `r` and `s`,
      summed over the neighbours of each. */
  function MoveCost(p: Problem, sol: seq<int>, r: int, s: int): (c: int)
    requires ValidProblem(p) && Indexes(sol, p.dimension)
    requires 0 <= r < p.dimension && 0 <= s < p.dimension
    ensures r == s ==> c == 0
  {
    assert r == s ==> ListSum(Adj(p, r), Shift(p, sol, r, s)) == 0 by {
      if r == s {
        ListSumZero(Adj(p, r), Shift(p, sol, r, s));
      }
    }
    ListSum(Adj(p, r), Shift(p, sol, r, s)) + ListSum(Adj(p, s), Shift(p, sol, s, r))
  }

  /** A list sum over an all-zero vector is zero. */
  lemma {:induction false} ListSumZero(l: seq<int>, v: seq<int>)
    requires InBounds(l, |v|)
    requires forall k :: 0 <= k < |v| ==> v[k] == 0
    ensures ListSum(l, v) == 0
    decreases |l|
  {
    if |l| > 0 {
      ListSumZero(l[..|l| - 1], v);
    }
  }

  /** The cost of a swap does not depend on the order of the pair. */
  lemma MoveCostSymmetric(p: Problem, sol: seq<int>, r: int, s: int)
    requires ValidProblem(p) && Indexes(sol, p.dimension)
    requires 0 <= r < p.dimension && 0 <= s < p.dimension
    ensures MoveCost(p, sol, r, s) == MoveCost(p, sol, s, r)
  {
  }

  /** The raw cost as a matrix: entry (i, k) is the flow between `i` and `k`
      when `k` is a neighbour of `i`. */
  function Weights(p: Problem, sol: seq<int>): (w: seq<seq<int>>)
    requires ValidProblem(p) && Indexes(sol, p.dimension)
    ensures Square(w, p.dimension)
  {
    seq(p.dimension, i requires 0 <= i < p.dimension => Mask(Adj(p, i), Row(p, sol, i)))
  }

  lemma RawCostWeights(p: Problem, sol: seq<int>)
    requires ValidProblem(p) && Indexes(sol, p.dimension)
    ensures RawCost(p, sol) == MatSum(Weights(p, sol))
  {
    var n, w := p.dimension, Weights(p, sol);
    var lists := RowCosts(p, sol);
    var rows := seq(|w|, i requires 0 <= i < |w| => VecSum(w[i]));
    assert MatSum(w) == VecSum(rows);
    forall i | 0 <= i < n
      ensures lists[i] == rows[i]
    {
      ListSumMask(Adj(p, i), Row(p, sol, i));
    }
    assert lists == rows;
  }

  /** The change of the weight matrix under the swap of `r` and `s`. */
  function SwapDiff(p: Problem, sol: seq<int>, r: int, s: int): (e: seq<seq<int>>)
    requires ValidProblem(p) && Indexes(sol, p.dimension)
    requires 0 <= r < p.dimension && 0 <= s < p.dimension
    ensures Square(e, p.dimension)
  {
    var n, wb, wa := p.dimension, Weights(p, Swap(sol, r, s)), Weights(p, sol);
    seq(n, i requires 0 <= i < n => seq(n, k requires 0 <= k < n => wb[i][k] - wa[i][k]))
  }

  /** The change of the weights is confined to rows and columns `r` and
      `s`. */
  lemma SwapDiffConfined(p: Problem, sol: seq<int>, r: int, s: int)
    requires ValidProblem(p) && Indexes(sol, p.dimension)
    requires 0 <= r < p.dimension && 0 <= s < p.dimension
    ensures var e, n := SwapDiff(p, sol, r, s), p.dimension;
      forall i, k :: 0 <= i < n && 0 <= k < n && i != r && i != s && k != r && k != s ==> e[i][k] == 0
  {
    var n, b := p.dimension, Swap(sol, r, s);
    var e := SwapDiff(p, sol, r, s);
    forall i, k | 0 <= i < n && 0 <= k < n && i != r && i != s && k != r && k != s
      ensures e[i][k] == 0
    {
      assert b[i] == sol[i] && b[k] == sol[k];
    }
  }

  /** For a symmetric problem the change vanishes where rows and columns `r`
      and `s` cross. */
  lemma SwapDiffCorners(p: Problem, sol: seq<int>, r: int, s: int)
    requires ValidProblem(p) && Indexes(sol, p.dimension) && Symmetric(p)
    requires 0 <= r < p.dimension && 0 <= s < p.dimension && r != s
    ensures var e := SwapDiff(p, sol, r, s);
      e[r][r] == 0 && e[r][s] == 0 && e[s][r] == 0 && e[s][s] == 0
  {
    assert r !in Adj(p, r) && s !in Adj(p, s);
    assert p.flow[sol[r]][sol[s]] == p.flow[sol[s]][sol[r]];
  }

  /** For a symmetric problem the change reads the same along rows `r` and
      `s` as down columns `r` and `s`. */
  lemma SwapDiffMirrored(p: Problem, sol: seq<int>, r: int, s: int)
    requires ValidProblem(p) && Indexes(sol, p.dimension) && Symmetric(p)
    requires 0 <= r < p.dimension && 0 <= s < p.dimension && r != s
    ensures var e, n := SwapDiff(p, sol, r, s), p.dimension;
      forall k :: 0 <= k < n && k != r && k != s ==> e[k][r] == e[r][k] && e[k][s] == e[s][k]
  {
    var n, e := p.dimension, SwapDiff(p, sol, r, s);
    forall k | 0 <= k < n && k != r && k != s
      ensures e[k][r] == e[r][k] && e[k][s] == e[s][k]
    {
      MirrorEntry(p, sol, r, s, r, k);
      MirrorEntry(p, sol, r, s, s, k);
    }
  }

  /** Under symmetry the change of row `x` (one of `r` and `s`) at `k`
      equals the change of row `k` at `x`. */
  lemma MirrorEntry(p: Problem, sol: seq<int>, r: int, s: int, x: int, k: int)
    requires ValidProblem(p) && Indexes(sol, p.dimension) && Symmetric(p)
    requires 0 <= r < p.dimension && 0 <= s < p.dimension && r != s && (x == r || x == s)
    requires 0 <= k < p.dimension && k != r && k != s
    ensures SwapDiff(p, sol, r, s)[k][x] == SwapDiff(p, sol, r, s)[x][k]
  {
    var b := Swap(sol, r, s);
    assert b[k] == sol[k];
    assert multiset(Adj(p, k))[x] == multiset(Adj(p, x))[k];
    assert p.flow[b[k]][b[x]] == p.flow[b[x]][b[k]];
    assert p.flow[sol[k]][sol[x]] == p.flow[sol[x]][sol[k]];
  }

  /** Away from the swapped pair, the change of row `x` (one of `r` and
      `s`, `y` being the other) is `x`'s weighted shift. */
  lemma DiffRowEntry(p: Problem, sol: seq<int>, r: int, s: int, x: int, y: int, k: int)
    requires ValidProblem(p) && Indexes(sol, p.dimension)
    requires 0 <= r < p.dimension && 0 <= s < p.dimension && r != s
    requires (x == r && y == s) || (x == s && y == r)
    requires 0 <= k < p.dimension && k != r && k != s
    ensures SwapDiff(p, sol, r, s)[x][k] == Mask(Adj(p, x), Shift(p, sol, x, y))[k]
  {
    var b := Swap(sol, r, s);
    assert b[k] == sol[k] && b[x] == sol[y];
    MulSub(multiset(Adj(p, x))[k], Flow(p, sol, y, k), Flow(p, sol, x, k));
  }

  /** The move cost reads the change of the swapped facilities' rows. */
  lemma MoveCostRows(p: Problem, sol: seq<int>, r: int, s: int)
    requires ValidProblem(p) && Indexes(sol, p.dimension) && Symmetric(p)
    requires 0 <= r < p.dimension && 0 <= s < p.dimension && r != s
    ensures MoveCost(p, sol, r, s) == VecSum(RowPair(SwapDiff(p, sol, r, s), p.dimension, r, s))
  {
    var n := p.dimension;
    var mr, ms := Mask(Adj(p, r), Shift(p, sol, r, s)), Mask(Adj(p, s), Shift(p, sol, s, r));
    ListSumMask(Adj(p, r), Shift(p, sol, r, s));
    ListSumMask(Adj(p, s), Shift(p, sol, s, r));
    var both := RowPair(SwapDiff(p, sol, r, s), n, r, s);
    forall k | 0 <= k < n
      ensures both[k] == mr[k] + ms[k]
    {
      RowPairEntry(p, sol, r, s, k);
    }
    VecSumAdd(mr, ms, both);
  }

  /** One entry of the sum of the two changed rows: the two weighted shifts
      at that entry. */
  lemma RowPairEntry(p: Problem, sol: seq<int>, r: int, s: int, k: int)
    requires ValidProblem(p) && Indexes(sol, p.dimension) && Symmetric(p)
    requires 0 <= r < p.dimension && 0 <= s < p.dimension && r != s && 0 <= k < p.dimension
    ensures RowPair(SwapDiff(p, sol, r, s), p.dimension, r, s)[k]
            == Mask(Adj(p, r), Shift(p, sol, r, s))[k] + Mask(Adj(p, s), Shift(p, sol, s, r))[k]
  {
    if k != r && k != s {
      DiffRowEntry(p, sol, r, s, r, s, k);
      DiffRowEntry(p, sol, r, s, s, r, k);
    } else if k == r {
      assert multiset(Adj(p, r))[k] == 0;
    } else {
      assert multiset(Adj(p, s))[k] == 0;
    }
  }

  /** The change of the raw sum is the sum of the change of the weights. */
  lemma RawCostDiff(p: Problem, sol: seq<int>, r: int, s: int)
    requires ValidProblem(p) && Indexes(sol, p.dimension) && Symmetric(p)
    requires 0 <= r < p.dimension && 0 <= s < p.dimension
    ensures Indexes(Swap(sol, r, s), p.dimension)
    ensures RawCost(p, Swap(sol, r, s)) == RawCost(p, sol) + MatSum(SwapDiff(p, sol, r, s))
  {
    var b := Swap(sol, r, s);
    RawCostWeights(p, sol);
    RawCostWeights(p, b);
    MatSumSub(Weights(p, b), Weights(p, sol), SwapDiff(p, sol, r, s), p.dimension);
  }

  /** The change of the weights sums to twice the move cost. */
  lemma SwapDiffDouble(p: Problem, sol: seq<int>, r: int, s: int)
    requires ValidProblem(p) && Indexes(sol, p.dimension) && Symmetric(p)
    requires 0 <= r < p.dimension && 0 <= s < p.dimension && r != s
    ensures MatSum(SwapDiff(p, sol, r, s)) == 2 * MoveCost(p, sol, r, s)
  {
    SwapDiffConfined(p, sol, r, s);
    SwapDiffCorners(p, sol, r, s);
    SwapDiffMirrored(p, sol, r, s);
    MatSumSymmetricCross(SwapDiff(p, sol, r, s), p.dimension, r, s);
    MoveCostRows(p, sol, r, s);
  }

  /** Under symmetry the raw sum changes by exactly twice the move cost. */
  lemma RawCostSwap(p: Problem, sol: seq<int>, r: int, s: int)
    requires ValidProblem(p) && Indexes(sol, p.dimension) && Symmetric(p)
    requires 0 <= r < p.dimension && 0 <= s < p.dimension
    ensures Indexes(Swap(sol, r, s), p.dimension)
    ensures RawCost(p, Swap(sol, r, s)) == RawCost(p, sol) + 2 * MoveCost(p, sol, r, s)
  {
    if r == s {
      assert Swap(sol, r, s) == sol;
    } else {
      RawCostDiff(p, sol, r, s);
      SwapDiffDouble(p, sol, r, s);
    }
  }

  /** Under symmetry the weight matrix reads the same across its diagonal
      and is zero on it. */
  lemma WeightsSymmetricHollow(p: Problem, sol: seq<int>)
    requires ValidProblem(p) && Indexes(sol, p.dimension) && Symmetric(p)
    ensures SymmetricHollow(Weights(p, sol), p.dimension)
  {
    var n, w := p.dimension, Weights(p, sol);
    forall i, k | 0 <= i < n && 0 <= k < n
      ensures w[i][k] == w[k][i]
    {
      assert k in Adj(p, i) <==> i in Adj(p, k);
      assert p.flow[sol[i]][sol[k]] == p.flow[sol[k]][sol[i]];
    }
  }

  /** Under symmetry every flow is counted once from each end, so the raw
      sum is even, whatever the sign of the flows. */
  lemma RawCostEven(p: Problem, sol: seq<int>)
    requires ValidProblem(p) && Indexes(sol, p.dimension) && Symmetric(p)
    ensures RawCost(p, sol) % 2 == 0
  {
    RawCostWeights(p, sol);
    WeightsSymmetricHollow(p, sol);
    MatSumEven(Weights(p, sol), p.dimension);
  }

  /** On a symmetric problem the two revisions' halvings agree, since the
      raw sum they halve is even. */
  lemma HalvingsAgree(p: Problem, sol: seq<int>)
    requires ValidProblem(p) && Indexes(sol, p.dimension) && Symmetric(p)
    ensures CalculateCost(Cc, p, sol) == CalculateCost(Cpp, p, sol)
    ensures 2 * CalculateCost(Cpp, p, sol) == RawCost(p, sol)
  {
    RawCostEven(p, sol);
  }

  /** The identity the search relies on when it sets the cost of a chosen
      neighbour to the current cost plus the move cost: exact for both
      revisions on every symmetric problem. */
  lemma CostAfterSwap(rev: Revision, p: Problem, sol: seq<int>, r: int, s: int)
    requires ValidProblem(p) && Indexes(sol, p.dimension) && Symmetric(p)
    requires 0 <= r < p.dimension && 0 <= s < p.dimension
    ensures Indexes(Swap(sol, r, s), p.dimension)
    ensures CalculateCost(rev, p, Swap(sol, r, s)) == CalculateCost(rev, p, sol) + MoveCost(p, sol, r, s)
  {
    RawCostSwap(p, sol, r, s);
    HalvingsAgree(p, sol);
    HalvingsAgree(p, Swap(sol, r, s));
  }

  /** `TabuMove`: the swapped facilities `i` and `j` and the locations
      `posI` and `posJ` they hold after the swap. */
  datatype TabuMove = TabuMove(i: int, j: int, posI: int, posJ: int)

  /** One entry forbids the swap of `r` and `s` when it names one of them
      at the location that facility holds now. */
  predicate Forbids(m: TabuMove, r: int, s: int, sol: seq<int>)
    requires 0 <= r < |sol| && 0 <= s < |sol|
  {
    || (m.i == r && m.posI == sol[r])
    || (m.i == s && m.posI == sol[s])
    || (m.j == r && m.posJ == sol[r])
    || (m.j == s && m.posJ == sol[s])
  }

  /** `checkMove`: scan the tabu list front to back and refuse at the
      first entry that forbids the swap. */
  method CheckMove(tabu: seq<TabuMove>, r: int, s: int, sol: seq<int>) returns (allowed: bool)
    requires 0 <= r < |sol| && 0 <= s < |sol|
    ensures allowed <==> forall n :: 0 <= n < |tabu| ==> !Forbids(tabu[n], r, s, sol)
  {
    var n := 0;
    while n < |tabu|
      invariant 0 <= n <= |tabu|
      invariant forall m :: 0 <= m < n ==> !Forbids(tabu[m], r, s, sol)
    {
      if tabu[n].i == r && tabu[n].posI == sol[r] {
        return false;
      }
      if tabu[n].i == s && tabu[n].posI == sol[s] {
        return false;
      }
      if tabu[n].j == r && tabu[n].posJ == sol[r] {
        return false;
      }
      if tabu[n].j == s && tabu[n].posJ == sol[s] {
        return false;
      }
      n := n + 1;
    }
    return true;
  }

  /** The tabu test as a value, for use in the step functions. */
  predicate Allowed(tabu: seq<TabuMove>, r: int, s: int, sol: seq<int>)
    requires 0 <= r < |sol| && 0 <= s < |sol|
  {
    forall n :: 0 <= n < |tabu| ==> !Forbids(tabu[n], r, s, sol)
  }

  /** `tabuLength`: a tenth of the dimension above 750 facilities and a
      twentieth otherwise in the later revision, always a tenth in the
      earlier one. */
  function TabuLength(rev: Revision, dimension: nat): (len: nat)
    ensures len <= dimension
    ensures rev == Cc || dimension > 750 ==> len * 10 <= dimension < len * 10 + 10
    ensures rev == Cpp && dimension <= 750 ==> len * 20 <= dimension < len * 20 + 20
  {
    if rev == Cpp && dimension <= 750 then dimension / 20 else dimension / 10
  }

  /** Append the move at the back, then drop one from the front when the
      deque is longer than `len`. */
  function AddTabu(tabu: seq<TabuMove>, m: TabuMove, len: nat): (r: seq<TabuMove>)
    ensures |tabu| <= len ==> |r| <= len
    ensures |tabu| <= |r| <= |tabu| + 1
    ensures r == (tabu + [m])[|tabu| + 1 - |r|..]
    ensures len >= 1 ==> |r| > 0 && r[|r| - 1] == m
    ensures |tabu| < len ==> r == tabu + [m]
    ensures |tabu| >= len ==> |r| == |tabu|
  {
    var grown := tabu + [m];
    if |grown| > len then grown[1..] else grown
  }

  /** A neighbour in the order the priority queue yields them: smallest
      cost first. */
  datatype Neighbour = Neighbour(r: int, s: int, cost: int)

  /** Whether the search accepts the `k`-th neighbour popped: the first is
      accepted when not tabu or when it beats the best cost (aspiration);
      later ones only when not tabu and their cost differs from the current
      one. */
  predicate Admissible(queue: seq<Neighbour>, k: nat, tabu: seq<TabuMove>, sol: seq<int>, best: int, current: int)
    requires k < |queue|
    requires forall m :: 0 <= m < |queue| ==> 0 <= queue[m].r < |sol| && 0 <= queue[m].s < |sol|
  {
    if k == 0 then Allowed(tabu, queue[0].r, queue[0].s, sol) || queue[0].cost < best
    else queue[k].cost != current && Allowed(tabu, queue[k].r, queue[k].s, sol)
  }

  /** The selection of a neighbour: pop until one is accepted, or report
      that none was, in which case the search draws a new neighbourhood. */
  function SelectMove(queue: seq<Neighbour>, tabu: seq<TabuMove>, sol: seq<int>, best: int, current: int): (r: Option<nat>)
    requires |queue| > 0
    requires forall m :: 0 <= m < |queue| ==> 0 <= queue[m].r < |sol| && 0 <= queue[m].s < |sol|
    ensures r.Some? ==> r.value < |queue| && Admissible(queue, r.value, tabu, sol, best, current)
    ensures r.Some? ==> forall m :: 0 <= m < r.value ==> !Admissible(queue, m, tabu, sol, best, current)
    ensures r.None? ==> forall m :: 0 <= m < |queue| ==> !Admissible(queue, m, tabu, sol, best, current)
  {
    if Admissible(queue, 0, tabu, sol, best, current) then Some(0)
    else SelectFrom(queue, 1, tabu, sol, best, current)
  }

  /** The popping loop from position `k` on. */
  function SelectFrom(queue: seq<Neighbour>, k: nat, tabu: seq<TabuMove>, sol: seq<int>, best: int, current: int): (r: Option<nat>)
    requires 0 < k <= |queue|
    requires forall m :: 0 <= m < |queue| ==> 0 <= queue[m].r < |sol| && 0 <= queue[m].s < |sol|
    ensures r.Some? ==> k <= r.value < |queue| && Admissible(queue, r.value, tabu, sol, best, current)
    ensures r.Some? ==> forall m :: k <= m < r.value ==> !Admissible(queue, m, tabu, sol, best, current)
    ensures r.None? ==> forall m :: k <= m < |queue| ==> !Admissible(queue, m, tabu, sol, best, current)
    decreases |queue| - k
  {
    if k == |queue| then None
    else if queue[k].cost != current && Allowed(tabu, queue[k].r, queue[k].s, sol) then Some(k)
    else SelectFrom(queue, k + 1, tabu, sol, best, current)
  }

  /** The variables of `execute` that survive from one iteration to the
      next. */
  datatype SearchState = SearchState(
    solution: seq<int>,     // solution_
    cost: int,              // cost_
    current: seq<int>,      // currentSolution
    currentCost: int,       // currentCost
    tabu: seq<TabuMove>,    // tabuList_
    fails: nat,
    isTabu: bool)

  /** The number of failures after which the tabu phase hands over to the
      descent: `maxFails_` in the later revision, a hard-coded 2500 in the
      earlier one. */
  function FailLimit(rev: Revision, maxFails: int): int
  {
    if rev == Cc then 2500 else maxFails
  }

  /** Both solutions are permutations of the facilities. */
  predicate Permutations(p: Problem, st: SearchState)
  {
    IsPermutation(st.solution, p.dimension) && IsPermutation(st.current, p.dimension)
  }

  /** The cached costs are the costs of the solutions they belong to. */
  predicate CostsConsistent(rev: Revision, p: Problem, st: SearchState)
    requires ValidProblem(p)
  {
    && Indexes(st.solution, p.dimension) && Indexes(st.current, p.dimension)
    && st.cost == CalculateCost(rev, p, st.solution)
    && st.currentCost == CalculateCost(rev, p, st.current)
  }

  /** A permutation indexes the matrices. */
  lemma PermutationIndexes(v: seq<int>, n: nat)
    requires IsPermutation(v, n)
    ensures Indexes(v, n)
  {
    PermutationInRange(v, n);
  }

  /** The tabu phase after neighbour `nb` was selected: jump to it, keep it
      when it beats the best, record the move, and count a failure when
      there was no improvement, handing over to the descent at the limit. */
  function TabuStep(rev: Revision, p: Problem, st: SearchState, nb: Neighbour, maxFails: int): (r: SearchState)
    requires ValidProblem(p) && Indexes(st.current, p.dimension)
    requires 0 <= nb.r < p.dimension && 0 <= nb.s < p.dimension
    ensures r.cost < st.cost || (r.cost == st.cost && r.solution == st.solution)
    ensures r.cost < st.cost ==> r.fails == 0 && r.isTabu && r.solution == Swap(st.current, nb.r, nb.s)
    ensures nb.cost < st.cost ==> r.cost == nb.cost
    ensures r.tabu == AddTabu(st.tabu, TabuMove(nb.r, nb.s, st.current[nb.s], st.current[nb.r]), TabuLength(rev, p.dimension))
    ensures r.isTabu ==> r.current == Swap(st.current, nb.r, nb.s) && r.currentCost == nb.cost
    ensures !r.isTabu ==> r.current == r.solution && r.currentCost == r.cost
    ensures nb.cost >= st.cost ==> r.cost == st.cost && r.solution == st.solution
    ensures nb.cost >= st.cost ==> (!r.isTabu <==> st.fails + 1 == FailLimit(rev, maxFails))
    ensures r.isTabu && nb.cost >= st.cost ==> r.fails == st.fails + 1
    ensures !r.isTabu ==> r.fails == (if rev == Cpp then 0 else st.fails + 1)
    ensures |st.tabu| <= TabuLength(rev, p.dimension) ==> |r.tabu| <= TabuLength(rev, p.dimension)
    ensures Permutations(p, st) ==> Permutations(p, r)
  {
    var current := Swap(st.current, nb.r, nb.s);
    var currentCost := nb.cost;
    var improvement := currentCost < st.cost;
    var solution := if improvement then current else st.solution;
    var cost := if improvement then currentCost else st.cost;
    var move := TabuMove(nb.r, nb.s, current[nb.r], current[nb.s]);
    var tabu := AddTabu(st.tabu, move, TabuLength(rev, p.dimension));
    Next(rev, solution, cost, current, currentCost, tabu, st.fails, improvement, maxFails)
  }

  /** When the selected neighbour was priced as the current cost plus its
      move cost, a tabu step keeps both cached costs exact. */
  lemma TabuStepKeepsCosts(rev: Revision, p: Problem, st: SearchState, nb: Neighbour, maxFails: int)
    requires ValidProblem(p) && Symmetric(p)
    requires CostsConsistent(rev, p, st)
    requires 0 <= nb.r < p.dimension && 0 <= nb.s < p.dimension
    requires nb.cost == st.currentCost + MoveCost(p, st.current, nb.r, nb.s)
    ensures CostsConsistent(rev, p, TabuStep(rev, p, st, nb, maxFails))
  {
    CostAfterSwap(rev, p, st.current, nb.r, nb.s);
  }

  /** The failure bookkeeping at the end of a tabu step. */
  function Next(rev: Revision, solution: seq<int>, cost: int, current: seq<int>, currentCost: int,
                tabu: seq<TabuMove>, fails: nat, improvement: bool, maxFails: int): (r: SearchState)
    ensures r.solution == solution && r.cost == cost && r.tabu == tabu
    ensures improvement ==> r == SearchState(solution, cost, current, currentCost, tabu, 0, true)
    ensures (r.current == current && r.currentCost == currentCost)
            || (r.current == solution && r.currentCost == cost && !r.isTabu)
    ensures !improvement ==> (!r.isTabu <==> fails + 1 == FailLimit(rev, maxFails))
    ensures r.isTabu ==> r.current == current && r.currentCost == currentCost
    ensures r.isTabu ==> r.fails == (if improvement then 0 else fails + 1)
    ensures !r.isTabu ==> r.current == solution && r.currentCost == cost
    ensures !r.isTabu && rev == Cpp ==> r.fails == 0
  {
    if improvement then SearchState(solution, cost, current, currentCost, tabu, 0, true)
    else if fails + 1 == FailLimit(rev, maxFails) then
      SearchState(solution, cost, solution, cost, tabu, if rev == Cpp then 0 else fails + 1, false)
    else SearchState(solution, cost, current, currentCost, tabu, fails + 1, true)
  }

  /** The descent phase for the drawn pair `r`, `s`: price the swap from the
      best cost, and take it when it does not make things worse (later
      revision) or when it strictly improves (earlier revision). */
  function DescentStep(rev: Revision, p: Problem, st: SearchState, r: int, s: int): (q: SearchState)
    requires ValidProblem(p) && Indexes(st.current, p.dimension)
    requires 0 <= r < p.dimension && 0 <= s < p.dimension
    ensures q.cost <= st.cost
    ensures rev == Cc ==> q.cost < st.cost || (q.solution == st.solution && q.cost == st.cost)
    ensures q.tabu == st.tabu && q.isTabu == st.isTabu && q.fails == st.fails
    ensures Permutations(p, st) ==> Permutations(p, q)
    ensures st.current == st.solution ==> q.current == q.solution
    ensures var m := MoveCost(p, st.current, r, s);
      var take := if rev == Cpp then m <= 0 else m < 0;
      && (take ==> q.solution == Swap(st.current, r, s) && q.current == q.solution && q.cost == st.cost + m)
      && (!take ==> q.solution == st.solution && q.current == st.current && q.cost == st.cost)
  {
    var currentCost := st.cost + MoveCost(p, st.current, r, s);
    var accept := if rev == Cpp then currentCost <= st.cost else currentCost < st.cost;
    if accept then
      var current := Swap(st.current, r, s);
      st.(solution := current, cost := currentCost, current := current, currentCost := currentCost)
    else
      st.(currentCost := currentCost)
  }

  /** In the descent the current solution is the best one; priced from the
      best cost, an accepted swap keeps the best cost exact. */
  lemma DescentStepKeepsCost(rev: Revision, p: Problem, st: SearchState, r: int, s: int)
    requires ValidProblem(p) && Symmetric(p)
    requires Indexes(st.solution, p.dimension) && st.current == st.solution
    requires st.cost == CalculateCost(rev, p, st.solution)
    requires 0 <= r < p.dimension && 0 <= s < p.dimension
    ensures var q := DescentStep(rev, p, st, r, s);
      Indexes(q.solution, p.dimension) && q.cost == CalculateCost(rev, p, q.solution)
  {
    CostAfterSwap(rev, p, st.current, r, s);
  }
}
