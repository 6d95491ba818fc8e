/** The quadratic-assignment solution node of assignment3/src/ILS.cc: an
    assignment of each facility (index) to a location (value), its objective
    value, the O(n) swap delta, and the deterministic pieces of the iterated
    local search around it. */
module Ils {
  import opened Wrappers
  import opened Sums
  import opened Sorting

  /** The globals `NUMBER_OBJECTS`, `FLOW` and `DISTANCE`. */
  datatype Instance = Instance(n: nat, flow: seq<seq<int>>, distance: seq<seq<int>>)

  predicate ValidInstance(inst: Instance)
  {
    Square(inst.flow, inst.n) && Square(inst.distance, inst.n)
  }

  /** Every facility is assigned a location that indexes the matrices. */
  predicate InRange(a: seq<int>, n: nat)
  {
    |a| == n && forall k :: 0 <= k < n ==> 0 <= a[k] < n
  }

  /** `FLOW[i][j] * DISTANCE[a[i]][a[j]]` for every pair of facilities. */
  function Terms(inst: Instance, a: seq<int>): (t: seq<seq<int>>)
    requires ValidInstance(inst) && InRange(a, inst.n)
    ensures Square(t, inst.n)
  {
    seq(inst.n, i requires 0 <= i < inst.n =>
      seq(inst.n, j requires 0 <= j < inst.n => inst.flow[i][j] * inst.distance[a[i]][a[j]]))
  }

  /** The QAP objective: the sum of flow times distance over all pairs. */
  function Objective(inst: Instance, a: seq<int>): int
    requires ValidInstance(inst) && InRange(a, inst.n)
  {
    MatSum(Terms(inst, a))
  }

  /** A solution: its assignments and the value it believes it has. */
  datatype QNode = QNode(assignments: seq<int>, value: int)

  /** The node's cached value is its objective. */
  predicate Consistent(inst: Instance, q: QNode)
    requires ValidInstance(inst)
  {
    InRange(q.assignments, inst.n) && q.value == Objective(inst, q.assignments)
  }

  /** `QNode::calculateValue`: the two nested loops. */
  method CalculateValue(inst: Instance, a: seq<int>) returns (value: int)
    requires ValidInstance(inst) && InRange(a, inst.n)
    ensures value == Objective(inst, a)
  {
    var n := inst.n;
    ghost var t := Terms(inst, a);
    ghost var rows := seq(n, i requires 0 <= i < n => VecSum(t[i]));
    value := 0;
    var i := 0;
    while i < n
      invariant 0 <= i <= n
      invariant value == VecSum(rows[..i])
    {
      var locI := a[i];
      var j := 0;
      while j < n
        invariant 0 <= j <= n
        invariant value == VecSum(rows[..i]) + VecSum(t[i][..j])
      {
        var locJ := a[j];
        var distance := inst.distance[locI][locJ];
        var flow := inst.flow[i][j];
        var vv := distance * flow;
        VecSumPrefix(t[i], j);
        value := value + vv;
        j := j + 1;
      }
      assert t[i][..n] == t[i];
      VecSumPrefix(rows, i);
      i := i + 1;
    }
    assert rows[..n] == rows;
  }

  /** The sum of the other facilities' contributions to a swap of `r` and
      `s`, one term per facility `k`, zero for `k` = `r` or `s`. */
  function SwapRest(inst: Instance, a: seq<int>, r: nat, s: nat): seq<int>
    requires ValidInstance(inst) && InRange(a, inst.n) && r < inst.n && s < inst.n
  {
    var F, D, lr, ls := inst.flow, inst.distance, a[r], a[s];
    seq(inst.n, k requires 0 <= k < inst.n =>
      if k != r && k != s then
        F[k][r] * (D[a[k]][ls] - D[a[k]][lr]) + F[k][s] * (D[a[k]][lr] - D[a[k]][ls])
        + F[r][k] * (D[ls][a[k]] - D[lr][a[k]]) + F[s][k] * (D[lr][a[k]] - D[ls][a[k]])
      else 0)
  }

  /** `QNode::calculateValueSwap`: the change of objective when facilities
      `r` and `s` exchange locations, from the four entries of rows and
      columns `r` and `s` plus one term per other facility. */
  function SwapDelta(inst: Instance, a: seq<int>, r: nat, s: nat): (d: int)
    requires ValidInstance(inst) && InRange(a, inst.n) && r < inst.n && s < inst.n
    ensures r == s ==> d == 0
  {
    var rest := SwapRest(inst, a, r, s);
    assert r == s ==> VecSum(rest) == 0 by {
      if r == s {
        VecSumZero(rest);
      }
    }
    Corners(inst, r, s, a[r], a[s]) + VecSum(rest)
  }

  /** The four terms of the delta at the crossings of rows and columns `r`
      and `s`, when `r` moves from location `lr` to `ls` and `s` the other
      way. */
  function Corners(inst: Instance, r: nat, s: nat, lr: nat, ls: nat): int
    requires ValidInstance(inst) && r < inst.n && s < inst.n && lr < inst.n && ls < inst.n
  {
    var F, D := inst.flow, inst.distance;
    F[r][r] * (D[ls][ls] - D[lr][lr]) + F[r][s] * (D[ls][lr] - D[lr][ls])
    + F[s][r] * (D[lr][ls] - D[ls][lr]) + F[s][s] * (D[lr][lr] - D[ls][ls])
  }

  /** Moving the two facilities back negates the corner terms. */
  lemma CornersAntisymmetric(inst: Instance, r: nat, s: nat, lr: nat, ls: nat)
    requires ValidInstance(inst) && r < inst.n && s < inst.n && lr < inst.n && ls < inst.n
    ensures Corners(inst, r, s, ls, lr) == -Corners(inst, r, s, lr, ls)
  {
    var F, D := inst.flow, inst.distance;
    NegateProduct(F[r][r], D[ls][ls] - D[lr][lr]);
    NegateProduct(F[r][s], D[ls][lr] - D[lr][ls]);
    NegateProduct(F[s][r], D[lr][ls] - D[ls][lr]);
    NegateProduct(F[s][s], D[lr][lr] - D[ls][ls]);
  }

  lemma NegateProduct(f: int, d: int)
    ensures f * -d == -(f * d)
  {
  }

  /** The entry-wise change of the terms from assignment `a` to `b`. */
  function Diff(inst: Instance, a: seq<int>, b: seq<int>): (e: seq<seq<int>>)
    requires ValidInstance(inst) && InRange(a, inst.n) && InRange(b, inst.n)
    ensures Square(e, inst.n)
  {
    var F, D := inst.flow, inst.distance;
    seq(inst.n, i requires 0 <= i < inst.n =>
      seq(inst.n, j requires 0 <= j < inst.n => F[i][j] * (D[b[i]][b[j]] - D[a[i]][a[j]])))
  }

  /** The change of the terms sums to the change of the objective. */
  lemma DiffSum(inst: Instance, a: seq<int>, b: seq<int>)
    requires ValidInstance(inst) && InRange(a, inst.n) && InRange(b, inst.n)
    ensures MatSum(Diff(inst, a, b)) == Objective(inst, b) - Objective(inst, a)
  {
    var n, F, D := inst.n, inst.flow, inst.distance;
    var e, tb, ta := Diff(inst, a, b), Terms(inst, b), Terms(inst, a);
    forall i, j | 0 <= i < n && 0 <= j < n
      ensures e[i][j] == tb[i][j] - ta[i][j]
    {
      assert F[i][j] * (D[b[i]][b[j]] - D[a[i]][a[j]]) == F[i][j] * D[b[i]][b[j]] - F[i][j] * D[a[i]][a[j]];
    }
    MatSumSub(tb, ta, e, n);
  }

  /** For two distinct facilities, the change of the terms is confined to
      their rows and columns and sums to the delta. */
  lemma SwapDiffSum(inst: Instance, a: seq<int>, r: nat, s: nat)
    requires ValidInstance(inst) && InRange(a, inst.n) && r < inst.n && s < inst.n && r != s
    ensures InRange(Swap(a, r, s), inst.n)
    ensures MatSum(Diff(inst, a, Swap(a, r, s))) == SwapDelta(inst, a, r, s)
  {
    var e := Diff(inst, a, Swap(a, r, s));
    DiffConfined(inst, a, r, s);
    MatSumCross(e, inst.n, r, s);
    DiffCorners(inst, a, r, s);
    DiffCross(inst, a, r, s);
  }

  /** Outside rows and columns `r` and `s` a swap changes no term. */
  lemma DiffConfined(inst: Instance, a: seq<int>, r: nat, s: nat)
    requires ValidInstance(inst) && InRange(a, inst.n) && r < inst.n && s < inst.n
    ensures InRange(Swap(a, r, s), inst.n)
    ensures var e, n := Diff(inst, a, Swap(a, r, s)), inst.n;
            forall i, k :: 0 <= i < n && 0 <= k < n && i != r && i != s && k != r && k != s ==> e[i][k] == 0
  {
    var n, b := inst.n, Swap(a, r, s);
    var e := Diff(inst, a, b);
    forall i, k | 0 <= i < n && 0 <= k < n && i != r && i != s && k != r && k != s
      ensures e[i][k] == 0
    {
      assert b[i] == a[i] && b[k] == a[k];
    }
  }

  /** The change at the four crossings is the delta's corner terms. */
  lemma DiffCorners(inst: Instance, a: seq<int>, r: nat, s: nat)
    requires ValidInstance(inst) && InRange(a, inst.n) && r < inst.n && s < inst.n && r != s
    ensures InRange(Swap(a, r, s), inst.n)
    ensures var e := Diff(inst, a, Swap(a, r, s));
            e[r][r] + e[r][s] + e[s][r] + e[s][s] == Corners(inst, r, s, a[r], a[s])
  {
    var b := Swap(a, r, s);
    assert b[r] == a[s] && b[s] == a[r];
  }

  /** The change along the two rows and columns, index by index, is the
      delta's per-facility terms. */
  lemma DiffCross(inst: Instance, a: seq<int>, r: nat, s: nat)
    requires ValidInstance(inst) && InRange(a, inst.n) && r < inst.n && s < inst.n && r != s
    ensures InRange(Swap(a, r, s), inst.n)
    ensures CrossPairs(Diff(inst, a, Swap(a, r, s)), inst.n, r, s) == SwapRest(inst, a, r, s)
  {
    var n, b := inst.n, Swap(a, r, s);
    var cross, rest := CrossPairs(Diff(inst, a, b), n, r, s), SwapRest(inst, a, r, s);
    forall k | 0 <= k < n
      ensures cross[k] == rest[k]
    {
      if k != r && k != s {
        assert b[k] == a[k] && b[r] == a[s] && b[s] == a[r];
      }
    }
  }

  /** The delta is exact: it is the objective after the swap minus the
      objective before, for any two facilities and any matrices. */
  lemma SwapDeltaExact(inst: Instance, a: seq<int>, r: nat, s: nat)
    requires ValidInstance(inst) && InRange(a, inst.n) && r < inst.n && s < inst.n
    ensures InRange(Swap(a, r, s), inst.n)
    ensures Objective(inst, Swap(a, r, s)) == Objective(inst, a) + SwapDelta(inst, a, r, s)
  {
    var b := Swap(a, r, s);
    if r == s {
      assert b == a;
      VecSumZero(SwapRest(inst, a, r, s));
    } else {
      DiffSum(inst, a, b);
      SwapDiffSum(inst, a, r, s);
    }
  }

  /** The per-facility terms of the swapped assignment cancel the original
      ones. */
  lemma SwapRestNegates(inst: Instance, a: seq<int>, r: nat, s: nat)
    requires ValidInstance(inst) && InRange(a, inst.n) && r < inst.n && s < inst.n
    ensures InRange(Swap(a, r, s), inst.n)
    ensures VecSum(SwapRest(inst, Swap(a, r, s), r, s)) == -VecSum(SwapRest(inst, a, r, s))
  {
    var b := Swap(a, r, s);
    var u, v := SwapRest(inst, a, r, s), SwapRest(inst, b, r, s);
    var zero := seq(inst.n, k requires 0 <= k < inst.n => 0);
    forall k | 0 <= k < inst.n
      ensures zero[k] == u[k] + v[k]
    {
      if k != r && k != s {
        assert b[k] == a[k];
      }
    }
    VecSumAdd(u, v, zero);
    VecSumZero(zero);
  }

  /** The swap delta of the swapped assignment undoes the original one. */
  lemma SwapDeltaAntisymmetric(inst: Instance, a: seq<int>, r: nat, s: nat)
    requires ValidInstance(inst) && InRange(a, inst.n) && r < inst.n && s < inst.n
    ensures InRange(Swap(a, r, s), inst.n)
    ensures SwapDelta(inst, Swap(a, r, s), r, s) == -SwapDelta(inst, a, r, s)
  {
    var b := Swap(a, r, s);
    if r == s {
      assert b == a;
      VecSumZero(SwapRest(inst, a, r, s));
    } else {
      SwapRestNegates(inst, a, r, s);
      CornersAntisymmetric(inst, r, s, a[r], a[s]);
      assert b[r] == a[s] && b[s] == a[r];
    }
  }

  /** `QNode::exchange`: apply the delta to the value, then swap the two
      locations. */
  function Exchange(inst: Instance, q: QNode, i: nat, j: nat): (r: QNode)
    requires ValidInstance(inst) && InRange(q.assignments, inst.n) && i < inst.n && j < inst.n
    ensures InRange(r.assignments, inst.n)
    ensures multiset(r.assignments) == multiset(q.assignments)
    ensures r.assignments[i] == q.assignments[j] && r.assignments[j] == q.assignments[i]
    ensures forall k :: 0 <= k < inst.n && k != i && k != j ==> r.assignments[k] == q.assignments[k]
    ensures Consistent(inst, q) ==> Consistent(inst, r)
  {
    SwapDeltaExact(inst, q.assignments, i, j);
    QNode(Swap(q.assignments, i, j), q.value + SwapDelta(inst, q.assignments, i, j))
  }

  /** Exchanging a facility with itself changes nothing. */
  lemma ExchangeSelf(inst: Instance, q: QNode, i: nat)
    requires ValidInstance(inst) && InRange(q.assignments, inst.n) && i < inst.n
    ensures Exchange(inst, q, i, i) == q
  {
    var a := q.assignments;
    assert Swap(a, i, i) == a;
    SwapDeltaExact(inst, a, i, i);
  }

  /** Exchanging the same pair twice restores the node, value included,
      whether or not its value was consistent: the revert of the local
      search relies on this. */
  lemma ExchangeTwiceRestores(inst: Instance, q: QNode, i: nat, j: nat)
    requires ValidInstance(inst) && InRange(q.assignments, inst.n) && i < inst.n && j < inst.n
    ensures Exchange(inst, Exchange(inst, q, i, j), i, j) == q
  {
    SwapDeltaAntisymmetric(inst, q.assignments, i, j);
    SwapTwice(q.assignments, i, j);
  }

  /** One iteration of `twoOptImprovement` for the drawn pair `i`, `j`:
      exchange, and exchange back when the value went up. */
  function TwoOptStep(inst: Instance, q: QNode, i: nat, j: nat): (r: QNode)
    requires ValidInstance(inst) && InRange(q.assignments, inst.n) && i < inst.n && j < inst.n
    ensures r.value <= q.value
    ensures r == q || r == Exchange(inst, q, i, j)
    ensures Exchange(inst, q, i, j).value <= q.value ==> r == Exchange(inst, q, i, j)
    ensures InRange(r.assignments, inst.n) && multiset(r.assignments) == multiset(q.assignments)
    ensures Consistent(inst, q) ==> Consistent(inst, r)
  {
    var value := q.value;
    var swapped := Exchange(inst, q, i, j);
    if swapped.value > value then
      ExchangeTwiceRestores(inst, q, i, j);
      Exchange(inst, swapped, i, j)
    else
      swapped
  }

  /** What the source reports before exiting. */
  datatype Error = InvalidData

  /** The entry check of the `QNode(int*)` constructor as written: it only
      rejects entries at or above `NUMBER_OBJECTS`. */
  predicate CopyGuardAsWritten(entries: seq<int>, n: nat)
    requires |entries| == n
  {
    forall k :: 0 <= k < n ==> entries[k] < n
  }

  /** The check as written lets a negative location through, which the
      objective then uses as a matrix index. */
  lemma CopyGuardAdmitsNegative()
    ensures CopyGuardAsWritten([-1], 1) && !InRange([-1], 1)
  {
    assert !(0 <= [-1][0]);
  }

  /** `QNode(int*)` with the entry check it evidently intends: every entry
      must index the matrices; otherwise the data is rejected. */
  method NewQNode(inst: Instance, entries: seq<int>) returns (r: Result<QNode, Error>)
    requires ValidInstance(inst) && |entries| == inst.n
    ensures r.Ok? <==> InRange(entries, inst.n)
    ensures r.Ok? ==> r.value.assignments == entries && Consistent(inst, r.value)
  {
    var i := 0;
    while i < inst.n
      invariant 0 <= i <= inst.n
      invariant forall k :: 0 <= k < i ==> 0 <= entries[k] < inst.n
    {
      if entries[i] < 0 || entries[i] >= inst.n {
        return Err(InvalidData);
      }
      i := i + 1;
    }
    var value := CalculateValue(inst, entries);
    return Ok(QNode(entries, value));
  }

  /** `contains`: whether `value` is among the first `n` entries. */
  method Contains(arr: seq<int>, n: nat, value: int) returns (found: bool)
    requires n <= |arr|
    ensures found <==> value in arr[..n]
  {
    var i := 0;
    while i < n
      invariant 0 <= i <= n
      invariant value !in arr[..i]
    {
      if arr[i] == value {
        assert arr[..n][i] == value;
        return true;
      }
      assert arr[..i + 1] == arr[..i] + [arr[i]];
      i := i + 1;
    }
    return false;
  }

  /** `sort` with `DescendingSort`, whose comparison is "smaller value
      first": the population ordered by ascending value. */
  function SortPopulation(population: seq<QNode>): (r: seq<QNode>)
    ensures multiset(r) == multiset(population)
    ensures forall a, b :: 0 <= a < b < |r| ==> r[a].value <= r[b].value
    ensures |r| > 0 ==> forall k :: 0 <= k < |population| ==> r[0].value <= population[k].value
  {
    var r := SortBy(population, (q: QNode) => q.value);
    assert SortedBy(r, (q: QNode) => q.value);
    forall k | 0 <= k < |population|
      ensures |r| > 0 ==> r[0].value <= population[k].value
    {
      assert population[k] in multiset(r);
      var m :| 0 <= m < |r| && r[m] == population[k];
    }
    r
  }
}
