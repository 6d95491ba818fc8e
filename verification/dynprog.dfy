/** `DynProgAlgo.solve` and the DP-seeded `Candidate` of
    assignment2/sources/algos.py: sort the boxes by footprint area, largest
    first, then a longest-weighted-chain table over the "strictly wider and
    strictly deeper" order, with a predecessor link per box, and the chain
    rebuilt from the best entry down its links. */
module DynProg {
  import opened Wrappers
  import opened Boxes
  import opened Sorting

  function Area(b: Box): int
  {
    b.width * b.depth
  }

  /** Footprint areas never increase from left to right. */
  predicate AreaDescending(s: seq<Box>)
  {
    forall i, j :: 0 <= i < j < |s| ==> Area(s[i]) >= Area(s[j])
  }

  /** `blocks.sort(key = lambda x : x[1] * x[2], reverse = True)`: the sort is
      in place, so the caller sees its list reordered. */
  function SortByArea(blocks: seq<Box>): (r: seq<Box>)
    ensures multiset(r) == multiset(blocks)
    ensures AreaDescending(r)
  {
    var r := SortBy(blocks, b => -Area(b));
    assert forall i, j :: 0 <= i < j < |r| ==> -Area(r[i]) <= -Area(r[j]);
    r
  }

  /** Positions into `bs` that form a stack in sorted order: increasing
      positions, each box carrying the next. */
  ghost predicate IsChain(bs: seq<Box>, idx: seq<int>)
  {
    && |idx| > 0
    && (forall k :: 0 <= k < |idx| ==> 0 <= idx[k] < |bs|)
    && (forall a, b :: 0 <= a < b < |idx| && b == a + 1 ==> idx[a] < idx[b] && Dominates(bs[idx[a]], bs[idx[b]]))
  }

  /** The total height of the boxes at the given positions. */
  function ChainHeight(bs: seq<Box>, idx: seq<int>): int
    requires forall k :: 0 <= k < |idx| ==> 0 <= idx[k] < |bs|
  {
    if |idx| == 0 then 0 else ChainHeight(bs, idx[..|idx| - 1]) + bs[idx[|idx| - 1]].height
  }

  /** The boxes at the given positions: `[blocks[idx] for idx in track]`. */
  function Pick(bs: seq<Box>, idx: seq<int>): (r: seq<Box>)
    requires forall k :: 0 <= k < |idx| ==> 0 <= idx[k] < |bs|
    ensures |r| == |idx| && forall k :: 0 <= k < |idx| ==> r[k] == bs[idx[k]]
  {
    seq(|idx|, k requires 0 <= k < |idx| => bs[idx[k]])
  }

  /** Entry `j` of the table and of the links, as one pass of the inner
      loop leaves them: the running maximum `table[j] - heights[j]` is at
      least 0 and at least every entry of a box before `j` that carries box
      `j`; it stays 0 with no link exactly when no such entry is positive; otherwise
      the link is the first such box with the largest entry. */
  ghost predicate Link(bs: seq<Box>, table: seq<int>, dep: seq<int>, j: int)
    requires |table| == |bs| && |dep| == |bs| && 0 <= j < |bs|
  {
    var run := table[j] - bs[j].height;
    && run >= 0
    && (forall i :: 0 <= i < j && Dominates(bs[i], bs[j]) ==> table[i] <= run)
    && (dep[j] == -1 <==> run == 0)
    && (dep[j] != -1 ==>
          && 0 <= dep[j] < j
          && Dominates(bs[dep[j]], bs[j])
          && table[dep[j]] == run
          && (forall i :: 0 <= i < dep[j] && Dominates(bs[i], bs[j]) ==> table[i] < run))
  }

  ghost predicate Links(bs: seq<Box>, table: seq<int>, dep: seq<int>)
  {
    |table| == |bs| && |dep| == |bs| && forall j :: 0 <= j < |bs| ==> Link(bs, table, dep, j)
  }

  /** The two nested loops that fill `table` and `dependency`. */
  method BuildTable(bs: seq<Box>) returns (table: seq<int>, dep: seq<int>)
    ensures Links(bs, table, dep)
  {
    var n := |bs|;
    dep := seq(n, _ => -1);
    table := seq(n, _ => 0);
    var j := 0;
    while j < n
      invariant 0 <= j <= n
      invariant |table| == n && |dep| == n
      invariant forall k :: j <= k < n ==> dep[k] == -1
      invariant forall k :: 0 <= k < j ==> Link(bs, table, dep, k)
    {
      var i := 0;
      var run := 0;
      ghost var table0, dep0 := table, dep;
      while i < j
        invariant 0 <= i <= j
        invariant table == table0 && |dep| == n
        invariant forall k :: 0 <= k < n && k != j ==> dep[k] == dep0[k]
        invariant run >= 0
        invariant forall k :: 0 <= k < i && Dominates(bs[k], bs[j]) ==> table[k] <= run
        invariant dep[j] == -1 <==> run == 0
        invariant dep[j] != -1 ==>
                    && 0 <= dep[j] < i
                    && Dominates(bs[dep[j]], bs[j])
                    && table[dep[j]] == run
                    && (forall k :: 0 <= k < dep[j] && Dominates(bs[k], bs[j]) ==> table[k] < run)
      {
        if bs[i].width > bs[j].width && bs[i].depth > bs[j].depth {
          if table[i] > run {
            run := table[i];
            dep := dep[j := i];
          }
        }
        i := i + 1;
      }
      forall k | 0 <= k < j
        ensures Link(bs, table, dep, k)
      {
        assert Link(bs, table0, dep0, k);
      }
      ghost var dep1 := dep;
      table := table[j := run + bs[j].height];
      forall k | 0 <= k < j
        ensures Link(bs, table, dep, k)
      {
        assert Link(bs, table0, dep1, k);
      }
      j := j + 1;
    }
  }

  /** Every link is -1 or an earlier position. */
  predicate PointsBack(dep: seq<int>)
  {
    forall k :: 0 <= k < |dep| ==> -1 <= dep[k] < k
  }

  /** A filled table's links all point back. */
  lemma LinksPointBack(bs: seq<Box>, table: seq<int>, dep: seq<int>)
    requires Links(bs, table, dep)
    ensures PointsBack(dep)
  {
    forall k | 0 <= k < |dep|
      ensures -1 <= dep[k] < k
    {
      assert Link(bs, table, dep, k);
    }
  }

  /** The reconstruction loop: starting at `j`, follow the links down while
      they are not -1, prepending each position. It ends because every link
      points to a smaller position. */
  function Trace(dep: seq<int>, j: nat): (track: seq<int>)
    requires j < |dep| && PointsBack(dep)
    ensures |track| > 0 && track[|track| - 1] == j
    ensures forall k :: 0 <= k < |track| ==> 0 <= track[k] <= j
    decreases j
  {
    if dep[j] == -1 then [j] else Trace(dep, dep[j]) + [j]
  }

  /** `table[j]` is at least the height of every stack in sorted order whose
      top box is box `j`. */
  lemma {:induction false} TableBoundsChains(bs: seq<Box>, table: seq<int>, dep: seq<int>, idx: seq<int>)
    requires Links(bs, table, dep)
    requires IsChain(bs, idx)
    ensures ChainHeight(bs, idx) <= table[idx[|idx| - 1]]
    decreases |idx|
  {
    var j := idx[|idx| - 1];
    assert Link(bs, table, dep, j);
    if |idx| > 1 {
      var rest := idx[..|idx| - 1];
      assert IsChain(bs, rest);
      TableBoundsChains(bs, table, dep, rest);
      var i := rest[|rest| - 1];
      assert idx[|idx| - 2] == i;
    }
  }

  /** Following the links from `j` rebuilds a stack in sorted order whose
      top box is box `j` and whose height is exactly `table[j]`. */
  lemma {:induction false} TraceAttainsTable(bs: seq<Box>, table: seq<int>, dep: seq<int>, j: nat)
    requires Links(bs, table, dep)
    requires j < |bs|
    ensures PointsBack(dep) && IsChain(bs, Trace(dep, j))
    ensures PointsBack(dep) && ChainHeight(bs, Trace(dep, j)) == table[j]
    decreases j
  {
    LinksPointBack(bs, table, dep);
    assert Link(bs, table, dep, j);
    if dep[j] != -1 {
      var i := dep[j];
      TraceAttainsTable(bs, table, dep, i);
      ChainExtend(bs, Trace(dep, i), j);
    } else {
      assert Trace(dep, j)[..0] == [];
    }
  }

  /** Putting a box that the top of a chain carries onto the chain. */
  lemma ChainExtend(bs: seq<Box>, idx: seq<int>, j: int)
    requires IsChain(bs, idx) && 0 <= j < |bs|
    requires idx[|idx| - 1] < j && Dominates(bs[idx[|idx| - 1]], bs[j])
    ensures IsChain(bs, idx + [j])
    ensures ChainHeight(bs, idx + [j]) == ChainHeight(bs, idx) + bs[j].height
  {
    var t := idx + [j];
    assert t[..|t| - 1] == idx;
    forall a, b | 0 <= a < b < |t| && b == a + 1
      ensures t[a] < t[b] && Dominates(bs[t[a]], bs[t[b]])
    {
      if b < |idx| {
        assert t[a] == idx[a] && t[b] == idx[b];
      }
    }
  }

  /** `max(range(n), key = table.__getitem__)`: the first position holding
      the largest entry. */
  function FirstArgMax(t: seq<int>): (r: nat)
    requires |t| > 0
    ensures r < |t|
    ensures forall k :: 0 <= k < |t| ==> t[k] <= t[r]
    ensures forall k :: 0 <= k < r ==> t[k] < t[r]
  {
    ArgMaxFrom(t, 1, 0)
  }

  /** The scan of `max` from position `k`, with `best` the first maximum of
      the positions before `k`. */
  function ArgMaxFrom(t: seq<int>, k: nat, best: nat): (r: nat)
    requires best < k <= |t|
    requires forall m :: 0 <= m < k ==> t[m] <= t[best]
    requires forall m :: 0 <= m < best ==> t[m] < t[best]
    ensures r < |t|
    ensures forall m :: 0 <= m < |t| ==> t[m] <= t[r]
    ensures forall m :: 0 <= m < r ==> t[m] < t[r]
    decreases |t| - k
  {
    if k == |t| then best
    else if t[k] > t[best] then ArgMaxFrom(t, k + 1, k)
    else ArgMaxFrom(t, k + 1, best)
  }

  /** What `solve` produces: the caller's list after the in-place sort, the
      positions of the chosen boxes in it, and the returned stack. */
  datatype Solution = Solution(sorted: seq<Box>, track: seq<int>, stack: seq<Box>)

  /** `DynProgAlgo.solve`. */
  method Solve(blocks: seq<Box>) returns (r: Result<Solution, Error>)
    ensures |blocks| == 0 <==> r.Err?
    ensures r.Ok? ==> multiset(r.value.sorted) == multiset(blocks) && AreaDescending(r.value.sorted)
    ensures r.Ok? ==> IsChain(r.value.sorted, r.value.track)
                      && r.value.stack == Pick(r.value.sorted, r.value.track)
    ensures r.Ok? ==> |r.value.stack| > 0 && StrictChain(r.value.stack) && Within(r.value.stack, blocks)
    ensures r.Ok? ==> forall idx :: IsChain(r.value.sorted, idx)
                        ==> ChainHeight(r.value.sorted, idx) <= SumHeights(r.value.stack)
    ensures r.Ok? && PositiveFootprints(blocks) ==>
              forall s :: |s| > 0 && StrictChain(s) && Within(s, blocks)
                ==> SumHeights(s) <= SumHeights(r.value.stack)
  {
    var sorted := SortByArea(blocks);
    if |sorted| == 0 {
      return Err(EmptyBlocks);
    }
    var table, dep := BuildTable(sorted);
    var top := FirstArgMax(table);
    TraceAttainsTable(sorted, table, dep, top);
    var track := Trace(dep, top);
    var stack := Pick(sorted, track);
    PickedChain(sorted, track);
    forall k | 0 <= k < |stack|
      ensures stack[k] in blocks
    {
      assert stack[k] == sorted[track[k]];
      assert stack[k] in multiset(sorted);
    }
    forall idx | IsChain(sorted, idx)
      ensures ChainHeight(sorted, idx) <= SumHeights(stack)
    {
      TableBoundsChains(sorted, table, dep, idx);
    }
    if PositiveFootprints(blocks) {
      forall s | |s| > 0 && StrictChain(s) && Within(s, blocks)
        ensures SumHeights(s) <= SumHeights(stack)
      {
        var idx := StackInSortedOrder(sorted, blocks, s);
        TableBoundsChains(sorted, table, dep, idx);
        PickedChain(sorted, idx);
      }
    }
    return Ok(Solution(sorted, track, stack));
  }

  /** The boxes at a chain's positions are a stack, and their total height
      is the chain's height. */
  lemma PickedChain(bs: seq<Box>, idx: seq<int>)
    requires IsChain(bs, idx)
    ensures StrictChain(Pick(bs, idx))
    ensures SumHeights(Pick(bs, idx)) == ChainHeight(bs, idx)
  {
    var p := Pick(bs, idx);
    forall a, b | 0 <= a < b < |p| && b == a + 1
      ensures Dominates(p[a], p[b])
    {
    }
    PickHeight(bs, idx);
  }

  lemma {:induction false} PickHeight(bs: seq<Box>, idx: seq<int>)
    requires forall k :: 0 <= k < |idx| ==> 0 <= idx[k] < |bs|
    ensures SumHeights(Pick(bs, idx)) == ChainHeight(bs, idx)
    decreases |idx|
  {
    if |idx| > 0 {
      var rest := idx[..|idx| - 1];
      PickHeight(bs, rest);
      assert Pick(bs, idx)[..|idx| - 1] == Pick(bs, rest);
    }
  }

  /** Every box has a positive width and depth. */
  predicate PositiveFootprints(bs: seq<Box>)
  {
    forall k :: 0 <= k < |bs| ==> bs[k].width > 0 && bs[k].depth > 0
  }

  /** Every box of `s` is one of the boxes of `bs`. */
  predicate Within(s: seq<Box>, bs: seq<Box>)
  {
    forall k :: 0 <= k < |s| ==> s[k] in bs
  }

  /** With positive dimensions, a box that carries another has the larger
      footprint. */
  lemma CarrierHasLargerArea(a: Box, b: Box)
    requires Dominates(a, b) && b.width > 0 && b.depth > 0
    ensures Area(a) > Area(b)
  {
    assert a.width * a.depth > a.width * b.depth;
    assert a.width * b.depth > b.width * b.depth;
  }

  /** A position of `x` in `bs`. */
  ghost function PositionOf(bs: seq<Box>, x: Box): (i: int)
    requires x in bs
    ensures 0 <= i < |bs| && bs[i] == x
  {
    var i :| 0 <= i < |bs| && bs[i] == x; i
  }

  /** A stack built from boxes of the input, all with positive footprints,
      appears in the area-sorted list in stack order, so it is one of the
      chains the table ranges over. */
  lemma StackInSortedOrder(sorted: seq<Box>, blocks: seq<Box>, s: seq<Box>) returns (idx: seq<int>)
    requires multiset(sorted) == multiset(blocks) && AreaDescending(sorted)
    requires PositiveFootprints(blocks)
    requires |s| > 0 && StrictChain(s) && Within(s, blocks)
    ensures IsChain(sorted, idx) && Pick(sorted, idx) == s
  {
    forall k | 0 <= k < |s|
      ensures s[k] in sorted && s[k].width > 0 && s[k].depth > 0
    {
      assert s[k] in multiset(blocks);
      assert s[k] in multiset(sorted);
      var i :| 0 <= i < |blocks| && blocks[i] == s[k];
    }
    idx := seq(|s|, k requires 0 <= k < |s| => PositionOf(sorted, s[k]));
    forall a, b | 0 <= a < b < |idx| && b == a + 1
      ensures idx[a] < idx[b]
    {
      CarrierHasLargerArea(s[a], s[b]);
    }
  }

  /** `Candidate.height` for the candidate that `__init__` seeds with the
      solver's stack: the height of the tallest stack the solver finds. */
  method DpCandidateHeight(blocks: seq<Box>) returns (r: Result<int, Error>)
    ensures |blocks| == 0 <==> r.Err?
    ensures r.Ok? ==> exists s :: |s| > 0 && StrictChain(s) && Within(s, blocks) && SumHeights(s) == r.value
    ensures r.Ok? && PositiveFootprints(blocks) ==>
              forall s :: |s| > 0 && StrictChain(s) && Within(s, blocks) ==> SumHeights(s) <= r.value
  {
    var sol :- Solve(blocks);
    var h := ComputeHeight(sol.stack);
    return Ok(h.value);
  }
}
