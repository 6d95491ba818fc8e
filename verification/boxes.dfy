/** Boxes of the box-stacking problem (assignment2/sources/utils.py): a box is
    the triple [height, width, depth] read from a line of the input file, and
    a stack lists its boxes bottom first. */
module Boxes {
  import opened Wrappers

  datatype Box = Box(height: int, width: int, depth: int)

  /** What the source raises. */
  datatype Error =
    | EmptyBlocks   // unpacking `zip(*blocks)` of an empty list fails

  /** `a` can carry `b` directly on top of it: strictly wider and strictly
      deeper. */
  predicate Dominates(a: Box, b: Box)
  {
    a.width > b.width && a.depth > b.depth
  }

  /** Each box carries the next one: a stack that may be built. */
  ghost predicate StrictChain(s: seq<Box>)
  {
    forall i :: 0 <= i < |s| - 1 ==> Dominates(s[i], s[i + 1])
  }

  /** The total height of a list of boxes. */
  function SumHeights(s: seq<Box>): int
  {
    if |s| == 0 then 0 else SumHeights(s[..|s| - 1]) + s[|s| - 1].height
  }

  lemma {:induction false} SumHeightsConcat(a: seq<Box>, b: seq<Box>)
    ensures SumHeights(a + b) == SumHeights(a) + SumHeights(b)
    decreases |b|
  {
    if |b| == 0 {
      assert a + b == a;
    } else {
      assert (a + b)[..|a + b| - 1] == a + b[..|b| - 1];
      SumHeightsConcat(a, b[..|b| - 1]);
    }
  }

  /** Dominance is transitive. */
  lemma DominatesTransitive(a: Box, b: Box, c: Box)
    requires Dominates(a, b) && Dominates(b, c)
    ensures Dominates(a, c)
  {
  }

  /** In a chain, every box carries every box above it, not only the next. */
  lemma {:induction false} ChainDominatesAbove(s: seq<Box>, i: nat, j: nat)
    requires StrictChain(s) && i < j < |s|
    ensures Dominates(s[i], s[j])
    decreases j - i
  {
    if j > i + 1 {
      ChainDominatesAbove(s, i + 1, j);
      DominatesTransitive(s[i], s[i + 1], s[j]);
    }
  }

  /** `compute_height`: the sum of the heights, summed left to right like
      Python's `sum`; an empty list fails when `zip` yields nothing to unpack. */
  method ComputeHeight(blocks: seq<Box>) returns (r: Result<int, Error>)
    ensures |blocks| == 0 <==> r.Err?
    ensures r.Ok? ==> r.value == SumHeights(blocks)
  {
    if |blocks| == 0 {
      return Err(EmptyBlocks);
    }
    var total := 0;
    var i := 0;
    while i < |blocks|
      invariant 0 <= i <= |blocks|
      invariant total == SumHeights(blocks[..i])
    {
      assert blocks[..i + 1][..i] == blocks[..i];
      total := total + blocks[i].height;
      i := i + 1;
    }
    assert blocks[..i] == blocks;
    return Ok(total);
  }
}
