/** The incremental stack of assignment2/sources/utils.py: `bisect` on a list
    sorted by a descending key, and `Candidate`, a stack kept as a dominance
    chain with its cached height and the boxes its last committed `push`
    evicted. `Candidate` is mutable in the source; here `push` maps a state to
    a new state. */
module Candidates {
  import opened Boxes

  /** The footprint dimension `bisect` is keyed on (`x[1]` or `x[2]`). */
  datatype Dim = Width | Depth

  function Key(b: Box, dim: Dim): int
  {
    match dim
    case Width => b.width
    case Depth => b.depth
  }

  /** Keys never increase from bottom to top. */
  predicate NonIncreasing(lst: seq<Box>, dim: Dim)
  {
    forall i, j :: 0 <= i < j < |lst| ==> Key(lst[i], dim) >= Key(lst[j], dim)
  }

  /** A chain is sorted non-increasingly on both footprint dimensions. */
  lemma ChainNonIncreasing(s: seq<Box>, dim: Dim)
    requires StrictChain(s)
    ensures NonIncreasing(s, dim)
  {
    forall i, j | 0 <= i < j < |s|
      ensures Key(s[i], dim) >= Key(s[j], dim)
    {
      ChainDominatesAbove(s, i, j);
    }
  }

  /** The `while lo < hi` loop of `bisect`: `lo` only moves past elements
      whose key is greater than the value's, `hi` only down to elements whose
      key is not. */
  function BisectRange(lst: seq<Box>, value: Box, dim: Dim, lo: nat, hi: nat): (r: nat)
    requires lo <= hi <= |lst|
    ensures lo <= r <= hi
    ensures NonIncreasing(lst, dim)
            && (forall k :: 0 <= k < lo ==> Key(lst[k], dim) > Key(value, dim))
            && (forall k :: hi <= k < |lst| ==> Key(lst[k], dim) <= Key(value, dim))
            ==> (forall k :: 0 <= k < r ==> Key(lst[k], dim) > Key(value, dim))
                && (forall k :: r <= k < |lst| ==> Key(lst[k], dim) <= Key(value, dim))
    decreases hi - lo
  {
    if lo < hi then
      var mid := (lo + hi) / 2;
      BisectNarrows(lst, value, dim, lo, mid, hi);
      if Key(lst[mid], dim) > Key(value, dim) then BisectRange(lst, value, dim, mid + 1, hi)
      else BisectRange(lst, value, dim, lo, mid)
    else lo
  }

  /** On keys that do not increase, the comparison at `mid` extends what is
      known below `lo` or above `hi` to `mid`. */
  lemma BisectNarrows(lst: seq<Box>, value: Box, dim: Dim, lo: nat, mid: nat, hi: nat)
    requires lo <= mid < hi <= |lst|
    ensures NonIncreasing(lst, dim) && (forall k :: 0 <= k < lo ==> Key(lst[k], dim) > Key(value, dim))
            && Key(lst[mid], dim) > Key(value, dim)
            ==> forall k :: 0 <= k < mid + 1 ==> Key(lst[k], dim) > Key(value, dim)
    ensures NonIncreasing(lst, dim) && (forall k :: hi <= k < |lst| ==> Key(lst[k], dim) <= Key(value, dim))
            && Key(lst[mid], dim) <= Key(value, dim)
            ==> forall k :: mid <= k < |lst| ==> Key(lst[k], dim) <= Key(value, dim)
  {
    if NonIncreasing(lst, dim) {
      forall k | 0 <= k < mid
        ensures Key(lst[k], dim) >= Key(lst[mid], dim)
      {
      }
      forall k | mid < k < |lst|
        ensures Key(lst[mid], dim) >= Key(lst[k], dim)
      {
      }
    }
  }

  /** `bisect`: on a list whose keys do not increase, the first position whose
      key is not greater than the value's key. */
  function Bisect(lst: seq<Box>, value: Box, dim: Dim): (r: nat)
    ensures r <= |lst|
    ensures NonIncreasing(lst, dim) ==>
              (forall k :: 0 <= k < r ==> Key(lst[k], dim) > Key(value, dim))
              && (forall k :: r <= k < |lst| ==> Key(lst[k], dim) <= Key(value, dim))
  {
    BisectRange(lst, value, dim, 0, |lst|)
  }

  /** Where `push` puts the new box (the source's `end`): the smaller of the
      two bisections. On a chain, every box below it carries the new box and
      no box from it on does. */
  function InsertIndex(blocks: seq<Box>, block: Box): (e: nat)
    ensures e <= |blocks|
    ensures StrictChain(blocks) ==>
              (forall k :: 0 <= k < e ==> Dominates(blocks[k], block))
              && (forall k :: e <= k < |blocks| ==> !Dominates(blocks[k], block))
  {
    var w := Bisect(blocks, block, Width);
    var d := Bisect(blocks, block, Depth);
    assert StrictChain(blocks) ==> NonIncreasing(blocks, Width) && NonIncreasing(blocks, Depth) by {
      if StrictChain(blocks) {
        ChainNonIncreasing(blocks, Width);
        ChainNonIncreasing(blocks, Depth);
      }
    }
    if w <= d then w else d
  }

  /** Where the eviction scan stopped and the height it left. */
  datatype ScanResult = ScanResult(stop: nat, height: int)

  /** The eviction loop of `push`: from position `k` on, every box the new
      box cannot carry is skipped and its height subtracted; the scan stops
      at the first box strictly narrower and strictly shallower than the new
      box (the source's `start`), or at the top. */
  function Scan(blocks: seq<Box>, block: Box, k: nat, height: int): (r: ScanResult)
    requires k <= |blocks|
    ensures k <= r.stop <= |blocks|
    ensures forall m :: k <= m < r.stop ==> !Dominates(block, blocks[m])
    ensures r.stop < |blocks| ==> Dominates(block, blocks[r.stop])
    ensures r.height == height - SumHeights(blocks[k..r.stop])
    decreases |blocks| - k
  {
    if k == |blocks| || Dominates(block, blocks[k]) then ScanResult(k, height)
    else
      var r := Scan(blocks, block, k + 1, height - blocks[k].height);
      assert blocks[k..r.stop] == [blocks[k]] + blocks[k + 1..r.stop];
      SumHeightsConcat([blocks[k]], blocks[k + 1..r.stop]);
      r
  }

  /** The stack, its cached height and the boxes the last committed push
      evicted (`_blocks`, `_height`, `_tabu`); `Candidate.__init__` is the
      constructor with an empty `tabu`. */
  datatype Candidate = Candidate(blocks: seq<Box>, height: int, tabu: seq<Box>)

  /** The height `push` reports and the state after it. */
  datatype PushResult = PushResult(cand: Candidate, height: int)

  /** The boxes a push of `block` takes off the stack: from the insertion
      index up to where the eviction scan stopped. */
  function Evicted(blocks: seq<Box>, block: Box): (ev: seq<Box>)
    ensures forall m :: 0 <= m < |ev| ==> !Dominates(block, ev[m])
  {
    var e := InsertIndex(blocks, block);
    blocks[e..Scan(blocks, block, e, 0).stop]
  }

  /** `push(block, update)`. The reported height is the cached height plus
      the new box minus the boxes it evicts; a trial (`update = false`)
      changes nothing, a commit splices the box in, records the evicted boxes
      and caches the reported height. */
  function Push(c: Candidate, block: Box, update: bool): (r: PushResult)
    ensures !update ==> r.cand == c
    ensures r.height == c.height + block.height - SumHeights(Evicted(c.blocks, block))
    ensures update ==> r.cand.height == r.height && r.cand.tabu == Evicted(c.blocks, block)
  {
    var e := InsertIndex(c.blocks, block);
    var sc := Scan(c.blocks, block, e, c.height + block.height);
    var st := EvictStop(c.blocks, block);
    assert sc.stop == st by {
      ScanStopIgnoresHeight(c.blocks, block, e, c.height + block.height, 0);
    }
    if update then
      PushResult(Candidate(c.blocks[..e] + [block] + c.blocks[st..], sc.height, c.blocks[e..st]), sc.height)
    else
      PushResult(c, sc.height)
  }

  /** Where the scan stops does not depend on the running height. */
  lemma {:induction false} ScanStopIgnoresHeight(blocks: seq<Box>, block: Box, k: nat, h1: int, h2: int)
    requires k <= |blocks|
    ensures Scan(blocks, block, k, h1).stop == Scan(blocks, block, k, h2).stop
    decreases |blocks| - k
  {
    if k < |blocks| && !Dominates(block, blocks[k]) {
      ScanStopIgnoresHeight(blocks, block, k + 1, h1 - blocks[k].height, h2 - blocks[k].height);
    }
  }

  /** Where a push of `block` evicts from: the insertion index and the stop
      of the eviction scan. */
  function EvictStop(blocks: seq<Box>, block: Box): (st: nat)
    ensures InsertIndex(blocks, block) <= st <= |blocks|
  {
    Scan(blocks, block, InsertIndex(blocks, block), 0).stop
  }

  /** The committed state spelled out by positions. */
  lemma PushCommitShape(c: Candidate, block: Box)
    ensures var e, st := InsertIndex(c.blocks, block), EvictStop(c.blocks, block);
            Push(c, block, true).cand.blocks == c.blocks[..e] + [block] + c.blocks[st..]
    ensures var e, st := InsertIndex(c.blocks, block), EvictStop(c.blocks, block);
            Push(c, block, true).cand.height == c.height + block.height - SumHeights(c.blocks[e..st])
    ensures var e, st := InsertIndex(c.blocks, block), EvictStop(c.blocks, block);
            Push(c, block, true).cand.tabu == c.blocks[e..st]
  {
  }

  /** A committed push keeps the cached height equal to the sum of the
      heights of the stacked boxes. */
  lemma PushKeepsHeightSum(c: Candidate, block: Box)
    requires c.height == SumHeights(c.blocks)
    ensures Push(c, block, true).cand.height == SumHeights(Push(c, block, true).cand.blocks)
  {
    PushCommitShape(c, block);
    SpliceHeight(c.blocks, InsertIndex(c.blocks, block), EvictStop(c.blocks, block), block);
  }

  /** Replacing a slice by one box changes the total height by that box's
      height minus the slice's. */
  lemma SpliceHeight(s: seq<Box>, e: nat, st: nat, block: Box)
    requires e <= st <= |s|
    ensures SumHeights(s[..e] + [block] + s[st..]) == SumHeights(s) + block.height - SumHeights(s[e..st])
  {
    var lo, mid, hi := s[..e], s[e..st], s[st..];
    calc {
      SumHeights(lo + [block] + hi);
    == { SumHeightsThree(lo, [block], hi); SumHeightsOne(block); }
      SumHeights(lo) + block.height + SumHeights(hi);
    == { SumHeightsThree(lo, mid, hi); }
      SumHeights(lo + mid + hi) + block.height - SumHeights(mid);
    == { ThreeSlices(s, e, st); }
      SumHeights(s) + block.height - SumHeights(mid);
    }
  }

  lemma ThreeSlices(s: seq<Box>, e: nat, st: nat)
    requires e <= st <= |s|
    ensures s[..e] + s[e..st] + s[st..] == s
  {
    assert s[..e] + s[e..st] == s[..st];
  }

  lemma SumHeightsThree(a: seq<Box>, b: seq<Box>, c: seq<Box>)
    ensures SumHeights(a + b + c) == SumHeights(a) + SumHeights(b) + SumHeights(c)
  {
    SumHeightsConcat(a, b);
    SumHeightsConcat(a + b, c);
  }

  lemma SumHeightsOne(block: Box)
    ensures SumHeights([block]) == block.height
  {
    assert [block][..0] == [];
  }

  /** A committed push keeps a chain a chain: the boxes under the insertion
      index carry the new box, and the new box carries the first box kept
      above it. */
  lemma PushKeepsChain(c: Candidate, block: Box)
    requires StrictChain(c.blocks)
    ensures StrictChain(Push(c, block, true).cand.blocks)
  {
    var e := InsertIndex(c.blocks, block);
    var st := EvictStop(c.blocks, block);
    PushCommitShape(c, block);
    var nb := Push(c, block, true).cand.blocks;
    assert nb == c.blocks[..e] + [block] + c.blocks[st..];
    forall i | 0 <= i < |nb| - 1
      ensures Dominates(nb[i], nb[i + 1])
    {
      if i + 1 < e {
        assert nb[i] == c.blocks[i] && nb[i + 1] == c.blocks[i + 1];
      } else if i + 1 == e {
        assert nb[i] == c.blocks[i] && nb[i + 1] == block;
      } else if i == e {
        assert nb[i + 1] == c.blocks[st];
      } else {
        assert nb[i] == c.blocks[st + (i - e - 1)] && nb[i + 1] == c.blocks[st + (i - e)];
      }
    }
  }

  /** How a box stands to the new box: it can carry it, it can be carried by
      it, or neither. */
  datatype Side = Below | Beside | Above

  function SideOf(x: Box, block: Box): Side
  {
    if Dominates(x, block) then Below else if Dominates(block, x) then Above else Beside
  }

  /** The boxes of `s` on the given side of `block`, in their order. */
  function Select(s: seq<Box>, block: Box, side: Side): (r: seq<Box>)
    ensures |r| <= |s|
  {
    if |s| == 0 then []
    else if SideOf(s[|s| - 1], block) == side then Select(s[..|s| - 1], block, side) + [s[|s| - 1]]
    else Select(s[..|s| - 1], block, side)
  }

  lemma {:induction false} SelectConcat(a: seq<Box>, b: seq<Box>, block: Box, side: Side)
    ensures Select(a + b, block, side) == Select(a, block, side) + Select(b, block, side)
    decreases |b|
  {
    if |b| == 0 {
      assert a + b == a;
    } else {
      assert (a + b)[..|a + b| - 1] == a + b[..|b| - 1];
      SelectConcat(a, b[..|b| - 1], block, side);
    }
  }

  /** A list that lies wholly on one side keeps everything on that side and
      nothing on the others. */
  lemma {:induction false} SelectUniform(s: seq<Box>, block: Box, side: Side, other: Side)
    requires forall k :: 0 <= k < |s| ==> SideOf(s[k], block) == side
    requires other != side
    ensures Select(s, block, side) == s
    ensures Select(s, block, other) == []
  {
    if |s| > 0 {
      SelectUniform(s[..|s| - 1], block, side, other);
    }
  }

  /** On a chain, a committed push is fully described by dominance: the new
      stack is the boxes that carry the new box, the new box, then the boxes
      it carries; the evicted boxes are exactly those incomparable with it. */
  lemma PushSplitsByDominance(c: Candidate, block: Box)
    requires StrictChain(c.blocks)
    ensures Push(c, block, true).cand.blocks
            == Select(c.blocks, block, Below) + [block] + Select(c.blocks, block, Above)
    ensures Push(c, block, true).cand.tabu == Select(c.blocks, block, Beside)
  {
    ChainSelects(c.blocks, block);
    PushCommitShape(c, block);
  }

  /** On a chain, the three dominance classes of the new box are the three
      slices cut at the insertion index and at the scan's stop. */
  lemma ChainSelects(s: seq<Box>, block: Box)
    requires StrictChain(s)
    ensures var e, st := InsertIndex(s, block), EvictStop(s, block);
            && Select(s, block, Below) == s[..e]
            && Select(s, block, Beside) == s[e..st]
            && Select(s, block, Above) == s[st..]
  {
    ChainSides(s, block);
    SelectSlices(s, block, InsertIndex(s, block), EvictStop(s, block));
  }

  /** A list whose boxes carry the new box up to `e`, are incomparable with
      it up to `st` and are carried by it after that selects into those
      three slices. */
  lemma SelectSlices(s: seq<Box>, block: Box, e: nat, st: nat)
    requires e <= st <= |s|
    requires forall k :: 0 <= k < e ==> SideOf(s[k], block) == Below
    requires forall k :: e <= k < st ==> SideOf(s[k], block) == Beside
    requires forall k :: st <= k < |s| ==> SideOf(s[k], block) == Above
    ensures Select(s, block, Below) == s[..e]
    ensures Select(s, block, Beside) == s[e..st]
    ensures Select(s, block, Above) == s[st..]
  {
    var lo, mid, hi := s[..e], s[e..st], s[st..];
    forall k | 0 <= k < |lo|
      ensures SideOf(lo[k], block) == Below
    {
      assert lo[k] == s[k];
    }
    forall k | 0 <= k < |mid|
      ensures SideOf(mid[k], block) == Beside
    {
      assert mid[k] == s[e + k];
    }
    forall k | 0 <= k < |hi|
      ensures SideOf(hi[k], block) == Above
    {
      assert hi[k] == s[st + k];
    }
    ThreeSlices(s, e, st);
    SelectThreeParts(lo, mid, hi, block);
  }

  /** On a chain, the boxes under the insertion index carry the new box, the
      evicted ones are incomparable with it, and the kept ones above are
      carried by it. */
  lemma ChainSides(s: seq<Box>, block: Box)
    requires StrictChain(s)
    ensures var e, st := InsertIndex(s, block), EvictStop(s, block);
            && (forall k :: 0 <= k < e ==> SideOf(s[k], block) == Below)
            && (forall k :: e <= k < st ==> SideOf(s[k], block) == Beside)
            && (forall k :: st <= k < |s| ==> SideOf(s[k], block) == Above)
  {
    var e, st := InsertIndex(s, block), EvictStop(s, block);
    forall k | st < k < |s|
      ensures Dominates(block, s[k])
    {
      ChainDominatesAbove(s, st, k);
      DominatesTransitive(block, s[st], s[k]);
    }
  }

  /** A list made of a part below the new box, a part beside it and a part
      above it selects back into those parts. */
  lemma SelectThreeParts(lo: seq<Box>, mid: seq<Box>, hi: seq<Box>, block: Box)
    requires forall k :: 0 <= k < |lo| ==> SideOf(lo[k], block) == Below
    requires forall k :: 0 <= k < |mid| ==> SideOf(mid[k], block) == Beside
    requires forall k :: 0 <= k < |hi| ==> SideOf(hi[k], block) == Above
    ensures Select(lo + mid + hi, block, Below) == lo
    ensures Select(lo + mid + hi, block, Beside) == mid
    ensures Select(lo + mid + hi, block, Above) == hi
  {
    SelectUniform(lo, block, Below, Beside);
    SelectUniform(lo, block, Below, Above);
    SelectUniform(mid, block, Beside, Below);
    SelectUniform(mid, block, Beside, Above);
    SelectUniform(hi, block, Above, Below);
    SelectUniform(hi, block, Above, Beside);
    forall side: Side
      ensures Select(lo + mid + hi, block, side)
              == Select(lo, block, side) + Select(mid, block, side) + Select(hi, block, side)
    {
      SelectConcat(lo + mid, hi, block, side);
      SelectConcat(lo, mid, block, side);
    }
    assert lo + [] + [] == lo;
    assert [] + mid + [] == mid;
    assert [] + [] + hi == hi;
  }

  /** Putting `block` in place of the slice `s[e..st]` and taking it out
      again, with the slice back in its place, gives `s`. */
  lemma SpliceBack(s: seq<Box>, e: nat, st: nat, block: Box)
    requires e <= st <= |s|
    ensures var t := s[..e] + [block] + s[st..];
            e < |t| && t[e] == block && s == t[..e] + s[e..st] + t[e + 1..]
  {
    var t := s[..e] + [block] + s[st..];
    assert t[..e] == s[..e];
    assert t[e + 1..] == s[st..];
    assert s == s[..e] + s[e..st] + s[st..];
  }

  /** A committed push keeps the old boxes in order: they are the new stack
      with the new box replaced by the evicted boxes. */
  lemma PushKeepsOrder(c: Candidate, block: Box)
    ensures var n := Push(c, block, true).cand;
            exists e :: 0 <= e < |n.blocks| && n.blocks[e] == block
                        && c.blocks == n.blocks[..e] + n.tabu + n.blocks[e + 1..]
  {
    var e := InsertIndex(c.blocks, block);
    var st := EvictStop(c.blocks, block);
    PushCommitShape(c, block);
    SpliceBack(c.blocks, e, st, block);
  }
}
