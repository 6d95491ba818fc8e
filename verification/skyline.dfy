/** The divide-and-conquer skyline of assignment1/sources/algos.py. A skyline
    is a list of critical points `[x, h]`: from `x` on, up to the next
    critical point, the outline has height `h`; before the first point it
    has height 0. */
module Skyline {
  import opened Wrappers

  datatype Point = Point(x: int, h: int)

  /** `[left, right, height]` as read from the input file. */
  datatype Building = Building(left: int, right: int, height: int)

  /** What the source raises. */
  datatype Error =
    | EmptyBuildings   // `conquer` indexes `buildings[0]` of an empty list
    | RecursionLimit   // `solve` recurses on a list equal to its own first half

  function Max(a: int, b: int): int
  {
    if a >= b then a else b
  }

  /** Abscissas never decrease. */
  predicate SortedX(s: seq<Point>)
  {
    forall i, j :: 0 <= i < j < |s| ==> s[i].x <= s[j].x
  }

  /** Abscissas strictly increase: no two points share an `x`. */
  predicate StrictX(s: seq<Point>)
  {
    forall i, j :: 0 <= i < j < |s| ==> s[i].x < s[j].x
  }

  /** No two consecutive points share a height. */
  ghost predicate NoRepeatedHeight(s: seq<Point>)
  {
    forall i :: 0 <= i < |s| - 1 ==> s[i].h != s[i + 1].h
  }

  /** The height a list of critical points gives at abscissa `x`: that of the
      last point at or before `x`, or 0 when there is none. */
  function SkyAt(s: seq<Point>, x: int): int
  {
    if |s| == 0 then 0
    else if s[|s| - 1].x <= x then s[|s| - 1].h
    else SkyAt(s[..|s| - 1], x)
  }

  /** Adding a raised critical point to the merged list: a last point with
      the same abscissa is dropped first, and the point is only added when
      its height differs from the (new) last one. */
  function Append(out: seq<Point>, p: Point): (r: seq<Point>)
    ensures |r| > 0
    ensures forall q :: q in r ==> q in out || q == p
  {
    var kept := if |out| > 0 && out[|out| - 1].x == p.x then out[..|out| - 1] else out;
    if |kept| == 0 || kept[|kept| - 1].h != p.h then kept + [p] else kept
  }

  /** Adding a point keeps consecutive heights distinct and, when no point
      of the list lies right of it, abscissas strictly increasing. */
  lemma AppendShape(out: seq<Point>, p: Point)
    ensures NoRepeatedHeight(out) ==> NoRepeatedHeight(Append(out, p))
    ensures (forall q :: q in out ==> q.x <= p.x) && StrictX(out) ==> StrictX(Append(out, p))
  {
    var kept := if |out| > 0 && out[|out| - 1].x == p.x then out[..|out| - 1] else out;
    assert forall q :: q in kept ==> q in out;
  }

  /** When no point of the list lies right of the added point, the outline
      is unchanged before it and takes the point's height from it on. */
  lemma AppendOutline(out: seq<Point>, p: Point)
    requires forall q :: q in out ==> q.x <= p.x
    ensures forall x :: SkyAt(Append(out, p), x) == if p.x <= x then p.h else SkyAt(out, x)
  {
    var kept := if |out| > 0 && out[|out| - 1].x == p.x then out[..|out| - 1] else out;
    var r := Append(out, p);
    if r == kept + [p] {
      assert r[..|r| - 1] == kept;
    }
  }

  /** `IDCAlgo.merge`: walk both halves in order of abscissa, taking the
      second half's point only when the first half is used up or its next
      point lies strictly further right, so equal abscissas go to the first
      half first; raise each point to the larger of the latest heights seen
      in either half. */
  method Merge(a: seq<Point>, b: seq<Point>) returns (r: seq<Point>)
    ensures r == [] <==> |a| + |b| == 0
    ensures NoRepeatedHeight(r)
    ensures SortedX(a) && SortedX(b) ==> StrictX(r)
    ensures SortedX(a) && SortedX(b) ==> forall x :: SkyAt(r, x) == Max(SkyAt(a, x), SkyAt(b, x))
  {
    r := [];
    var ha, hb := 0, 0;
    var i, j := 0, 0;
    assert a[..0] == [] && b[..0] == [];
    while i != |a| || j != |b|
      invariant 0 <= i <= |a| && 0 <= j <= |b|
      invariant MergeInv(a, b, i, j, ha, hb, r)
      decreases |a| - i + |b| - j
    {
      var takeSecond := j != |b| && (i == |a| || a[i].x > b[j].x);
      if takeSecond {
        var p := Point(b[j].x, Max(ha, b[j].h));
        TakeSecondStep(a, b, i, j, ha, hb, r);
        r, hb, j := Append(r, p), b[j].h, j + 1;
      } else {
        var p := Point(a[i].x, Max(a[i].h, hb));
        TakeFirstStep(a, b, i, j, ha, hb, r);
        r, ha, i := Append(r, p), a[i].h, i + 1;
      }
    }
    MergeDone(a, b, ha, hb, r);
  }

  /** Once both halves are used up the invariant gives the merge's result. */
  lemma MergeDone(a: seq<Point>, b: seq<Point>, ha: int, hb: int, r: seq<Point>)
    requires MergeInv(a, b, |a|, |b|, ha, hb, r)
    ensures r == [] <==> |a| + |b| == 0
    ensures NoRepeatedHeight(r)
    ensures SortedX(a) && SortedX(b) ==> StrictX(r)
    ensures SortedX(a) && SortedX(b) ==> forall x :: SkyAt(r, x) == Max(SkyAt(a, x), SkyAt(b, x))
  {
    assert a[..|a|] == a && b[..|b|] == b;
  }

  /** What holds after the first `i` points of `a` and `j` points of `b`
      have been taken: `ha` and `hb` are the latest heights taken from each
      half, and, for sorted halves, the merged list is ordered, lies left of
      every point still to come, and has the outline of the higher of the two
      consumed prefixes. */
  ghost predicate MergeInv(a: seq<Point>, b: seq<Point>, i: nat, j: nat, ha: int, hb: int, r: seq<Point>)
    requires i <= |a| && j <= |b|
  {
    && ha == (if i == 0 then 0 else a[i - 1].h)
    && hb == (if j == 0 then 0 else b[j - 1].h)
    && (r == [] <==> i + j == 0)
    && NoRepeatedHeight(r)
    && (SortedX(a) && SortedX(b) ==> MergeOrder(a, b, i, j, r) && MergeOutline(a, b, i, j, r))
  }

  ghost predicate MergeOrder(a: seq<Point>, b: seq<Point>, i: nat, j: nat, r: seq<Point>)
    requires i <= |a| && j <= |b|
  {
    && StrictX(r)
    && (forall q :: q in r ==> (i < |a| ==> q.x <= a[i].x) && (j < |b| ==> q.x <= b[j].x))
    && (0 < i && j < |b| ==> a[i - 1].x <= b[j].x)
    && (0 < j && i < |a| ==> b[j - 1].x <= a[i].x)
  }

  ghost predicate MergeOutline(a: seq<Point>, b: seq<Point>, i: nat, j: nat, r: seq<Point>)
    requires i <= |a| && j <= |b|
  {
    forall x :: SkyAt(r, x) == Max(SkyAt(a[..i], x), SkyAt(b[..j], x))
  }

  /** Taking the second half's next point keeps the merge invariant. */
  lemma TakeSecondStep(a: seq<Point>, b: seq<Point>, i: nat, j: nat, ha: int, hb: int, r: seq<Point>)
    requires i <= |a| && j < |b| && (i == |a| || a[i].x > b[j].x)
    requires MergeInv(a, b, i, j, ha, hb, r)
    ensures MergeInv(a, b, i, j + 1, ha, b[j].h, Append(r, Point(b[j].x, Max(ha, b[j].h))))
  {
    var p := Point(b[j].x, Max(ha, b[j].h));
    var r' := Append(r, p);
    AppendShape(r, p);
    if SortedX(a) && SortedX(b) {
      SecondOrder(a, b, i, j, r, p);
      SecondOutline(a, b, i, j, ha, r, p);
    }
  }

  lemma SecondOrder(a: seq<Point>, b: seq<Point>, i: nat, j: nat, r: seq<Point>, p: Point)
    requires i <= |a| && j < |b| && (i == |a| || a[i].x > b[j].x)
    requires SortedX(a) && SortedX(b) && MergeOrder(a, b, i, j, r) && p.x == b[j].x
    ensures MergeOrder(a, b, i, j + 1, Append(r, p))
  {
    var r' := Append(r, p);
    AppendShape(r, p);
    forall q | q in r'
      ensures (i < |a| ==> q.x <= a[i].x) && (j + 1 < |b| ==> q.x <= b[j + 1].x)
    {
    }
  }

  lemma SecondOutline(a: seq<Point>, b: seq<Point>, i: nat, j: nat, ha: int, r: seq<Point>, p: Point)
    requires i <= |a| && j < |b|
    requires ha == (if i == 0 then 0 else a[i - 1].h)
    requires forall q :: q in r ==> q.x <= b[j].x
    requires 0 < i ==> a[i - 1].x <= b[j].x
    requires MergeOutline(a, b, i, j, r) && p == Point(b[j].x, Max(ha, b[j].h))
    ensures MergeOutline(a, b, i, j + 1, Append(r, p))
  {
    assert b[..j] + [b[j]] == b[..j + 1];
    if i > 0 {
      assert a[..i][i - 1] == a[i - 1];
    }
    MergeStep(r, b[..j], b[j], a[..i], p);
  }

  /** Taking the first half's next point keeps the merge invariant. */
  lemma TakeFirstStep(a: seq<Point>, b: seq<Point>, i: nat, j: nat, ha: int, hb: int, r: seq<Point>)
    requires i < |a| && j <= |b| && (j == |b| || a[i].x <= b[j].x)
    requires MergeInv(a, b, i, j, ha, hb, r)
    ensures MergeInv(a, b, i + 1, j, a[i].h, hb, Append(r, Point(a[i].x, Max(a[i].h, hb))))
  {
    var p := Point(a[i].x, Max(a[i].h, hb));
    AppendShape(r, p);
    if SortedX(a) && SortedX(b) {
      FirstOrder(a, b, i, j, r, p);
      FirstOutline(a, b, i, j, hb, r, p);
    }
  }

  lemma FirstOrder(a: seq<Point>, b: seq<Point>, i: nat, j: nat, r: seq<Point>, p: Point)
    requires i < |a| && j <= |b| && (j == |b| || a[i].x <= b[j].x)
    requires SortedX(a) && SortedX(b) && MergeOrder(a, b, i, j, r) && p.x == a[i].x
    ensures MergeOrder(a, b, i + 1, j, Append(r, p))
  {
    var r' := Append(r, p);
    AppendShape(r, p);
    forall q | q in r'
      ensures (i + 1 < |a| ==> q.x <= a[i + 1].x) && (j < |b| ==> q.x <= b[j].x)
    {
    }
  }

  lemma FirstOutline(a: seq<Point>, b: seq<Point>, i: nat, j: nat, hb: int, r: seq<Point>, p: Point)
    requires i < |a| && j <= |b|
    requires hb == (if j == 0 then 0 else b[j - 1].h)
    requires forall q :: q in r ==> q.x <= a[i].x
    requires 0 < j ==> b[j - 1].x <= a[i].x
    requires MergeOutline(a, b, i, j, r) && p == Point(a[i].x, Max(a[i].h, hb))
    ensures MergeOutline(a, b, i + 1, j, Append(r, p))
  {
    assert a[..i] + [a[i]] == a[..i + 1];
    if j > 0 {
      assert b[..j][j - 1] == b[j - 1];
    }
    MergeStep(r, a[..i], a[i], b[..j], p);
  }

  /** One step of the merge keeps the merged list's outline equal to the
      higher of the consumed parts' outlines: `y` is the next point of one
      half, `s` the points already taken from it, `t` those taken from the
      other half, and `p` is `y` raised to the other half's latest height. */
  lemma MergeStep(out: seq<Point>, s: seq<Point>, y: Point, t: seq<Point>, p: Point)
    requires forall x :: SkyAt(out, x) == Max(SkyAt(s, x), SkyAt(t, x))
    requires forall q :: q in out ==> q.x <= y.x
    requires |t| > 0 ==> t[|t| - 1].x <= y.x
    requires p == Point(y.x, Max(y.h, if |t| == 0 then 0 else t[|t| - 1].h))
    ensures forall x :: SkyAt(Append(out, p), x) == Max(SkyAt(s + [y], x), SkyAt(t, x))
    ensures forall x :: SkyAt(Append(out, p), x) == Max(SkyAt(t, x), SkyAt(s + [y], x))
  {
    var r := Append(out, p);
    AppendOutline(out, p);
    forall x
      ensures SkyAt(r, x) == Max(SkyAt(s + [y], x), SkyAt(t, x))
    {
      assert (s + [y])[..|s|] == s;
    }
  }

  /** `DCAlgo.conquer`: the outline of the first building alone. */
  function Conquer(buildings: seq<Building>): (r: Result<seq<Point>, Error>)
    ensures |buildings| == 0 <==> r.Err?
    ensures r.Ok? && WellFormed(buildings[..1]) ==>
              SortedX(r.value) && forall x :: SkyAt(r.value, x) == Highest(buildings[..1], x)
  {
    if |buildings| == 0 then Err(EmptyBuildings)
    else
      var b := buildings[0];
      var r := [Point(b.left, b.height), Point(b.right, 0)];
      assert WellFormed(buildings[..1]) ==> forall x :: SkyAt(r, x) == Highest(buildings[..1], x) by {
        if WellFormed(buildings[..1]) {
          assert buildings[..1] == [b];
          SingleOutline(b);
        }
      }
      Ok(r)
  }

  /** The two critical points of one building trace its outline. */
  lemma SingleOutline(b: Building)
    requires b.left <= b.right && b.height >= 0
    ensures forall x :: SkyAt([Point(b.left, b.height), Point(b.right, 0)], x) == Highest([b], x)
  {
    var r := [Point(b.left, b.height), Point(b.right, 0)];
    forall x
      ensures SkyAt(r, x) == Highest([b], x)
    {
      assert r[..1] == [Point(b.left, b.height)] && r[..1][..0] == [];
      assert [b][..0] == [];
      assert Highest([b], x) == Max(0, if b.left <= x < b.right then b.height else 0);
      if b.right <= x {
        assert SkyAt(r, x) == 0;
      } else if b.left <= x {
        assert SkyAt(r, x) == SkyAt(r[..1], x) == b.height;
      } else {
        assert SkyAt(r, x) == SkyAt(r[..1], x) == SkyAt(r[..1][..0], x) == 0;
      }
    }
  }

  /** Buildings occupy `[left, right)` and are not below ground. */
  predicate WellFormed(buildings: seq<Building>)
  {
    forall k :: 0 <= k < |buildings| ==> buildings[k].left <= buildings[k].right && buildings[k].height >= 0
  }

  /** The intended outline at `x`: the tallest building standing over `x`,
      or 0. */
  function Highest(buildings: seq<Building>, x: int): (h: int)
    ensures h >= 0
  {
    if |buildings| == 0 then 0
    else
      var b := buildings[|buildings| - 1];
      Max(Highest(buildings[..|buildings| - 1], x), if b.left <= x < b.right then b.height else 0)
  }

  /** The outline of a list is the higher of the outlines of its two parts. */
  lemma {:induction false} HighestSplit(buildings: seq<Building>, m: nat, x: int)
    requires m <= |buildings|
    ensures Highest(buildings, x) == Max(Highest(buildings[..m], x), Highest(buildings[m..], x))
    decreases |buildings|
  {
    if m == |buildings| {
      assert buildings[..m] == buildings;
      assert buildings[m..] == [];
    } else {
      var n := |buildings| - 1;
      HighestSplit(buildings[..n], m, x);
      assert buildings[..n][..m] == buildings[..m];
      assert buildings[m..][..|buildings[m..]| - 1] == buildings[..n][m..];
    }
  }

  /** The split of `solve` makes progress on two buildings or more, and on
      fewer the first half is the whole list, so a list of at most one
      building that is not handed to `conquer` is split into itself. */
  lemma FirstHalfStalls(buildings: seq<Building>)
    ensures |buildings| >= 2 ==> 1 <= (|buildings| + 1) / 2 < |buildings|
    ensures |buildings| <= 1 ==> buildings[..(|buildings| + 1) / 2] == buildings
  {
  }

  /** `IDCAlgo.solve`: small lists go to `conquer`, larger ones are split
      at `(n + 1) // 2` and the two outlines merged. With a threshold below 1
      the leftmost descent reaches a list of at most one building that is
      not small enough for `conquer`, which the split hands back unchanged;
      Python stops that recursion with `RecursionError`. */
  method Solve(threshold: int, buildings: seq<Building>) returns (r: Result<seq<Point>, Error>)
    ensures threshold >= 1 ==> (|buildings| == 0 <==> r.Err?)
    ensures r == Err(RecursionLimit) <==> threshold < 1 && |buildings| > threshold
    ensures threshold < 1 ==> r.Err?
    ensures r.Ok? && |buildings| > threshold ==> NoRepeatedHeight(r.value)
    ensures r.Ok? && WellFormed(buildings) ==> SortedX(r.value)
    ensures r.Ok? && WellFormed(buildings) && threshold == 1 ==>
              forall x :: SkyAt(r.value, x) == Highest(buildings, x)
    decreases |buildings|
  {
    var n := |buildings|;
    if n <= threshold {
      r := Conquer(buildings);
      if r.Ok? && WellFormed(buildings) && threshold == 1 {
        assert buildings[..1] == buildings;
      }
      return;
    }
    if threshold < 1 {
      return Err(RecursionLimit);
    }
    var mid := (n + 1) / 2;
    var lo, hi := buildings[..mid], buildings[mid..];
    var left := Solve(threshold, lo);
    var right := Solve(threshold, hi);
    var m := Merge(left.value, right.value);
    r := Ok(m);
    if WellFormed(buildings) && threshold == 1 {
      assert WellFormed(lo) && WellFormed(hi);
      forall x
        ensures SkyAt(m, x) == Highest(buildings, x)
      {
        HighestSplit(buildings, mid, x);
      }
    }
  }

  /** `DCAlgo`: the solver with threshold 1. */
  method DivideAndConquer(buildings: seq<Building>) returns (r: Result<seq<Point>, Error>)
    ensures |buildings| == 0 <==> r.Err?
    ensures r.Ok? && WellFormed(buildings) ==>
              SortedX(r.value) && forall x :: SkyAt(r.value, x) == Highest(buildings, x)
  {
    r := Solve(1, buildings);
  }
}
