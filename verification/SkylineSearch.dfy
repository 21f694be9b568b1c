/** What the packer's search may conclude from looking at a few positions.

    The search walks node lists and only tries positions aligned with a node.  This module
    relates both shortcuts to brute force over columns: the one-pass scan under a candidate
    (`Scan`) to `Peak` and `Waste`, and the aligned positions to all integer positions. */
module SkylineSearch {
  import opened Basics
  import opened Skyline

  // ----- the scan under one candidate

  /** What the scan carries from node to node: the height found, the columns it takes as
      visited, and the waste gathered. */
  datatype Tally = Tally(minY: int, visited: int, waste: int)

  /** One turn of the scan's loop, at node `k`.  A node's stretch is cut at `x0` when it raises
      the height, and at the block's right edge when it does not. */
  ghost function Turn(s: Sky, k: nat, x0: int, w: int, t: Tally): Tally
    requires k + 1 < |s|
  {
    if t.minY < s[k].y then
      Tally(s[k].y, t.visited + s[k + 1].x - Max(s[k].x, x0), t.waste + t.visited * (s[k].y - t.minY))
    else
      var under := Min(s[k + 1].x - s[k].x, w - t.visited);
      Tally(t.minY, t.visited + under, t.waste + under * (t.minY - s[k].y))
  }

  /** The scan's loop from node `k` on. */
  ghost function Scan(s: Sky, k: nat, x0: int, w: int, t: Tally): Tally
    requires k < |s|
    decreases |s| - k
  {
    if x0 + w <= s[k].x || k + 1 == |s| then t else Scan(s, k + 1, x0, w, Turn(s, k, x0, w, t))
  }

  lemma ScanTurn(s: Sky, k: nat, x0: int, w: int, t: Tally)
    requires k + 1 < |s| && s[k].x < x0 + w
    ensures Scan(s, k, x0, w, t) == Scan(s, k + 1, x0, w, Turn(s, k, x0, w, t))
  {
  }

  lemma ScanEnd(s: Sky, k: nat, x0: int, w: int, t: Tally)
    requires k < |s| && x0 + w <= s[k].x
    ensures Scan(s, k, x0, w, t) == t
  {
  }

  lemma NotLast(s: Sky, width: nat, k: nat, x: int)
    requires Wf(s, width) && k < |s| && s[k].x < x <= width
    ensures k + 1 < |s|
  {
  }

  /** What the scan reports for a `w` wide block whose left edge is at `x0`. */
  ghost function Probe(s: Sky, x0: int, w: int): Tally
    requires |s| >= 1
  {
    Scan(s, Seg(s, x0), x0, w, Tally(0, 0, 0))
  }

  ghost predicate Legal(width: int, rw: int, x: int) { 0 <= x && x + rw <= width }

  /** The columns between node `k` (cut at `x0` and at `x1`) and its successor, as one flat stretch. */
  lemma {:induction false} StretchFlat(s: Sky, width: nat, k: nat, x0: int, x1: int)
    requires Wf(s, width) && 0 <= x0 < x1 <= width
    requires k + 1 < |s| && s[k].x < x1 && x0 < s[k + 1].x
    ensures var cols := Columns(s, width); var a := Max(s[k].x, x0); var b := Min(s[k + 1].x, x1);
      && a < b
      && Peak(cols, x0, b) == Max(Peak(cols, x0, a), s[k].y)
      && Sum(cols, x0, b) == Sum(cols, x0, a) + (b - a) * s[k].y
  {
    var cols := Columns(s, width);
    var a, b := Max(s[k].x, x0), Min(s[k + 1].x, x1);
    assert s[k].x < s[k + 1].x;
    forall c | a <= c < b ensures cols[c] == s[k].y {
      ColumnsAt(s, width, k, c);
    }
    PeakFlat(cols, x0, a, b, s[k].y);
  }

  /** What the scan should have gathered after visiting the columns `[x0, m)`. */
  ghost predicate Gathered(cols: Heights, x0: int, m: int, t: Tally)
    requires 0 <= x0 <= m <= |cols|
  {
    t.minY == Peak(cols, x0, m) && t.waste == Gap(cols, x0, m, t.minY)
  }

  /** Raising the line over `v` columns. */
  lemma {:induction false} GapRaised(cols: Heights, lo: int, hi: int, from: int, to: int)
    requires 0 <= lo <= hi <= |cols|
    ensures Gap(cols, lo, hi, to) == Gap(cols, lo, hi, from) + (hi - lo) * (to - from)
    decreases hi - lo
  {
    if lo < hi {
      GapRaised(cols, lo, hi - 1, from, to);
      assert (hi - lo) * (to - from) == (hi - 1 - lo) * (to - from) + (to - from);
    }
  }

  /** The gap over a flat stretch. */
  lemma {:induction false} GapFlat(cols: Heights, lo: int, mid: int, hi: int, y: int, top: int)
    requires 0 <= lo <= mid <= hi <= |cols|
    requires forall c :: mid <= c < hi ==> cols[c] == y
    ensures Gap(cols, lo, hi, top) == Gap(cols, lo, mid, top) + (hi - mid) * (top - y)
    decreases hi - mid
  {
    if mid < hi {
      GapFlat(cols, lo, mid, hi - 1, y, top);
      assert (hi - mid) * (top - y) == (hi - 1 - mid) * (top - y) + (top - y);
    }
  }

  lemma {:induction false} NodesIncrease(s: Sky, width: nat, k: nat)
    requires Wf(s, width) && k + 1 < |s|
    ensures 0 <= s[k].x < s[k + 1].x <= width
    ensures k + 2 < |s| ==> s[k + 1].x < s[k + 2].x
    ensures k + 2 == |s| ==> s[k + 1].x == width
  {
    assert s[0].x <= s[k].x && s[k + 1].x <= s[|s| - 1].x;
  }

  /** How far the scan has looked when it arrives at node `k`. */
  ghost function Reached(s: Sky, k: nat, x0: int, w: int): int
    requires k < |s|
  {
    Min(Max(s[k].x, x0), x0 + w)
  }

  lemma {:induction false} TurnFindsPeak(s: Sky, width: nat, k: nat, x0: int, w: int, t: Tally)
    requires Wf(s, width) && 0 < w && Legal(width, w, x0)
    requires k + 1 < |s| && s[k].x < x0 + w && x0 < s[k + 1].x
    requires t.minY == Peak(Columns(s, width), x0, Reached(s, k, x0, w))
    ensures Turn(s, k, x0, w, t).minY == Peak(Columns(s, width), x0, Reached(s, k + 1, x0, w))
  {
    StretchFlat(s, width, k, x0, x0 + w);
  }

  /** Whatever the bookkeeping of visited columns, the scan finds the greatest height. */
  lemma {:induction false} ScanFindsPeak(s: Sky, width: nat, k: nat, x0: int, w: int, t: Tally)
    requires Wf(s, width) && 0 < w && Legal(width, w, x0) && k < |s|
    requires k + 1 < |s| ==> x0 < s[k + 1].x
    requires t.minY == Peak(Columns(s, width), x0, Reached(s, k, x0, w))
    ensures Scan(s, k, x0, w, t).minY == Peak(Columns(s, width), x0, x0 + w)
    decreases |s| - k
  {
    if s[k].x < x0 + w {
      NodesIncrease(s, width, k);
      TurnFindsPeak(s, width, k, x0, w, t);
      ScanFindsPeak(s, width, k + 1, x0, w, Turn(s, k, x0, w, t));
    }
  }

  lemma {:induction false} GatherRaising(cols: Heights, x0: int, a: int, b: int, y: int, t: Tally, visited: int)
    requires 0 <= x0 <= a <= b <= |cols|
    requires forall c :: a <= c < b ==> cols[c] == y
    requires Gathered(cols, x0, a, t) && t.visited == a - x0 && t.minY < y && a < b
    ensures Gathered(cols, x0, b, Tally(y, visited, t.waste + t.visited * (y - t.minY)))
  {
    PeakFlat(cols, x0, a, b, y);
    GapRaised(cols, x0, a, t.minY, y);
    GapFlat(cols, x0, a, b, y, y);
  }

  lemma {:induction false} GatherFilling(cols: Heights, x0: int, a: int, b: int, y: int, t: Tally)
    requires 0 <= x0 <= a <= b <= |cols|
    requires forall c :: a <= c < b ==> cols[c] == y
    requires Gathered(cols, x0, a, t) && y <= t.minY
    ensures Gathered(cols, x0, b, Tally(t.minY, t.visited + (b - a), t.waste + (b - a) * (t.minY - y)))
  {
    PeakFlat(cols, x0, a, b, y);
    GapFlat(cols, x0, a, b, y, t.minY);
  }

  lemma {:induction false} TurnGathers(s: Sky, width: nat, k: nat, x0: int, w: int, t: Tally)
    requires Wf(s, width) && 0 < w && Legal(width, w, x0)
    requires k + 1 < |s| && s[k].x < x0 + w && x0 < s[k + 1].x && s[k].x < s[k + 1].x
    requires x0 <= s[k].x || t.minY < s[k].y
    requires Gathered(Columns(s, width), x0, Reached(s, k, x0, w), t) && t.visited == Reached(s, k, x0, w) - x0
    ensures var t' := Turn(s, k, x0, w, t);
      && Gathered(Columns(s, width), x0, Reached(s, k + 1, x0, w), t')
      && (s[k + 1].x <= x0 + w ==> t'.visited == s[k + 1].x - x0)
  {
    var a, b, y := Reached(s, k, x0, w), Reached(s, k + 1, x0, w), s[k].y;
    forall c | a <= c < b ensures Columns(s, width)[c] == y {
      ColumnsAt(s, width, k, c);
    }
    if t.minY < y {
      GatherRaising(Columns(s, width), x0, a, b, y, t, t.visited + s[k + 1].x - a);
    } else {
      GatherFilling(Columns(s, width), x0, a, b, y, t);
    }
  }

  /** Unless the scan starts inside a stretch that does not raise the height, the waste it
      reports is the true one. */
  lemma {:induction false} ScanIsExact(s: Sky, width: nat, k: nat, x0: int, w: int, t: Tally)
    requires Wf(s, width) && 0 < w && Legal(width, w, x0) && k < |s|
    requires k + 1 < |s| ==> x0 < s[k + 1].x
    requires x0 <= s[k].x || t.minY < s[k].y
    requires Gathered(Columns(s, width), x0, Reached(s, k, x0, w), t)
    requires s[k].x <= x0 + w ==> t.visited == Reached(s, k, x0, w) - x0
    ensures Gathered(Columns(s, width), x0, x0 + w, Scan(s, k, x0, w, t))
    decreases |s| - k
  {
    if s[k].x < x0 + w {
      NodesIncrease(s, width, k);
      TurnGathers(s, width, k, x0, w, t);
      ScanIsExact(s, width, k + 1, x0, w, Turn(s, k, x0, w, t));
    }
  }

  /** Does the scan at `x0` see the whole stretch it starts in, or at least rise on it? */
  ghost predicate SeesWhole(first: Pt, x0: int) { first.x == x0 || 0 < first.y }

  ghost predicate Exact(s: Sky, width: nat, x0: int, w: int)
    requires Wf(s, width) && 0 < w && Legal(width, w, x0)
  {
    && Probe(s, x0, w).minY == Peak(Columns(s, width), x0, x0 + w)
    && Probe(s, x0, w).waste == Waste(Columns(s, width), x0, w)
  }

  lemma {:induction false} ProbeIsExact(s: Sky, width: nat, x0: int, w: int)
    requires Wf(s, width) && 0 < w && Legal(width, w, x0)
    requires SeesWhole(s[Seg(s, x0)], x0)
    ensures Exact(s, width, x0, w)
  {
    ScanIsExact(s, width, Seg(s, x0), x0, w, Tally(0, 0, 0));
  }

  /** The scan is right on every skyline through `first` exactly when it sees the whole of
      `first`'s stretch or rises on it: a block starting strictly inside a stretch of height 0
      can be charged for columns left of it. */
  lemma {:induction false} ExactIff(first: Pt, x0: int)
    requires 0 <= first.x <= x0 && 0 <= first.y
    ensures SeesWhole(first, x0)
       <==> forall s: Sky, width: nat, w: int ::
              Wf(s, width) && 0 < w && Legal(width, w, x0) && s[Seg(s, x0)] == first ==> Exact(s, width, x0, w)
  {
    if SeesWhole(first, x0) {
      forall s: Sky, width: nat, w: int
        | Wf(s, width) && 0 < w && Legal(width, w, x0) && s[Seg(s, x0)] == first
        ensures Exact(s, width, x0, w)
      {
        ProbeIsExact(s, width, x0, w);
      }
    } else {
      WasteOverstated(first.x, x0);
    }
  }

  /** The failing family: a flat stretch of height 0 entered in its middle, then a step up. */
  lemma {:induction false} WasteOverstated(x: int, x0: int)
    requires 0 <= x < x0
    ensures exists s: Sky, width: nat, w: int ::
      Wf(s, width) && 0 < w && Legal(width, w, x0) && s[Seg(s, x0)] == Pt(x, 0) && !Exact(s, width, x0, w)
  {
    hide Columns, Waste, Probe, StepUp, Seg;
    StepUpScan(x, x0);
    StepUpWaste(x, x0);
    assert !Exact(StepUp(x, x0), x0 + 2, x0, 2);
  }

  lemma {:induction false} StepUpScan(x: int, x0: int)
    requires 0 <= x < x0
    ensures var s := StepUp(x, x0); s[Seg(s, x0)] == Pt(x, 0) && Probe(s, x0, 2).waste == 10
  {
    hide StepUp, Scan, Seg;
    var s := StepUp(x, x0);
    var k := |s| - 3;
    SegUnique(s, x0, k);
    ScanTurn(s, k, x0, 2, Tally(0, 0, 0));
    ScanTurn(s, k + 1, x0, 2, Tally(0, 2, 0));
    ScanEnd(s, k + 2, x0, 2, Turn(s, k + 1, x0, 2, Tally(0, 2, 0)));
  }

  ghost function StepUp(x: int, x0: int): (s: Sky)
    requires 0 <= x < x0
    ensures Wf(s, x0 + 2) && |s| >= 3
    ensures s[|s| - 3] == Pt(x, 0) && s[|s| - 2] == Pt(x0 + 1, 5) && s[|s| - 1] == Pt(x0 + 2, 9)
  {
    (if x == 0 then [] else [Pt(0, 0)]) + [Pt(x, 0), Pt(x0 + 1, 5), Pt(x0 + 2, 9)]
  }

  lemma {:induction false} StepUpWaste(x: int, x0: int)
    requires 0 <= x < x0
    ensures Waste(Columns(StepUp(x, x0), x0 + 2), x0, 2) == 5
  {
    var s := StepUp(x, x0);
    ColumnsAt(s, x0 + 2, |s| - 3, x0);
    ColumnsAt(s, x0 + 2, |s| - 2, x0 + 1);
    TwoColumnWaste(Columns(s, x0 + 2), x0);
  }

  lemma {:induction false} TwoColumnWaste(cols: Heights, x0: int)
    requires 0 <= x0 && |cols| == x0 + 2 && cols[x0] == 0 && cols[x0 + 1] == 5
    ensures Waste(cols, x0, 2) == 5
  {
    assert Peak(cols, x0, x0 + 1) == 0;
    assert Gap(cols, x0, x0 + 1, 5) == 5;
  }

  /** Only the last stretch before the sentinel may still be at height 0. */
  ghost predicate ZeroOnlyLast(s: Sky) {
    forall i :: 0 <= i < |s| - 2 ==> 0 < s[i].y
  }

  /** On such skylines the scan is exact wherever the block starts. */
  lemma {:induction false} ExactWhenZeroLast(s: Sky, width: nat, x0: int, w: int)
    requires Wf(s, width) && ZeroOnlyLast(s) && 0 < w && Legal(width, w, x0)
    ensures Exact(s, width, x0, w)
  {
    var k := Seg(s, x0);
    SegInside(s, width, x0);
    if SeesWhole(s[k], x0) {
      ProbeIsExact(s, width, x0, w);
    } else {
      InsideLastZero(s, width, x0, w);
    }
  }

  lemma {:induction false} InsideLastZero(s: Sky, width: nat, x0: int, w: int)
    requires Wf(s, width) && ZeroOnlyLast(s) && 0 < w && Legal(width, w, x0)
    requires !SeesWhole(s[Seg(s, x0)], x0)
    ensures Exact(s, width, x0, w)
  {
    var k := Seg(s, x0);
    var cols := Columns(s, width);
    SegInside(s, width, x0);
    assert k + 1 == |s| - 1;
    StretchFlat(s, width, k, x0, x0 + w);
    forall c | x0 <= c < x0 + w ensures cols[c] == 0 {
      ColumnsAt(s, width, k, c);
    }
    GapFlat(cols, x0, x0, x0 + w, 0, 0);
    var t := Turn(s, k, x0, w, Tally(0, 0, 0));
    assert t.minY == 0 && t.waste == 0;
    assert Scan(s, k + 1, x0, w, t) == t;
  }

  // ----- aligned positions suffice

  /** Sliding a block left to the start of the stretch under its left edge never makes it rest higher. */
  lemma {:induction false} NodeAlignedSuffices(s: Sky, width: nat, rw: int, x: int)
    requires Wf(s, width) && 0 < rw && Legal(width, rw, x)
    ensures var l := s[Seg(s, x)].x;
      && 0 <= l <= x && Legal(width, rw, l)
      && Peak(Columns(s, width), l, l + rw) <= Peak(Columns(s, width), x, x + rw)
  {
    var cols := Columns(s, width);
    var i := Seg(s, x);
    SegInside(s, width, x);
    var l := s[i].x;
    assert s[0].x <= l;
    PeakBounds(cols, x, x + rw);
    forall c | l <= c < l + rw ensures cols[c] <= Peak(cols, x, x + rw) {
      if c <= x {
        ColumnsAt(s, width, i, c);
        assert cols[x] <= Peak(cols, x, x + rw);
      }
    }
    PeakAtMost(cols, l, l + rw, Peak(cols, x, x + rw));
  }

  /** A position the best-fit search tries: some node lines up with the block's left or right edge. */
  ghost predicate Candidate(s: Sky, width: int, rw: int, x: int) {
    Legal(width, rw, x) && exists i :: 0 <= i < |s| && (s[i].x == x || s[i].x == x + rw)
  }

  /** Lower first, then less waste, then further left. */
  ghost predicate LexLe(y: int, waste: int, x: int, y': int, waste': int, x': int) {
    y < y' || (y == y' && (waste < waste' || (waste == waste' && x <= x')))
  }

  /** Position `x` is at least as good a best fit as `x'`. */
  ghost predicate BestFitLe(cols: Heights, rw: int, x: int, x': int)
    requires 0 < rw && Legal(|cols|, rw, x) && Legal(|cols|, rw, x')
  {
    LexLe(Peak(cols, x, x + rw), Waste(cols, x, rw), x, Peak(cols, x', x' + rw), Waste(cols, x', rw), x')
  }

  /** Sliding a block left over flat ground at `yi`, away from flat ground at `yj`. */
  lemma {:induction false} SlideLeft(cols: Heights, rw: int, t: int, x: int, yi: int, yj: int)
    requires 0 <= t <= x && 0 < rw && x + rw <= |cols|
    requires forall c :: t <= c <= x ==> cols[c] == yi
    requires forall c :: t + rw <= c < x + rw ==> cols[c] == yj
    ensures Peak(cols, t, t + rw) <= Peak(cols, x, x + rw)
    ensures Sum(cols, t, t + rw) == Sum(cols, x, x + rw) + (x - t) * yi - (x - t) * yj
  {
    PeakBounds(cols, x, x + rw);
    assert cols[x] <= Peak(cols, x, x + rw);
    PeakAtMost(cols, t, t + rw, Peak(cols, x, x + rw));
    SumSplit(cols, t, x, x + rw);
    SumSplit(cols, t, t + rw, x + rw);
    PeakFlat(cols, t, t, x, yi);
    PeakFlat(cols, t + rw, t + rw, x + rw, yj);
  }

  /** Sliding it right, away from flat ground at `yi` and over flat ground at `yj`. */
  lemma {:induction false} SlideRight(cols: Heights, rw: int, t: int, x: int, yi: int, yj: int)
    requires 0 <= x <= t && 0 < rw && t + rw <= |cols|
    requires forall c :: x <= c < t ==> cols[c] == yi
    requires forall c :: x + rw - 1 <= c < t + rw ==> cols[c] == yj
    ensures Peak(cols, t, t + rw) <= Peak(cols, x, x + rw)
    ensures Sum(cols, t, t + rw) == Sum(cols, x, x + rw) + (t - x) * yj - (t - x) * yi
  {
    PeakBounds(cols, x, x + rw);
    assert cols[x + rw - 1] <= Peak(cols, x, x + rw);
    PeakAtMost(cols, t, t + rw, Peak(cols, x, x + rw));
    SumSplit(cols, x, t, t + rw);
    SumSplit(cols, x, x + rw, t + rw);
    PeakFlat(cols, x, x, t, yi);
    PeakFlat(cols, x + rw, x + rw, t + rw, yj);
  }

  /** The block's columns `[x, x+rw)` lie over flat ground at both edges, from `s[i]` and `s[j]` on. */
  ghost predicate OverStretches(s: Sky, width: nat, rw: int, x: int, i: nat, j: nat) {
    && 0 < rw && Legal(width, rw, x) && i + 1 < |s| && j + 1 < |s|
    && 0 <= s[i].x < x < s[i + 1].x && s[j].x < x + rw < s[j + 1].x <= width
  }

  /** The leftmost position over the same two stretches; one edge of the block meets a node. */
  lemma {:induction false} SlideToLeft(s: Sky, width: nat, rw: int, x: int, i: nat, j: nat) returns (t: int)
    requires Wf(s, width) && OverStretches(s, width, rw, x, i, j) && s[j].y <= s[i].y
    ensures Legal(width, rw, t) && t <= x && (s[i].x == t || s[j].x == t + rw)
    ensures var cols := Columns(s, width);
      && Peak(cols, t, t + rw) <= Peak(cols, x, x + rw)
      && Sum(cols, x, x + rw) <= Sum(cols, t, t + rw)
  {
    var cols := Columns(s, width);
    t := Max(s[i].x, s[j].x - rw);
    forall c | t <= c <= x ensures cols[c] == s[i].y { ColumnsAt(s, width, i, c); }
    forall c | t + rw <= c < x + rw ensures cols[c] == s[j].y { ColumnsAt(s, width, j, c); }
    SlideLeft(cols, rw, t, x, s[i].y, s[j].y);
    Monotone(x - t, s[j].y, s[i].y);
  }

  /** The rightmost position over the same two stretches. */
  lemma {:induction false} SlideToRight(s: Sky, width: nat, rw: int, x: int, i: nat, j: nat) returns (t: int)
    requires Wf(s, width) && OverStretches(s, width, rw, x, i, j) && s[i].y < s[j].y
    ensures Legal(width, rw, t) && x < t && (s[i + 1].x == t || s[j + 1].x == t + rw)
    ensures var cols := Columns(s, width);
      && Peak(cols, t, t + rw) <= Peak(cols, x, x + rw)
      && Sum(cols, x, x + rw) < Sum(cols, t, t + rw)
  {
    var cols := Columns(s, width);
    t := Min(s[i + 1].x, s[j + 1].x - rw);
    forall c | x <= c < t ensures cols[c] == s[i].y { ColumnsAt(s, width, i, c); }
    forall c | x + rw - 1 <= c < t + rw ensures cols[c] == s[j].y { ColumnsAt(s, width, j, c); }
    SlideRight(cols, rw, t, x, s[i].y, s[j].y);
    Monotone(t - x, s[i].y, s[j].y);
  }

  lemma Monotone(d: int, lo: int, hi: int)
    requires 0 <= d && lo <= hi
    ensures d * lo <= d * hi
    ensures 0 < d && lo < hi ==> d * lo < d * hi
  {
  }

  /** Brute force over every integer position gains nothing over the candidates: a lowest
      position can be slid to a candidate that is no worse in height, waste and place. */
  lemma {:induction false} CandidatesSuffice(s: Sky, width: nat, rw: int, x: int) returns (t: int)
    requires Wf(s, width) && 0 < rw && Legal(width, rw, x)
    requires forall x' :: Legal(width, rw, x') ==> Peak(Columns(s, width), x, x + rw) <= Peak(Columns(s, width), x', x' + rw)
    ensures Candidate(s, width, rw, t)
    ensures BestFitLe(Columns(s, width), rw, t, x)
  {
    hide Columns, Peak, Waste;
    t := x;
    if !Candidate(s, width, rw, x) {
      var i, j := EdgesInside(s, width, rw, x);
      if s[j].y <= s[i].y {
        t := SlideToLeft(s, width, rw, x, i, j);
      } else {
        t := SlideToRight(s, width, rw, x, i, j);
      }
      WasteByArea(Columns(s, width), rw, t, x);
    }
  }

  /** Between positions of one height the waste is less where more is filled. */
  lemma {:induction false} WasteByArea(cols: Heights, rw: int, t: int, x: int)
    requires 0 < rw && Legal(|cols|, rw, t) && Legal(|cols|, rw, x)
    ensures var p, q := Peak(cols, t, t + rw), Peak(cols, x, x + rw);
      p == q ==> Waste(cols, t, rw) - Waste(cols, x, rw) == Sum(cols, x, x + rw) - Sum(cols, t, t + rw)
  {
    GapArea(cols, t, t + rw, Peak(cols, t, t + rw));
    GapArea(cols, x, x + rw, Peak(cols, x, x + rw));
  }

  lemma {:induction false} EdgesInside(s: Sky, width: nat, rw: int, x: int) returns (i: nat, j: nat)
    requires Wf(s, width) && 0 < rw && Legal(width, rw, x) && !Candidate(s, width, rw, x)
    ensures OverStretches(s, width, rw, x, i, j)
  {
    assert x + rw != s[|s| - 1].x;
    i, j := Seg(s, x), Seg(s, x + rw);
    SegInside(s, width, x);
    SegInside(s, width, x + rw);
    assert s[i].x != x && s[j].x != x + rw;
    NodesIncrease(s, width, i);
    NodesIncrease(s, width, j);
  }
}
