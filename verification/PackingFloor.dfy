/** Placing a block on ground that is still at height 0: the last stretch before the sentinel. */
module PackingFloor {
  import opened Basics
  import opened Skyline
  import opened SkylineSearch
  import opened Packing
  import opened PackingSafety

  /** The last stretch before the sentinel starts at `x` and is still at height 0. */
  ghost predicate FloorAt(st: State, x: int) {
    Grounded(st) && st.sky[|st.sky| - 2] == Pt(x, 0)
  }

  /** As long as the rounded width fits on the floor, a block goes to its left end. */
  lemma {:induction false} FloorSpot(st: State, r: Request, x: int)
    requires FloorAt(st, x) && Asks(st, r) && 0 < st.free
    requires x + Rounded(r.w, st.align) <= st.width && r.h <= st.height
    ensures Spot(st, r) == Some(x) && RestingY(st, r, x) == 0
  {
    hide Columns, Peak, Waste, Fits, Spot;
    var rw, k := Rounded(r.w, st.align), |st.sky| - 2;
    NodesIncrease(st.sky, st.width, k);
    FlatZero(st.sky, st.width, k, x, rw);
    forall x' | Legal(st.width, rw, x') ensures NoWorse(st, rw, x, x') {
      if x <= x' {
        FlatZero(st.sky, st.width, k, x', rw);
      } else {
        SegInside(st.sky, st.width, x');
        PeakBounds(Outline(st), x', x' + rw);
        assert 0 < Outline(st)[x'] <= Peak(Outline(st), x', x' + rw);
      }
    }
    SpotIs(st, r, x);
  }

  /** The nodes after a block was put on the left end of the floor. */
  ghost function OnFloor(s: Sky, x: int, r: Request, width: int): Sky
    requires |s| >= 2
  {
    s[..|s| - 2] + [Pt(x, r.h)] + (if x + r.w < width then [Pt(x + r.w, 0)] else []) + [Pt(width, SENTINEL_Y)]
  }

  lemma {:induction false} FloorSplice(st: State, r: Request, x: int)
    requires FloorAt(st, x) && 0 < r.w && x + r.w <= st.width
    ensures Seg(st.sky, x) == |st.sky| - 2
    ensures Splice(st.sky, |st.sky| - 2, x, r.w, r.h) == OnFloor(st.sky, x, r, st.width)
    ensures Skip(st.sky, Start(st.sky, |st.sky| - 2, x), x + r.w) ==
      if x + r.w < st.width then |st.sky| - 2 else |st.sky| - 1
  {
    var s, k := st.sky, |st.sky| - 2;
    hide Skip, ZeroOnlyLast, Seg;
    SegUnique(s, x, k);
    SkipStep(s, k, x + r.w);
    LastIs(s, st.width);
    if x + r.w == st.width {
      SkipStep(s, k + 1, x + r.w);
      assert s[k + 2..] == [];
    }
  }

  lemma LastIs(s: Sky, width: nat)
    requires |s| >= 2 && s[|s| - 1] == Pt(width, SENTINEL_Y)
    ensures s[|s| - 1..] == [Pt(width, SENTINEL_Y)]
  {
  }

  lemma {:induction false} FloorStep(st: State, r: Request, x: int)
    requires FloorAt(st, x) && Asks(st, r) && 0 < st.free
    requires x + Rounded(r.w, st.align) <= st.width && r.h <= st.height
    ensures Grounded(Step(st, r)) && Step(st, r).sky == OnFloor(st.sky, x, r, st.width)
    ensures Step(st, r).free == if x + r.w < st.width then st.free - 1 else st.free
    ensures Step(st, r).width == st.width && Step(st, r).height == st.height && Step(st, r).align == st.align
    ensures Step(st, r).heuristic == st.heuristic && Step(st, r).nodes == st.nodes
  {
    hide Splice, Skip, Peak, Best, Fits, OnFloor;
    FloorSpot(st, r, x);
    PlacedGrounded(st, r, x);
    FloorSplice(st, r, x);
  }
}
