/** One placement keeps every promise of the packer, so every run does. */
module PackingSafety {
  import opened Basics
  import opened Skyline
  import opened SkylineSearch
  import opened Packing

  // ----- one placement

  ghost predicate Placing(st: State, r: Request, x: int) {
    Grounded(st) && Asks(st, r) && GoesTo(st, r, x)
  }

  lemma {:induction false} PlacedArgs(st: State, r: Request, x: int)
    requires Placing(st, r, x)
    ensures SpliceArgs(st.sky, st.width, Seg(st.sky, x), x, r.w, RestingY(st, r, x) + r.h)
    ensures 0 <= RestingY(st, r, x) && RestingY(st, r, x) + r.h <= st.height
  {
    SegInside(st.sky, st.width, x);
    PeakBounds(Outline(st), x, x + Rounded(r.w, st.align));
  }

  /** The placement raises the columns it stands on, and only those, with one exception: on a
      skyline whose node under the left edge starts further left and ends right of the block. */
  lemma {:induction false} PlacedRaises(st: State, r: Request, x: int)
    requires Placing(st, r, x)
    ensures SpliceArgs(st.sky, st.width, Seg(st.sky, x), x, r.w, RestingY(st, r, x) + r.h)
    ensures r.w <= RaisedWidth(st.sky, Seg(st.sky, x), x, r.w)
    ensures x + RaisedWidth(st.sky, Seg(st.sky, x), x, r.w) <= st.width
    ensures Wf(Placed(st, r, x).sky, st.width)
    ensures Outline(Placed(st, r, x))
         == Raise(Outline(st), x, RaisedWidth(st.sky, Seg(st.sky, x), x, r.w), RestingY(st, r, x) + r.h)
  {
    hide Splice;
    PlacedArgs(st, r, x);
    SpliceRaises(st.sky, st.width, Seg(st.sky, x), x, r.w, RestingY(st, r, x) + r.h);
  }

  /** What a block rests on, also when it is narrower than the width searched with. */
  lemma {:induction false} RestsAbove(st: State, r: Request, x: int, c: int)
    requires Placing(st, r, x) && x <= c < x + r.w
    ensures 0 <= c < st.width && Outline(st)[c] <= RestingY(st, r, x)
  {
    PeakBounds(Outline(st), x, x + Rounded(r.w, st.align));
  }

  lemma {:induction false} FlatZero(s: Sky, width: nat, k: nat, x: int, w: int)
    requires Wf(s, width) && k + 1 < |s| && s[k].y == 0
    requires s[k].x <= x && 0 < w && x + w <= s[k + 1].x
    ensures 0 <= x && x + w <= width
    ensures Peak(Columns(s, width), x, x + w) == 0 && Waste(Columns(s, width), x, w) == 0
  {
    NodesIncrease(s, width, k);
    forall c | x <= c < x + w ensures Columns(s, width)[c] == 0 {
      ColumnsAt(s, width, k, c);
    }
    PeakFlat(Columns(s, width), x, x, x + w, 0);
    GapFlat(Columns(s, width), x, x, x + w, 0, 0);
  }

  /** A best position never starts strictly inside ground that is still at height 0. */
  lemma {:induction false} BestAvoidsInnerZero(st: State, r: Request, x: int)
    requires Placing(st, r, x)
    ensures SeesWhole(st.sky[Seg(st.sky, x)], x)
  {
    var s, rw, k := st.sky, Rounded(r.w, st.align), Seg(st.sky, x);
    SegInside(s, st.width, x);
    if s[k].x < x && s[k].y == 0 {
      assert k == |s| - 2;
      NodesIncrease(s, st.width, k);
      FlatZero(s, st.width, k, x, rw);
      FlatZero(s, st.width, k, s[k].x, rw);
      assert Legal(st.width, rw, s[k].x);
    }
  }

  lemma {:induction false} SpliceZeroOnlyLast(s: Sky, width: nat, k: nat, x: int, w: int, top: int)
    requires SpliceArgs(s, width, k, x, w, top) && 0 < top
    requires ZeroOnlyLast(s) && SeesWhole(s[k], x)
    ensures ZeroOnlyLast(Splice(s, k, x, w, top))
  {
    SpliceIndex(s, width, k, x, w, top);
  }

  lemma {:induction false} SpliceToppedBy(s: Sky, width: nat, k: nat, x: int, w: int, top: int, height: int)
    requires SpliceArgs(s, width, k, x, w, top)
    requires ToppedBy(s, height) && top <= height
    ensures ToppedBy(Splice(s, k, x, w, top), height)
  {
    hide Splice;
    SpliceIndex(s, width, k, x, w, top);
  }

  lemma {:induction false} PlacedGrounded(st: State, r: Request, x: int)
    requires Placing(st, r, x)
    ensures Grounded(Placed(st, r, x))
  {
    hide Splice, Peak, Best, Wf, ZeroOnlyLast, ToppedBy;
    var k, top := Seg(st.sky, x), RestingY(st, r, x) + r.h;
    PlacedRaises(st, r, x);
    SpliceLength(st.sky, k, x, r.w, top);
    PlacedArgs(st, r, x);
    BestAvoidsInnerZero(st, r, x);
    SpliceZeroOnlyLast(st.sky, st.width, k, x, r.w, top);
    SpliceToppedBy(st.sky, st.width, k, x, r.w, top, st.height);
  }

  /** No column ever gets lower. */
  lemma {:induction false} PlacedNeverLowers(st: State, r: Request, x: int)
    requires Placing(st, r, x)
    ensures |Placed(st, r, x).sky| >= 1
    ensures forall c :: 0 <= c < st.width ==> Outline(st)[c] <= Outline(Placed(st, r, x))[c]
  {
    hide Splice, Peak, Best;
    PlacedRaises(st, r, x);
    var k := Seg(st.sky, x);
    RestsAbove(st, r, x, x);
    SegInside(st.sky, st.width, x);
    forall c | 0 <= c < st.width ensures Outline(st)[c] <= Outline(Placed(st, r, x))[c] {
      if x <= c < x + r.w {
        RestsAbove(st, r, x, c);
      } else if x + r.w <= c < x + RaisedWidth(st.sky, k, x, r.w) {
        ColumnsAt(st.sky, st.width, k, c);
      }
    }
  }

  /** The new box lies in the target, above everything placed before, and under the new outline. */
  lemma {:induction false} PlacedSafe(st: State, r: Request, x: int)
    requires Inv(st) && Placing(st, r, x)
    requires |Placed(st, r, x).sky| >= 1
    ensures Safe(Placed(st, r, x).boxes, st.width, st.height, Outline(Placed(st, r, x)))
  {
    hide Splice, Peak, Best, Grounded;
    PlacedArgs(st, r, x);
    PlacedRaises(st, r, x);
    PlacedNeverLowers(st, r, x);
    var b := Box(x, RestingY(st, r, x), r.w, r.h);
    forall i | 0 <= i < |st.boxes| ensures Disjoint(st.boxes[i], b) {
      NewBoxAbove(st, r, x, st.boxes[i]);
    }
    forall i | 0 <= i < |st.boxes| ensures Under(st.boxes[i], Outline(Placed(st, r, x))) {
    }
    assert Under(b, Outline(Placed(st, r, x)));
  }

  lemma {:induction false} NewBoxAbove(st: State, r: Request, x: int, b: Box)
    requires Placing(st, r, x)
    requires Inside(b, st.width, st.height) && Under(b, Outline(st))
    ensures Disjoint(b, Box(x, RestingY(st, r, x), r.w, r.h))
  {
    var c := Max(x, b.x);
    if c < x + r.w && c < b.x + b.w {
      RestsAbove(st, r, x, c);
    }
  }

  lemma {:induction false} PlacedInv(st: State, r: Request, x: int)
    requires Inv(st) && Asks(st, r) && GoesTo(st, r, x)
    ensures Inv(Placed(st, r, x))
  {
    hide Grounded, Safe, GoesTo, Placed;
    PlacedGrounded(st, r, x);
    PlacedParams(st, r, x);
    PlacedSafe(st, r, x);
  }

  /** A placement leaves the parameters alone. */
  lemma PlacedParams(st: State, r: Request, x: int)
    requires Placing(st, r, x)
    ensures var st' := Placed(st, r, x);
      && st'.width == st.width && st'.height == st.height && st'.align == st.align
      && st'.nodes == st.nodes && st'.heuristic == st.heuristic
      && |st'.sky| >= 1
  {
  }

  /** One request keeps the invariant, whether it is placed or not. */
  lemma {:induction false} StepKeepsInv(st: State, r: Request)
    requires Inv(st) && Asks(st, r)
    ensures Inv(Step(st, r))
  {
    if Spot(st, r).Some? {
      PlacedInv(st, r, Spot(st, r).value);
    }
  }

  /** The columns change exactly on `[x, x+w)` unless the node under the left edge starts further
      left and also ends right of the block; then the rest of its stretch is raised as well. */
  lemma {:induction false} PointwiseIff(st: State, r: Request, x: int)
    requires Placing(st, r, x)
    ensures |Placed(st, r, x).sky| >= 1
    ensures var k := Seg(st.sky, x); var top := RestingY(st, r, x) + r.h;
      k + 1 < |st.sky| && x + r.w <= st.width &&
      ((Outline(Placed(st, r, x)) == Raise(Outline(st), x, r.w, top))
       <==> !(st.sky[k].x < x && x + r.w < st.sky[k + 1].x))
  {
    hide Splice, Peak, Best, Wf;
    PlacedRaises(st, r, x);
    SegInside(st.sky, st.width, x);
    var k := Seg(st.sky, x);
    if st.sky[k].x < x && x + r.w < st.sky[k + 1].x {
      RestsAbove(st, r, x, x);
      ColumnsAt(st.sky, st.width, k, x + r.w);
      assert Outline(Placed(st, r, x))[x + r.w] != Raise(Outline(st), x, r.w, RestingY(st, r, x) + r.h)[x + r.w];
    }
  }

  /** With bottom-left the exception never arises: the best position starts at a node. */
  lemma {:induction false} BottomLeftStartsAtNode(st: State, r: Request, x: int)
    requires Placing(st, r, x) && st.heuristic == BottomLeft
    ensures st.sky[Seg(st.sky, x)].x == x
  {
    var rw := Rounded(r.w, st.align);
    NodeAlignedSuffices(st.sky, st.width, rw, x);
    assert NoWorse(st, rw, x, st.sky[Seg(st.sky, x)].x);
  }

  /** Nor does it when widths are rounded by at most two columns: a block that ends inside the
      stretch it starts in would fit on that stretch's left end, rounded width and all. */
  lemma {:induction false} NarrowRoundingMeetsNode(st: State, r: Request, x: int)
    requires Placing(st, r, x) && (st.heuristic == BottomLeft || st.align <= 3)
    ensures var k := Seg(st.sky, x); k + 1 < |st.sky| && !(st.sky[k].x < x && x + r.w < st.sky[k + 1].x)
  {
    hide Peak, Waste, Columns;
    SegInside(st.sky, st.width, x);
    var k, rw := Seg(st.sky, x), Rounded(r.w, st.align);
    if st.heuristic == BottomLeft {
      BottomLeftStartsAtNode(st, r, x);
    } else {
      NodesIncrease(st.sky, st.width, k);
      assert Legal(st.width, rw, st.sky[k].x) ==> NoWorse(st, rw, x, st.sky[k].x);
      if st.sky[k].x < x && x + r.w < st.sky[k + 1].x {
        OnStretch(st.sky, st.width, k, rw, x);
      }
    }
  }

  /** The left end of a stretch that is wide enough is lower than, or as low as, any position that
      starts further right on it, and nothing is wasted there. */
  lemma {:induction false} OnStretch(s: Sky, width: nat, k: nat, rw: int, x: int)
    requires Wf(s, width) && k + 1 < |s| && 0 < rw && s[k].x <= x < s[k + 1].x && s[k].x + rw <= s[k + 1].x <= width
    requires Legal(width, rw, x)
    ensures Legal(width, rw, s[k].x)
    ensures var cols := Columns(s, width);
      && Peak(cols, s[k].x, s[k].x + rw) <= Peak(cols, x, x + rw) && Waste(cols, s[k].x, rw) == 0 <= Waste(cols, x, rw)
  {
    hide Columns, Peak, Gap;
    var cols := Columns(s, width);
    NodesIncrease(s, width, k);
    ColumnsAt(s, width, k, x);
    FlatBlock(s, width, k, rw);
    PeakBounds(cols, x, x + rw);
    assert cols[x] <= Peak(cols, x, x + rw);
    GapNotNegative(cols, x, x + rw, Peak(cols, x, x + rw));
  }

  lemma {:induction false} FlatBlock(s: Sky, width: nat, k: nat, w: int)
    requires Wf(s, width) && k + 1 < |s| && 0 < w && 0 <= s[k].x && s[k].x + w <= s[k + 1].x <= width
    ensures Peak(Columns(s, width), s[k].x, s[k].x + w) == s[k].y && Waste(Columns(s, width), s[k].x, w) == 0
  {
    hide Columns;
    var cols, l := Columns(s, width), s[k].x;
    forall c | l <= c < l + w ensures cols[c] == s[k].y {
      ColumnsAt(s, width, k, c);
    }
    PeakFlat(cols, l, l, l + w, s[k].y);
    GapFlat(cols, l, l, l + w, s[k].y, s[k].y);
  }

  lemma {:induction false} GapNotNegative(cols: Heights, lo: int, hi: int, top: int)
    requires 0 <= lo <= hi <= |cols| && forall c :: lo <= c < hi ==> cols[c] <= top
    ensures 0 <= Gap(cols, lo, hi, top)
    decreases hi - lo
  {
    if lo < hi {
      GapNotNegative(cols, lo, hi - 1, top);
    }
  }

  /** The placement changes the columns `[x, x+w)` and no others. */
  ghost predicate Pointwise(st: State, r: Request, x: int)
    requires Placing(st, r, x)
  {
    SegInside(st.sky, st.width, x);
    && |Placed(st, r, x).sky| >= 1
    && Outline(Placed(st, r, x)) == Raise(Outline(st), x, r.w, RestingY(st, r, x) + r.h)
  }

  lemma {:induction false} NarrowRoundingIsPointwise(st: State, r: Request, x: int)
    requires Placing(st, r, x) && (st.heuristic == BottomLeft || st.align <= 3)
    ensures Pointwise(st, r, x)
  {
    hide Splice, Peak, Best, Columns, Raise;
    NarrowRoundingMeetsNode(st, r, x);
    PointwiseIff(st, r, x);
  }

  // ----- runs

  ghost predicate Positive(reqs: seq<Request>) {
    forall i :: 0 <= i < |reqs| ==> 0 < reqs[i].w && 0 < reqs[i].h
  }

  /** The state after a run of requests. */
  ghost function After(st: State, reqs: seq<Request>): (st': State)
    requires Inv(st) && Positive(reqs)
    ensures Inv(st')
    ensures st'.width == st.width && st'.height == st.height && st'.align == st.align
    ensures st'.nodes == st.nodes && st'.heuristic == st.heuristic
    decreases |reqs|
  {
    if reqs == [] then st
    else
      var mid := After(st, reqs[..|reqs| - 1]);
      StepKeepsInv(mid, reqs[|reqs| - 1]);
      Step(mid, reqs[|reqs| - 1])
  }

  /** Over any run from a fresh target, however configured, all placed boxes are pairwise
      disjoint and inside it. */
  lemma {:induction false} RunIsSafe(width: nat, height: nat, nodes: nat, allowOutOfMem: bool, heuristic: Heuristic,
                                     reqs: seq<Request>)
    requires 1 <= width && 1 <= height < SENTINEL_Y && 1 <= nodes && Positive(reqs)
    ensures Inv(Init(width, height, nodes, allowOutOfMem, heuristic))
    ensures var boxes := After(Init(width, height, nodes, allowOutOfMem, heuristic), reqs).boxes;
      && (forall i :: 0 <= i < |boxes| ==> Inside(boxes[i], width, height))
      && (forall i, j :: 0 <= i < j < |boxes| ==> Disjoint(boxes[i], boxes[j]))
  {
    InitInv(width, height, nodes, allowOutOfMem, heuristic);
  }

  // ----- conservation of area

  ghost function Area(boxes: seq<Box>): int
    decreases |boxes|
  {
    if boxes == [] then 0 else Area(boxes[..|boxes| - 1]) + boxes[|boxes| - 1].w * boxes[|boxes| - 1].h
  }

  /** The waste the scan reports for a request's block. */
  ghost function Charge(st: State, r: Request): int
    requires Asks(st, r)
  {
    match Spot(st, r)
    case None => 0
    case Some(x) => Probe(st.sky, x, Rounded(r.w, st.align)).waste
  }

  ghost function Wasted(st: State, reqs: seq<Request>): int
    requires Inv(st) && Positive(reqs)
    decreases |reqs|
  {
    if reqs == [] then 0
    else Wasted(st, reqs[..|reqs| - 1]) + Charge(After(st, reqs[..|reqs| - 1]), reqs[|reqs| - 1])
  }

  lemma {:induction false} StepArea(st: State, r: Request, x: int)
    requires Placing(st, r, x) && st.align == 1
    ensures |Placed(st, r, x).sky| >= 1
    ensures Sum(Outline(Placed(st, r, x)), 0, st.width)
         == Sum(Outline(st), 0, st.width) + r.w * r.h + Probe(st.sky, x, Rounded(r.w, st.align)).waste
  {
    hide Splice, Peak, Best, Scan, Sum, Columns, Gap, ZeroOnlyLast, ToppedBy;
    NarrowRoundingMeetsNode(st, r, x);
    PlacedRaises(st, r, x);
    ExactWhenZeroLast(st.sky, st.width, x, r.w);
    RaiseArea(Outline(st), x, r.w, RestingY(st, r, x), r.h);
  }

  lemma AreaAppend(boxes: seq<Box>, b: Box)
    ensures Area(boxes + [b]) == Area(boxes) + b.w * b.h
  {
    assert (boxes + [b])[..|boxes|] == boxes;
  }

  /** The area neither placed nor reported as waste, which is nothing. */
  lemma {:induction false} StepConserves(st: State, r: Request, wasted: int)
    requires Inv(st) && Asks(st, r) && st.align == 1
    requires Sum(Outline(st), 0, st.width) == Area(st.boxes) + wasted
    ensures |Step(st, r).sky| >= 1
    ensures Sum(Outline(Step(st, r)), 0, st.width) == Area(Step(st, r).boxes) + wasted + Charge(st, r)
  {
    if Spot(st, r).Some? {
      var x := Spot(st, r).value;
      StepArea(st, r, x);
      AreaAppend(st.boxes, Box(x, RestingY(st, r, x), r.w, r.h));
    }
  }

  /** When widths are not rounded, the area under the outline is at all times the area placed
      plus the waste reported, for either heuristic. */
  lemma {:induction false} AreaConserved(st: State, reqs: seq<Request>)
    requires Inv(st) && Positive(reqs) && st.align == 1
    requires Sum(Outline(st), 0, st.width) == Area(st.boxes)
    ensures Sum(Outline(After(st, reqs)), 0, st.width) == Area(After(st, reqs).boxes) + Wasted(st, reqs)
    decreases |reqs|
  {
    if reqs != [] {
      AreaConserved(st, reqs[..|reqs| - 1]);
      StepConserves(After(st, reqs[..|reqs| - 1]), reqs[|reqs| - 1], Wasted(st, reqs[..|reqs| - 1]));
    }
  }
}
