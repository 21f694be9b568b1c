/** The packer's protocol on values: a skyline, a count of spare nodes, and the boxes placed.

    One request either places a box at the best position brute force could find, or leaves
    everything as it was.  Whole runs are folds of requests; the theorems are about every run
    from a freshly initialised target. */
module Packing {
  import opened Basics
  import opened Skyline
  import opened SkylineSearch

  const SENTINEL_Y := 0x4000_0000

  datatype Heuristic = BottomLeft | BestFit

  datatype Box = Box(x: int, y: int, w: int, h: int)

  datatype Request = Request(w: int, h: int)

  datatype State = State(
    width: nat, height: nat, align: nat, heuristic: Heuristic, nodes: nat,
    sky: Sky, free: nat, boxes: seq<Box>)

  // ----- parameters

  /** The width a request is searched with: rounded up to a multiple of `align`. */
  function Rounded(w: int, align: int): (r: int)
    requires 0 < w && 0 < align
    ensures w <= r < w + align && r % align == 0
  {
    RoundDown(w + align - 1, align);
    w + align - 1 - (w + align - 1) % align
  }

  lemma RoundDown(v: int, a: int)
    requires 0 <= v && 0 < a
    ensures (v - v % a) % a == 0
  {
    Multiple(v / a, a);
  }

  lemma {:induction false} Multiple(k: int, a: int)
    requires 0 < a
    ensures (k * a) % a == 0
  {
    var d, e := (k * a) / a, (k * a) % a;
    assert a * (k - d) == k * a - a * d == e;
    SmallMultiple(a, k - d);
  }

  lemma SmallMultiple(a: int, n: int)
    requires 0 < a && 0 <= a * n < a
    ensures n == 0
  {
    if 0 < n {
      Product(a, n - 1);
    } else if n < 0 {
      Product(a, -n - 1);
    }
  }

  lemma Product(a: int, n: int)
    requires 0 < a && 0 <= n
    ensures 0 <= a * n && a * (n + 1) == a * n + a && a * (-n - 1) == -(a * n) - a
  {
  }

  /** The rounded width is the only multiple of `align` there is room for. */
  lemma {:induction false} RoundedIs(w: int, align: int, m: int)
    requires 0 < w && 0 < align && w <= m < w + align && m % align == 0
    ensures Rounded(w, align) == m
  {
    var r := Rounded(w, align);
    var i, j := r / align, m / align;
    assert r == align * i && m == align * j;
    assert align * (i - j) == r - m && align * (j - i) == m - r;
    if j <= i { SmallMultiple(align, i - j); } else { SmallMultiple(align, j - i); }
  }

  /** The quantum chosen when running out of nodes is not allowed. */
  function Quantum(width: int, nodes: int): (a: int)
    requires 0 < width && 0 < nodes
    ensures 0 < a && width <= nodes * a < width + nodes
  {
    assert (width + nodes - 1) == nodes * ((width + nodes - 1) / nodes) + (width + nodes - 1) % nodes;
    (width + nodes - 1) / nodes
  }

  ghost predicate Params(st: State) {
    1 <= st.width && 1 <= st.height < SENTINEL_Y && 1 <= st.nodes && 1 <= st.align
  }

  ghost function Outline(st: State): (cols: Heights)
    requires |st.sky| >= 1
    ensures |cols| == st.width
  {
    Columns(st.sky, st.width)
  }

  // ----- geometry

  ghost predicate Inside(b: Box, width: int, height: int) {
    0 < b.w && 0 < b.h && 0 <= b.x && b.x + b.w <= width && 0 <= b.y && b.y + b.h <= height
  }

  ghost predicate Disjoint(a: Box, b: Box) {
    a.x + a.w <= b.x || b.x + b.w <= a.x || a.y + a.h <= b.y || b.y + b.h <= a.y
  }

  /** The outline is nowhere below the top of `b`. */
  ghost predicate Under(b: Box, cols: Heights) {
    forall c :: 0 <= c < |cols| && b.x <= c < b.x + b.w ==> b.y + b.h <= cols[c]
  }

  /** No placed box leaves the target or overlaps another, and all lie under the outline. */
  ghost predicate Safe(boxes: seq<Box>, width: int, height: int, cols: Heights) {
    && (forall i :: 0 <= i < |boxes| ==> Inside(boxes[i], width, height) && Under(boxes[i], cols))
    && (forall i, j :: 0 <= i < j < |boxes| ==> Disjoint(boxes[i], boxes[j]))
  }

  /** The list side of the invariant: a proper skyline, and every node accounted for. */
  ghost predicate Grounded(st: State) {
    && Params(st)
    && Wf(st.sky, st.width)
    && ToppedBy(st.sky, st.height)
    && ZeroOnlyLast(st.sky)
    && |st.sky| + st.free == st.nodes + 2
  }

  /** The sentinel is out of reach and every other node within the target. */
  ghost predicate ToppedBy(s: Sky, height: int) {
    && |s| >= 1
    && s[|s| - 1].y == SENTINEL_Y
    && forall i :: 0 <= i < |s| - 1 ==> s[i].y <= height
  }

  /** What every reachable state satisfies. */
  ghost predicate Inv(st: State) {
    Grounded(st) && Safe(st.boxes, st.width, st.height, Outline(st))
  }

  /** A fresh target, as configured before the first request. */
  ghost function Init(width: nat, height: nat, nodes: nat, allowOutOfMem: bool, heuristic: Heuristic): State
    requires 1 <= width && 1 <= nodes
  {
    State(width, height, if allowOutOfMem then 1 else Quantum(width, nodes), heuristic, nodes,
          [Pt(0, 0), Pt(width, SENTINEL_Y)], nodes, [])
  }

  lemma {:induction false} InitInv(width: nat, height: nat, nodes: nat, allowOutOfMem: bool, heuristic: Heuristic)
    requires 1 <= width && 1 <= height < SENTINEL_Y && 1 <= nodes
    ensures Inv(Init(width, height, nodes, allowOutOfMem, heuristic))
    ensures Sum(Outline(Init(width, height, nodes, allowOutOfMem, heuristic)), 0, width) == 0
  {
    var st := Init(width, height, nodes, allowOutOfMem, heuristic);
    forall c | 0 <= c < width ensures Outline(st)[c] == 0 {
      ColumnsAt(st.sky, width, 0, c);
    }
    PeakFlat(Outline(st), 0, 0, width, 0);
  }

  // ----- one request

  /** Position `x` is at least as good as `x'` under the state's heuristic: bottom-left compares
      height, then place; best-fit compares height, then waste, then place. */
  ghost predicate NoWorse(st: State, rw: int, x: int, x': int)
    requires |st.sky| >= 1 && 0 < rw && Legal(st.width, rw, x) && Legal(st.width, rw, x')
  {
    match st.heuristic
    case BottomLeft => LexLe(Peak(Outline(st), x, x + rw), 0, x, Peak(Outline(st), x', x' + rw), 0, x')
    case BestFit => BestFitLe(Outline(st), rw, x, x')
  }

  /** No integer position in the target is better than `x`. */
  ghost predicate Best(st: State, rw: int, x: int)
    requires |st.sky| >= 1 && 0 < rw
  {
    Legal(st.width, rw, x) && forall x' :: Legal(st.width, rw, x') ==> NoWorse(st, rw, x, x')
  }

  /** That is: none is lower; of those as low, none is further left with bottom-left, and with best-fit
      none wastes less, nor as little further left. */
  lemma {:induction false} BestMeans(st: State, rw: int, x: int)
    requires |st.sky| >= 1 && 0 < rw && Legal(st.width, rw, x)
    ensures Best(st, rw, x) <==> forall x' :: Legal(st.width, rw, x') ==>
      var y, y' := Peak(Outline(st), x, x + rw), Peak(Outline(st), x', x' + rw);
      var v, v' := Waste(Outline(st), x, rw), Waste(Outline(st), x', rw);
      && y <= y'
      && (y == y' && st.heuristic == BottomLeft ==> x <= x')
      && (y == y' && st.heuristic == BestFit ==> v <= v' && (v == v' ==> x <= x'))
  {
    hide Peak, Waste, Outline;
    if Best(st, rw, x) {
      forall x' | Legal(st.width, rw, x')
        ensures var y, y' := Peak(Outline(st), x, x + rw), Peak(Outline(st), x', x' + rw);
          var v, v' := Waste(Outline(st), x, rw), Waste(Outline(st), x', rw);
          && y <= y'
          && (y == y' && st.heuristic == BottomLeft ==> x <= x')
          && (y == y' && st.heuristic == BestFit ==> v <= v' && (v == v' ==> x <= x'))
      {
        assert NoWorse(st, rw, x, x');
      }
    }
  }

  ghost predicate Asks(st: State, r: Request) { 0 < r.w && 0 < r.h && 1 <= st.align && |st.sky| >= 2 }

  /** Somewhere along the outline there is room for the request, at its rounded width. */
  ghost predicate Fits(st: State, r: Request)
    requires Asks(st, r)
  {
    var rw := Rounded(r.w, st.align);
    exists x :: Legal(st.width, rw, x) && Peak(Outline(st), x, x + rw) + r.h <= st.height
  }

  /** The request goes to `x`. */
  ghost predicate GoesTo(st: State, r: Request, x: int)
    requires Asks(st, r)
  {
    var rw := Rounded(r.w, st.align);
    st.free > 0 && Legal(st.width, rw, x) && Best(st, rw, x) && Peak(Outline(st), x, x + rw) + r.h <= st.height
  }

  ghost function RestingY(st: State, r: Request, x: int): int
    requires Asks(st, r) && Legal(st.width, Rounded(r.w, st.align), x)
  {
    Peak(Outline(st), x, x + Rounded(r.w, st.align))
  }

  /** The state after the request was placed at `x`: the splice happens at the raw width. */
  ghost function Placed(st: State, r: Request, x: int): State
    requires Asks(st, r) && Wf(st.sky, st.width) && GoesTo(st, r, x)
  {
    SegInside(st.sky, st.width, x);
    var y := RestingY(st, r, x);
    var k := Seg(st.sky, x);
    var j := Start(st.sky, k, x);
    st.(sky := Splice(st.sky, k, x, r.w, y + r.h),
        free := st.free - 1 + (Skip(st.sky, j, x + r.w) - j),
        boxes := st.boxes + [Box(x, y, r.w, r.h)])
  }

  /** A position no integer position beats is unique. */
  lemma {:induction false} BestIsUnique(st: State, rw: int, a: int, b: int)
    requires |st.sky| >= 1 && 0 < rw && Best(st, rw, a) && Best(st, rw, b)
    ensures a == b
  {
    assert NoWorse(st, rw, a, b) && NoWorse(st, rw, b, a);
  }

  /** Among the legal positions below `n` there is a best one. */
  lemma {:induction false} BestBelow(st: State, rw: int, n: int) returns (x: int)
    requires |st.sky| >= 1 && 0 < rw && 0 < n && n + rw <= st.width + 1
    ensures 0 <= x < n && forall x' :: 0 <= x' < n ==> NoWorse(st, rw, x, x')
    decreases n
  {
    x := 0;
    if 1 < n {
      var best := BestBelow(st, rw, n - 1);
      x := if NoWorse(st, rw, best, n - 1) then best else n - 1;
      forall x' | 0 <= x' < n ensures NoWorse(st, rw, x, x') {
        assert x' < n - 1 ==> NoWorse(st, rw, best, x');
      }
    }
  }

  /** Where a request goes, if anywhere. */
  ghost function Spot(st: State, r: Request): (o: Option<int>)
    requires Asks(st, r)
    ensures o.Some? ==> GoesTo(st, r, o.value)
    ensures o.None? ==> forall x :: !GoesTo(st, r, x)
  {
    if exists x :: GoesTo(st, r, x) then var x :| GoesTo(st, r, x); Some(x) else None
  }

  lemma {:induction false} SpotIs(st: State, r: Request, x: int)
    requires Asks(st, r) && GoesTo(st, r, x)
    ensures Spot(st, r) == Some(x)
  {
    BestIsUnique(st, Rounded(r.w, st.align), x, Spot(st, r).value);
  }

  /** A request is placed exactly when there is room at some integer position and a node to spare. */
  lemma {:induction false} PlacedIffFits(st: State, r: Request)
    requires Asks(st, r)
    ensures Spot(st, r).Some? <==> Fits(st, r) && st.free > 0
  {
    var rw := Rounded(r.w, st.align);
    if Fits(st, r) && st.free > 0 {
      var room :| Legal(st.width, rw, room) && Peak(Outline(st), room, room + rw) + r.h <= st.height;
      var x := BestBelow(st, rw, st.width - rw + 1);
      assert NoWorse(st, rw, x, room);
      assert GoesTo(st, r, x);
    }
  }

  ghost function Step(st: State, r: Request): State
    requires Asks(st, r) && Wf(st.sky, st.width)
  {
    match Spot(st, r)
    case None => st
    case Some(x) => Placed(st, r, x)
  }
}
