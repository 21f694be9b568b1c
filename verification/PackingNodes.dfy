/** When the fixed stock of nodes is enough.

    The packer's documentation promises that, unless told otherwise, it quantizes widths so
    that it never runs out of nodes.  The quantum is used for searching only; the outline is
    cut at raw widths.  So the promise holds exactly when there are as many nodes as columns, or
    in a target one unit high, where boxes only ever stand beside each other, when the quantum does
    not fit behind as many boxes as there are nodes. */
module PackingNodes {
  import opened Skyline
  import opened SkylineSearch
  import opened Packing
  import opened PackingSafety
  import opened PackingFloor

  /** With a node per column one is always to spare. */
  lemma {:induction false} SpareNode(st: State)
    requires Grounded(st) && st.width <= st.nodes
    ensures st.free > 0
  {
    NodesAtMostColumns(st.sky, st.width);
  }

  /** Then a request fails exactly when no integer position has room for it. */
  lemma {:induction false} EnoughNodesFailIff(st: State, r: Request)
    requires Inv(st) && Asks(st, r) && st.width <= st.nodes
    ensures Spot(st, r).None? <==> !Fits(st, r)
  {
    SpareNode(st);
    PlacedIffFits(st, r);
  }

  // ----- a run that uses up the nodes

  const UNIT := Request(1, 1)

  ghost function Units(n: nat): (reqs: seq<Request>)
    ensures |reqs| == n && Positive(reqs)
  {
    if n == 0 then [] else Units(n - 1) + [UNIT]
  }

  /** The outline after `i` unit squares stand side by side at the left. */
  ghost function Row(width: int, i: nat): (s: Sky)
    ensures |s| == i + 2 && s[i] == Pt(i, 0) && s[i + 1] == Pt(width, SENTINEL_Y)
    ensures forall k :: 0 <= k < i ==> s[k] == Pt(k, 1)
  {
    seq(i, k => Pt(k, 1)) + [Pt(i, 0), Pt(width, SENTINEL_Y)]
  }

  ghost predicate RowState(st: State, i: nat) {
    Grounded(st) && st.sky == Row(st.width, i)
  }

  lemma {:induction false} RowColumns(st: State, i: nat, c: int)
    requires RowState(st, i) && 0 <= c < st.width
    ensures Outline(st)[c] == if c < i then 1 else 0
  {
    ColumnsAt(st.sky, st.width, if c < i then c else i, c);
  }

  lemma RoundedUnit(a: int)
    requires 0 < a
    ensures Rounded(1, a) == a
  {
  }

  /** The next unit square goes beside the row, as long as the quantum fits there. */
  lemma {:induction false} RowStep(st: State, i: nat)
    requires RowState(st, i) && i + 1 < st.width && i + st.align <= st.width && st.free > 0
    ensures RowState(Step(st, UNIT), i + 1) && Step(st, UNIT).free == st.free - 1
  {
    hide Step;
    RoundedUnit(st.align);
    FloorStep(st, UNIT, i);
    RowGrows(st.width, i);
  }

  lemma {:induction false} RowGrows(width: int, i: nat)
    requires i + 1 < width
    ensures OnFloor(Row(width, i), i, UNIT, width) == Row(width, i + 1)
  {
    assert Row(width, i)[..i] == seq(i, k => Pt(k, 1));
    assert seq(i + 1, k => Pt(k, 1)) == seq(i, k => Pt(k, 1)) + [Pt(i, 1)];
  }

  /** The quantum leaves room for as many unit squares as there are nodes. */
  lemma {:induction false} QuantumLeavesRoom(width: int, nodes: int)
    requires 0 < nodes < width
    ensures 2 <= Quantum(width, nodes) && nodes - 1 + Quantum(width, nodes) <= width
  {
    hide Quantum;
    var q := Quantum(width, nodes);
    if q < 2 { Monotone(nodes, q, 1); }
    ProductBound(nodes, q);
  }

  lemma ProductBound(n: int, q: int)
    requires 1 <= n && 2 <= q
    ensures 2 * n + q - 2 <= n * q
  {
    Monotone(q - 2, 1, n);
    assert (n - 1) * (q - 2) == n * q - 2 * n - q + 2;
  }

  ghost function Default(width: nat, height: nat, nodes: nat, heuristic: Heuristic): (st: State)
    requires 1 <= width && 1 <= height < SENTINEL_Y && 1 <= nodes
    ensures Inv(st)
  {
    InitInv(width, height, nodes, false, heuristic);
    Init(width, height, nodes, false, heuristic)
  }

  lemma {:induction false} RowRun(width: nat, height: nat, nodes: nat, heuristic: Heuristic, i: nat)
    requires 1 <= height < SENTINEL_Y && 1 <= nodes < width && i <= nodes
    ensures RowState(After(Default(width, height, nodes, heuristic), Units(i)), i)
    ensures After(Default(width, height, nodes, heuristic), Units(i)).free == nodes - i
    decreases i
  {
    hide Step, Grounded, Safe;
    QuantumLeavesRoom(width, nodes);
    if i == 0 {
      assert Row(width, 0) == [Pt(0, 0), Pt(width, SENTINEL_Y)];
    } else {
      RowRun(width, height, nodes, heuristic, i - 1);
      var st := Default(width, height, nodes, heuristic);
      assert Units(i)[..i - 1] == Units(i - 1);
      RowStep(After(st, Units(i - 1)), i - 1);
    }
  }

  /** After as many unit squares as there are nodes, another one fits but is turned away: on top of
      the row, or at least behind it. */
  lemma {:induction false} RowStarves(width: nat, height: nat, nodes: nat, heuristic: Heuristic)
    requires 1 <= height < SENTINEL_Y && 1 <= nodes < width
    requires 2 <= height || nodes + Quantum(width, nodes) <= width
    ensures var st := After(Default(width, height, nodes, heuristic), Units(nodes)); Fits(st, UNIT) && Spot(st, UNIT).None?
  {
    hide Peak, Columns, Quantum, Inv, After;
    RowRun(width, height, nodes, heuristic, nodes);
    QuantumLeavesRoom(width, nodes);
    var st := After(Default(width, height, nodes, heuristic), Units(nodes));
    RoundedUnit(st.align);
    RowFits(st, nodes);
    PlacedIffFits(st, UNIT);
  }

  lemma {:induction false} RowFits(st: State, n: nat)
    requires RowState(st, n) && 1 <= st.align <= st.width && (2 <= st.height || n + st.align <= st.width)
    ensures Asks(st, UNIT) && Fits(st, UNIT)
  {
    hide Peak, Columns, Row;
    RoundedUnit(st.align);
    if 2 <= st.height {
      forall c | 0 <= c < st.align ensures Outline(st)[c] <= 1 {
        RowColumns(st, n, c);
      }
      PeakAtMost(Outline(st), 0, st.align, 1);
      assert Legal(st.width, st.align, 0);
    } else {
      FlatZero(st.sky, st.width, n, n, st.align);
      assert Legal(st.width, st.align, n);
    }
  }

  /** In a target one unit high every box stands on the ground, so that a request for which there
      is room still finds a node unless the quantum fits behind as many boxes as there are nodes. */
  lemma {:induction false} LowSpareNode(st: State, r: Request)
    requires Grounded(st) && st.height == 1 && Asks(st, r) && Fits(st, r) && st.width < st.nodes + st.align
    ensures st.free > 0
  {
    hide Peak, Columns;
    var rw, cols, k := Rounded(r.w, st.align), Outline(st), |st.sky| - 2;
    var x :| Legal(st.width, rw, x) && Peak(cols, x, x + rw) + r.h <= st.height;
    PeakBounds(cols, x, x + rw);
    assert cols[x] <= Peak(cols, x, x + rw);
    SegInside(st.sky, st.width, x);
    IndexBelowX(st.sky, Seg(st.sky, x));
    AtLeastOne(rw, st.align);
  }

  lemma AtLeastOne(m: int, a: int)
    requires 0 < m && 0 < a && m % a == 0
    ensures a <= m
  {
  }

  /** After any run, a request that fits is not turned away. */
  ghost predicate NeverStarves(width: nat, height: nat, nodes: nat, heuristic: Heuristic, reqs: seq<Request>, r: Request)
    requires 1 <= width && 1 <= height < SENTINEL_Y && 1 <= nodes && Positive(reqs) && 0 < r.w && 0 < r.h
  {
    var st := After(Default(width, height, nodes, heuristic), reqs);
    Fits(st, r) ==> Spot(st, r).Some?
  }

  /** Enough nodes for the quantized packer. */
  predicate EnoughNodes(width: nat, height: nat, nodes: nat)
    requires 1 <= width && 1 <= nodes
  {
    width <= nodes || (height == 1 && width < nodes + Quantum(width, nodes))
  }

  /** The quantized packer never runs out of nodes while there is room, exactly when it was given a
      node per column, or a node for as many boxes as can stand before the last quantum of a target
      one unit high. */
  lemma {:induction false} NodesSufficeIff(width: nat, height: nat, nodes: nat, heuristic: Heuristic)
    requires 1 <= width && 1 <= height < SENTINEL_Y && 1 <= nodes
    ensures EnoughNodes(width, height, nodes)
       <==> forall reqs: seq<Request>, r: Request ::
              Positive(reqs) && 0 < r.w && 0 < r.h ==> NeverStarves(width, height, nodes, heuristic, reqs, r)
  {
    if EnoughNodes(width, height, nodes) {
      forall reqs: seq<Request>, r: Request | Positive(reqs) && 0 < r.w && 0 < r.h
        ensures NeverStarves(width, height, nodes, heuristic, reqs, r)
      {
        EnoughForOne(width, height, nodes, heuristic, reqs, r);
      }
    } else {
      RowStarves(width, height, nodes, heuristic);
      assert !NeverStarves(width, height, nodes, heuristic, Units(nodes), UNIT);
    }
  }

  lemma {:induction false} EnoughForOne(width: nat, height: nat, nodes: nat, heuristic: Heuristic, reqs: seq<Request>, r: Request)
    requires 1 <= width && 1 <= height < SENTINEL_Y && 1 <= nodes && Positive(reqs) && 0 < r.w && 0 < r.h
    requires EnoughNodes(width, height, nodes)
    ensures NeverStarves(width, height, nodes, heuristic, reqs, r)
  {
    hide After, Fits, Safe, Quantum;
    var st := After(Default(width, height, nodes, heuristic), reqs);
    if width <= nodes {
      EnoughNodesFailIff(st, r);
    } else if Fits(st, r) {
      LowSpareNode(st, r);
      PlacedIffFits(st, r);
    }
  }
}
