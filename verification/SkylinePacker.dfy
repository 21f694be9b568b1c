/** The packer itself: two singly linked lists of nodes, searched and spliced in place. */
module SkylinePacker {
  import opened Basics
  import opened Skyline
  import opened SkylineSearch
  import opened Packing
  import opened PackingSafety
  import opened PackerSearch

  class Node {
    var x: int
    var y: int
    var next: Node?

    constructor (x: int, y: int, next: Node?)
      ensures this.x == x && this.y == y && this.next == next
    {
      this.x, this.y, this.next := x, y, next;
    }
  }

  /** A place a node pointer is stored in: the head of the active list, or a node's `next`. */
  datatype Link = NoLink | HeadLink | NextOf(node: Node)

  ghost predicate Distinct(ns: seq<Node>) {
    forall i, j :: 0 <= i < j < |ns| ==> ns[i] != ns[j]
  }

  ghost predicate Apart(a: seq<Node>, b: seq<Node>) {
    forall i, j :: 0 <= i < |a| && 0 <= j < |b| ==> a[i] != b[j]
  }

  /** `repr` holds the nodes of both lists and nothing else. */
  ghost predicate Owns(repr: set<Node>, active: seq<Node>, spare: seq<Node>) {
    && (forall n :: n in active ==> n in repr)
    && (forall n :: n in spare ==> n in repr)
    && (forall n :: n in repr ==> n in active || n in spare)
  }

  /** The nodes of `ns` follow one another. */
  ghost predicate Chained(ns: seq<Node>)
    reads ns
  {
    forall i :: 0 <= i < |ns| - 1 ==> ns[i].next == ns[i + 1]
  }

  /** From the `j`-th on, the nodes of `ns` follow one another to the end of the list. */
  ghost predicate TailIs(ns: seq<Node>, j: nat)
    reads ns
  {
    && j < |ns|
    && (forall i :: j <= i < |ns| - 1 ==> ns[i].next == ns[i + 1])
    && ns[|ns| - 1].next == null
  }

  /** Starting at `head`, the first `j` nodes of `ns` lead to `node`. */
  ghost predicate Leads(head: Node, ns: seq<Node>, j: nat, node: Node)
    reads ns
  {
    && j <= |ns|
    && (forall i :: 0 <= i < j - 1 ==> ns[i].next == ns[i + 1])
    && (if j == 0 then head == node else head == ns[0] && ns[j - 1].next == node)
  }

  /** `ns` is the whole list starting at `head`. */
  ghost predicate ListIs(head: Node?, ns: seq<Node>)
    reads ns
  {
    Chained(ns) && if ns == [] then head == null else head == ns[0] && ns[|ns| - 1].next == null
  }

  ghost function Points(ns: seq<Node>): (s: Sky)
    reads ns
    ensures |s| == |ns|
    ensures forall i :: 0 <= i < |ns| ==> s[i] == Pt(ns[i].x, ns[i].y)
  {
    seq(|ns|, i requires 0 <= i < |ns| reads ns => Pt(ns[i].x, ns[i].y))
  }

  class Context {
    var width: int
    var height: int
    var align: int
    var heuristic: Heuristic
    var numNodes: int
    var activeHead: Node
    var freeHead: Node?

    ghost var active: seq<Node>
    ghost var spare: seq<Node>
    ghost var boxes: seq<Box>
    ghost var repr: set<Node>

    ghost predicate Lists()
      reads this, active, spare
    {
      && active != []
      && ListIs(activeHead, active) && ListIs(freeHead, spare)
      && Distinct(active) && Distinct(spare) && Apart(active, spare)
    }

    ghost predicate Valid()
      reads this, active, spare
      ensures Valid() ==> 0 <= width && 0 <= height && 0 <= align && 0 <= numNodes && Inv(View())
      ensures Valid() ==> |active| >= 2
    {
      && 0 <= width && 0 <= height && 0 <= align && 0 <= numNodes
      && Lists()
      && Inv(View())
      && Owns(repr, active, spare)
    }

    /** What the two lists stand for. */
    ghost function View(): State
      requires 0 <= width && 0 <= height && 0 <= align && 0 <= numNodes
      reads this, active
    {
      State(width, height, align, heuristic, numNodes, Points(active), |spare|, boxes)
    }

    /** How the node at index `i` shows in the view, and what it is linked to. */
    lemma NodeAt(i: nat)
      requires Valid() && i < |active|
      ensures var st := View(); st.width == width && st.height == height && st.heuristic == heuristic
      ensures var s := View().sky; |s| == |active| && s[i] == Pt(active[i].x, active[i].y)
      ensures active[i].next == (if i + 1 < |active| then active[i + 1] else null)
      ensures activeHead == active[0] && 0 < height < SENTINEL_Y
    {
    }

    // ----- setting up

    constructor InitTarget(width: int, height: int, nodes: seq<Node>)
      requires 1 <= width && 1 <= height < SENTINEL_Y
      requires |nodes| >= 1 && Distinct(nodes)
      modifies nodes
      ensures Valid()
      ensures View() == Init(width, height, |nodes|, false, BottomLeft)
      ensures fresh(repr - set n | n in nodes)
    {
      hide Inv, Points, Quantum;
      this.width, this.height, numNodes := width, height, |nodes|;
      heuristic := BottomLeft;
      align := Quantum(width, |nodes|);
      // one node for the full width, and the sentinel
      var sentinel := new Node(width, SENTINEL_Y, null);
      var full := new Node(0, 0, sentinel);
      activeHead, freeHead := full, nodes[0];
      active, spare, boxes := [full, sentinel], nodes, [];
      repr := {full, sentinel} + set n | n in nodes;
      new;
      LinkUp(nodes);
      assert ListIs(activeHead, active) && ListIs(freeHead, spare);
      assert Distinct(active) && Distinct(spare) && Apart(active, spare);
      assert Points(active) == [Pt(0, 0), Pt(width, SENTINEL_Y)];
      InitInv(width, height, |nodes|, false, BottomLeft);
    }

    static method LinkUp(nodes: seq<Node>)
      requires |nodes| >= 1 && Distinct(nodes)
      modifies nodes
      ensures ListIs(nodes[0], nodes)
    {
      var i := 0;
      while i < |nodes| - 1
        invariant 0 <= i <= |nodes| - 1
        invariant forall k :: 0 <= k < i ==> nodes[k].next == nodes[k + 1]
      {
        nodes[i].next := nodes[i + 1];
        i := i + 1;
      }
      nodes[i].next := null;
    }

    method SetupHeuristic(h: Heuristic)
      requires Valid()
      modifies this`heuristic
      ensures Valid() && View() == old(View()).(heuristic := h)
    {
      hide Points, Safe, Wf, ZeroOnlyLast, ToppedBy, Chained, Columns, Distinct, Apart;
      heuristic := h;
    }

    /** Without permission to run out of nodes, widths are quantized; with it they are not. */
    method SetupAllowOutOfMem(allow: bool)
      requires Valid()
      modifies this`align
      ensures Valid() && View() == old(View()).(align := if allow then 1 else Quantum(width, numNodes))
    {
      hide Points, Safe, Wf, ZeroOnlyLast, ToppedBy, Chained, Columns, Distinct, Apart;
      if allow {
        align := 1;
      } else {
        align := Quantum(width, numNodes);
      }
    }

    // ----- the search

    /** The height at which a block of width `w` comes to rest at `x0`, and the area wasted below it. */
    method FindMinY(first: Node, x0: int, w: int, ghost k: nat) returns (minY: int, waste: int)
      requires Valid() && 0 < w && Legal(width, w, x0)
      requires k == Seg(View().sky, x0) && first == active[k]
      ensures minY == Peak(Outline(View()), x0, x0 + w)
      ensures waste == Waste(Outline(View()), x0, w)
    {
      hide Scan, Peak, Gap, Seg, Distinct, Apart, Safe, ToppedBy, ZeroOnlyLast, Wf, Points, Columns;
      ghost var s := View().sky;
      SegInside(s, width, x0);
      assert first.x <= x0 < first.next.x;
      var node := first;
      var x1 := x0 + w;
      minY, waste := 0, 0;
      var visited := 0;
      ghost var j := k;
      while node.x < x1
        invariant k <= j < |s| && node == active[j]
        invariant Scan(s, j, x0, w, Tally(minY, visited, waste)) == Probe(s, x0, w)
        decreases |s| - j
      {
        NotLast(s, width, j, x1);
        assert node.next == active[j + 1] && s[j] == Pt(node.x, node.y) && s[j + 1].x == node.next.x;
        ScanTurn(s, j, x0, w, Tally(minY, visited, waste));
        if node.y > minY {
          waste := waste + visited * (node.y - minY);
          minY := node.y;
          if node.x < x0 {
            visited := visited + (node.next.x - x0);
          } else {
            visited := visited + (node.next.x - node.x);
          }
        } else {
          var underWidth := node.next.x - node.x;
          if underWidth + visited > w {
            underWidth := w - visited;
          }
          waste := waste + underWidth * (minY - node.y);
          visited := visited + underWidth;
        }
        node := node.next;
        j := j + 1;
      }
      ScanEnd(s, j, x0, w, Tally(minY, visited, waste));
      ExactWhenZeroLast(s, width, x0, w);
    }

    /** `link` is where the pointer to the `k`-th active node is stored. */
    ghost predicate LinkAt(link: Link, k: nat)
      reads this
    {
      match link
      case NoLink => false
      case HeadLink => k == 0 && active != []
      case NextOf(node) => 0 < k < |active| && node == active[k - 1]
    }

    /** The bottom-left search: over the nodes from left to right, the first lowest one. */
    method FindBottomLeft(rw: int) returns (best: Link, bestY: int, ghost k: nat)
      requires Valid() && heuristic == BottomLeft && 0 < rw <= width
      ensures k < |active| && LinkAt(best, k)
      ensures Legal(width, rw, active[k].x) && Best(View(), rw, active[k].x)
      ensures bestY == Peak(Outline(View()), active[k].x, active[k].x + rw)
    {
      hide Peak, Distinct, Apart, Safe, ToppedBy, ZeroOnlyLast, Wf, Points, Columns, Outline, Best;
      ghost var st := View();
      var node, prev := activeHead, HeadLink;
      best, bestY, k := NoLink, SENTINEL_Y, 0;
      ghost var j := 0;
      while node.x + rw <= width
        invariant 0 <= j < |active| && node == active[j] && LinkAt(prev, j)
        invariant best == NoLink ==> j == 0 && bestY == SENTINEL_Y
        invariant best != NoLink ==> LinkAt(best, k) && k < |active| && Leading(st, rw, k, bestY, j)
        decreases |active| - j
      {
        NotLast(st.sky, st.width, j, width);
        assert st.sky[j] == Pt(node.x, node.y) && node.next == active[j + 1];
        NodeIsSeg(st.sky, st.width, j);
        var y, waste := FindMinY(node, node.x, rw, j);
        PeakInTarget(st, node.x, rw);
        if best != NoLink { LeadingStep(st, rw, k, bestY, j, y); } else { LeadingFirst(st, rw, y); }
        if y < bestY {
          bestY := y;
          best := prev;
          k := j;
        }
        prev := NextOf(node);
        node := node.next;
        j := j + 1;
      }
      assert st.sky[j] == Pt(node.x, node.y);
      FirstIsLegal(st.sky, st.width, rw, j);
      assert st.sky[k] == Pt(active[k].x, active[k].y);
      LeadingDecides(st, rw, k, bestY, j);
    }

    /** What the search variables stand for: link, place, height and waste of the best so far. */
    ghost function LeaderOf(best: Link, x: int, y: int, waste: int): Leader {
      if best == NoLink then Nobody else Leader(x, y, waste)
    }

    /** The first pass of the best-fit search: blocks with their left edge at a node. */
    method FitLeftEdges(rw: int, h: int) returns (best: Link, bestY: int, bestWaste: int, ghost k: nat)
      requires Valid() && heuristic == BestFit && 0 < rw <= width && 0 < h
      ensures best == NoLink ==> bestY == SENTINEL_Y
      ensures best != NoLink ==> k < |active| && LinkAt(best, k)
      ensures LeftCovered(View(), rw, h, if best == NoLink then Nobody else Leader(active[k].x, bestY, bestWaste), |active|)
    {
      hide Peak, Waste, Distinct, Apart, Safe, ToppedBy, ZeroOnlyLast, Wf, Points, Columns, Outline;
      ghost var st := View();
      var node, prev := activeHead, HeadLink;
      best, bestY, bestWaste, k := NoLink, SENTINEL_Y, SENTINEL_Y, 0;
      ghost var j, l := 0, Nobody;
      while node.x + rw <= width
        invariant 0 <= j < |active| && node == active[j] && LinkAt(prev, j)
        invariant best == NoLink ==> bestY == SENTINEL_Y && l == Nobody
        invariant best != NoLink ==> k < j && LinkAt(best, k) && l == Leader(active[k].x, bestY, bestWaste)
        invariant l.Leader? ==> j < |active| && l.x < active[j].x
        invariant LeftCovered(st, rw, h, l, j)
        decreases |active| - j
      {
        NotLast(st.sky, st.width, j, width);
        assert st.sky[j] == Pt(node.x, node.y) && node.next == active[j + 1];
        assert st.sky[j + 1].x == node.next.x;
        NodeIsSeg(st.sky, st.width, j);
        var y, waste := FindMinY(node, node.x, rw, j);
        ContestLeft(st, rw, h, l, j, y, waste);
        l := Contest(st, h, l, node.x, y, waste);
        if y + h <= height {
          // best-fit looks for a block that also fits in height
          if y < bestY || (y == bestY && waste < bestWaste) {
            bestY := y;
            bestWaste := waste;
            best := prev;
            k := j;
          }
        }
        prev := NextOf(node);
        node := node.next;
        j := j + 1;
      }
      assert st.sky[j] == Pt(node.x, node.y);
      FirstIsLegal(st.sky, st.width, rw, j);
      OutsideIsCovered(st, rw, h, l, j);
    }

    /** The node at which `link` points. */
    function Target(link: Link): Node?
      reads this, if link.NextOf? then {link.node} else {}
    {
      match link
      case NoLink => null
      case HeadLink => activeHead
      case NextOf(node) => node.next
    }

    /** The second pass: blocks with their right edge at a node. */
    method FitRightEdges(rw: int, h: int, best0: Link, x0: int, y0: int, waste0: int, ghost k0: nat)
      returns (best: Link, bestX: int, bestY: int, bestWaste: int, ghost k: nat)
      requires Valid() && heuristic == BestFit && 0 < rw <= width && 0 < h
      requires best0 == NoLink ==> y0 == SENTINEL_Y
      requires best0 != NoLink ==> k0 < |active| && LinkAt(best0, k0) && k0 == Seg(View().sky, x0)
      requires LeftCovered(View(), rw, h, LeaderOf(best0, x0, y0, waste0), |active|)
      ensures best != NoLink ==> k < |active| && LinkAt(best, k) && k == Seg(View().sky, bestX)
      ensures LeftCovered(View(), rw, h, LeaderOf(best, bestX, bestY, bestWaste), |active|)
      ensures RightCovered(View(), rw, h, LeaderOf(best, bestX, bestY, bestWaste), |active|)
    {
      hide Context.Valid, Context.View, Preferable, Safe, ZeroOnlyLast, ToppedBy, Sorted, Contest, Peak, Waste, Outline,
           LeftCovered, RightCovered, Seg;
      NodeAt(0);
      ghost var st := View();
      best, bestX, bestY, bestWaste, k := best0, x0, y0, waste0, k0;
      var tail: Node?, t := FirstAdmissible(rw, h, LeaderOf(best0, x0, y0, waste0));
      var node, prev := activeHead, HeadLink;
      ghost var n := 0;
      while tail != null
        invariant 0 <= t <= |active| && tail == if t < |active| then active[t] else null
        invariant 0 <= n < |active| && node == active[n] && LinkAt(prev, n)
        invariant t < |active| ==> rw <= active[t].x <= width && node.x + rw <= active[t].x
        invariant best == NoLink ==> bestY == SENTINEL_Y
        invariant best != NoLink ==> k < |active| && LinkAt(best, k) && k == Seg(st.sky, bestX)
        invariant LeftCovered(st, rw, h, LeaderOf(best, bestX, bestY, bestWaste), |st.sky|)
        invariant RightCovered(st, rw, h, LeaderOf(best, bestX, bestY, bestWaste), t)
        decreases |active| - t
      {
        var xpos := tail.x - rw;
        NodeAt(t);
        // the walk to the left edge goes on from where the last one stopped
        node, prev, n := Advance(node, prev, xpos, n);
        var y, waste := FindMinY(node, xpos, rw, n);
        ContestRight(st, rw, h, LeaderOf(best, bestX, bestY, bestWaste), t, y, waste);
        if Preferable(h, xpos, y, waste, best, bestX, bestY, bestWaste) {
          bestX, bestY, bestWaste, best, k := xpos, y, waste, prev, n;
        }
        TailsIncrease(st.sky, st.width, t);
        if t + 1 < |active| { NodeAt(t + 1); }
        tail := tail.next;
        t := t + 1;
      }
    }

    /** Is the block at `x` to be preferred to the best one so far? */
    predicate Preferable(h: int, x: int, y: int, waste: int, best: Link, bestX: int, bestY: int, bestWaste: int)
      requires height < SENTINEL_Y && (best == NoLink ==> bestY == SENTINEL_Y) && 0 < h
      requires 0 <= width && 0 <= height && 0 <= align && 0 <= numNodes
      reads this, active
      ensures Preferable(h, x, y, waste, best, bestX, bestY, bestWaste)
        ==> Contest(View(), h, LeaderOf(best, bestX, bestY, bestWaste), x, y, waste) == Leader(x, y, waste)
      ensures !Preferable(h, x, y, waste, best, bestX, bestY, bestWaste)
        ==> Contest(View(), h, LeaderOf(best, bestX, bestY, bestWaste), x, y, waste) == LeaderOf(best, bestX, bestY, bestWaste)
    {
      y + h <= height && y <= bestY && (y < bestY || waste < bestWaste || (waste == bestWaste && x < bestX))
    }

    /** The first node far enough right to carry a block's right edge. */
    method FirstAdmissible(rw: int, ghost h: int, ghost l: Leader) returns (tail: Node, ghost t: nat)
      requires Valid() && 0 < rw <= width
      requires LeftCovered(View(), rw, h, l, |active|)
      ensures t < |active| && tail == active[t] && rw <= tail.x <= width && activeHead.x == 0
      ensures RightCovered(View(), rw, h, l, t)
    {
      hide Peak, Waste, Distinct, Apart, Safe, ToppedBy, ZeroOnlyLast, Wf, Points, Columns, Outline;
      ghost var st := View();
      tail, t := activeHead, 0;
      while tail.x < rw
        invariant 0 <= t < |active| && tail == active[t]
        invariant forall i :: 0 <= i < t ==> st.sky[i].x < rw
        decreases |active| - t
      {
        assert st.sky[t].x == tail.x;
        NotLast(st.sky, st.width, t, rw);
        assert tail.next == active[t + 1];
        tail := tail.next;
        t := t + 1;
      }
      TailsIncrease(st.sky, st.width, t);
      assert st.sky[t].x == tail.x && st.sky[0].x == activeHead.x;
      TailsBefore(st, rw, h, l, t);
    }

    /** The best-fit search. */
    method FindBestFit(rw: int, h: int) returns (best: Link, bestX: int, bestY: int, ghost k: nat)
      requires Valid() && heuristic == BestFit && 0 < rw <= width && 0 < h
      ensures best == NoLink ==> forall x :: Legal(width, rw, x) ==> height < Peak(Outline(View()), x, x + rw) + h
      ensures best != NoLink ==> k < |active| && LinkAt(best, k) && k == Seg(View().sky, bestX)
      ensures best != NoLink ==> Legal(width, rw, bestX) && Best(View(), rw, bestX)
      ensures best != NoLink ==> bestY == Peak(Outline(View()), bestX, bestX + rw)
    {
      hide Peak, Waste, Distinct, Apart, Safe, ToppedBy, ZeroOnlyLast, Wf, Points, Columns, Outline, Best, Seg;
      ghost var st := View();
      var bestWaste;
      best, bestY, bestWaste, k := FitLeftEdges(rw, h);
      bestX := if best == NoLink then 0 else Target(best).x;
      if best != NoLink {
        assert Target(best) == active[k] && st.sky[k].x == bestX;
        NotLast(st.sky, st.width, k, width);
        NodeIsSeg(st.sky, st.width, k);
      }
      best, bestX, bestY, bestWaste, k := FitRightEdges(rw, h, best, bestX, bestY, bestWaste, k);
      AllCovered(st, rw, h, LeaderOf(best, bestX, bestY, bestWaste));
    }

    /** Moves on to the node whose stretch holds column `xpos`. */
    method Advance(from: Node, link: Link, xpos: int, ghost i: nat) returns (node: Node, prev: Link, ghost n: nat)
      requires Valid() && i < |active| && from == active[i] && LinkAt(link, i) && from.x <= xpos < width
      ensures i <= n < |active| && node == active[n] && LinkAt(prev, n)
      ensures n == Seg(View().sky, xpos) && node.x <= xpos
    {
      hide Distinct, Apart, Safe, ToppedBy, ZeroOnlyLast, Wf, Points, Columns, Outline;
      ghost var s := View().sky;
      node, prev, n := from, link, i;
      NotLast(s, width, n, xpos + 1);
      assert node.next == active[n + 1];
      while node.next.x <= xpos
        invariant i <= n && n + 1 < |active| && node == active[n] && node.next == active[n + 1]
        invariant LinkAt(prev, n) && node.x <= xpos
        decreases |active| - n
      {
        prev := NextOf(node);
        node := node.next;
        n := n + 1;
        NotLast(s, width, n, xpos + 1);
        assert node.next == active[n + 1];
      }
      assert s[n].x == node.x && s[n + 1].x == node.next.x;
      SegHere(s, width, xpos, n);
    }

    /** The search: where a request would go, if the target is wide and high enough at all. */
    method FindBestPos(w: int, h: int) returns (best: Link, x: int, y: int, ghost k: nat)
      requires Valid() && 0 < w && 0 < h
      ensures best == NoLink ==> !Fits(View(), Request(w, h))
      ensures best != NoLink ==> k + 1 < |active| && LinkAt(best, k) && k == Seg(View().sky, x)
      ensures best != NoLink ==> Legal(width, Rounded(w, align), x) && Best(View(), Rounded(w, align), x)
      ensures best != NoLink ==> y == RestingY(View(), Request(w, h), x)
    {
      hide Peak, Distinct, Apart, Safe, ToppedBy, ZeroOnlyLast, Points, Columns, Outline, Best, Seg, Rounded, Sorted;
      var rw := Rounded(w, align);
      ghost var st := View();
      if rw > width || h > height {
        TooBig(st, Request(w, h));
        best, x, y, k := NoLink, 0, 0, 0;
      } else if heuristic == BottomLeft {
        best, y, k := FindBottomLeft(rw);
        x := Target(best).x;
        assert Target(best) == active[k] && st.sky[k].x == x;
        NotLast(st.sky, st.width, k, width);
        NodeIsSeg(st.sky, st.width, k);
      } else {
        best, x, y, k := FindBestFit(rw, h);
        if best != NoLink {
          SegInside(st.sky, st.width, x);
        }
      }
    }

    // ----- the splice

    /** Moves the nodes whose stretch ends by column `limit` to the spare list. */
    method Release(from: Node, limit: int, ghost ns: seq<Node>, ghost ms: seq<Node>, ghost j: nat, ghost node: Node,
                   ghost s: Sky)
      returns (cur: Node, ghost e: nat)
      requires Distinct(ns) && TailIs(ns, j) && from == ns[j] && s == Points(ns)
      requires ListIs(freeHead, ms) && Apart(ns, ms)
      requires Leads(activeHead, ns, j, node)
      modifies this`freeHead, ns[j..]`next
      ensures e == Skip(s, j, limit) && cur == ns[e]
      ensures ListIs(freeHead, Freed(ns, j, e, ms))
      ensures TailIs(ns, e) && Leads(activeHead, ns, j, node) && Points(ns) == s
    {
      hide Points, ListIs, Skip, Freed, Apart, Leads, Distinct;
      cur, e := from, j;
      ghost var rest := ms;
      FreedNone(ns, j, ms);
      ApartNotIn(ns, ms);
      while cur.next != null && cur.next.x <= limit
        invariant j <= e && TailIs(ns, e) && cur == ns[e]
        invariant Leads(activeHead, ns, j, node)
        invariant forall i :: e <= i < |ns| ==> ns[i] !in rest
        invariant Points(ns) == s && Skip(s, e, limit) == Skip(s, j, limit)
        invariant rest == Freed(ns, j, e, ms)
        invariant ListIs(freeHead, rest)
        decreases |ns| - e
      {
        assert e < |ns| - 1 && cur.next == ns[e + 1] && s[e + 1].x == cur.next.x;
        SkipStep(s, e, limit);
        BackwardsGrow(ns, j, e, ms);
        DistinctFrom(ns, e, rest);
        cur := ReleaseOne(cur, ns, rest, j, e, node);
        rest := [ns[e]] + rest;
        e := e + 1;
      }
      SkipStep(s, e, limit);
    }

    /** Puts the node at index `e`, no longer active, in front of the spare list and moves on. */
    method ReleaseOne(n: Node, ghost ns: seq<Node>, ghost rest: seq<Node>, ghost j: nat, ghost e: nat, ghost node: Node)
      returns (next: Node)
      requires Distinct(ns) && TailIs(ns, e) && j <= e < |ns| - 1 && n == ns[e]
      requires Leads(activeHead, ns, j, node)
      requires ListIs(freeHead, rest) && n !in rest
      modifies this`freeHead, n`next
      ensures next == ns[e + 1] && ListIs(freeHead, [n] + rest)
      ensures TailIs(ns, e + 1) && Leads(activeHead, ns, j, node) && Points(ns) == old(Points(ns))
    {
      hide Points;
      assert ns[e].next == ns[e + 1];
      next := n.next;
      n.next := freeHead;
      freeHead := n;
    }

    /** Takes a spare node for the block `[x, x+w)` with its top at `top`, and hooks it in where
        `link` points, behind that node if it starts further left. */
    method HookIn(link: Link, x: int, top: int, ghost k: nat, ghost s: Sky) returns (node: Node, cur: Node)
      requires Lists() && k + 1 < |active| && LinkAt(link, k) && active[k].x <= x && spare != [] && s == Points(active)
      modifies this`activeHead, this`freeHead, active, spare[0]
      ensures node == spare[0] && node.x == x && node.y == top && ListIs(freeHead, spare[1..])
      ensures var j := Start(s, k, x); cur == active[j] && Leads(activeHead, active, j, node) && TailIs(active, j)
      ensures Points(active) == s
    {
      hide Points;
      node := freeHead;
      node.x := x;
      node.y := top;
      freeHead := node.next;
      cur := Target(link);
      assert cur == active[k] && cur.next == active[k + 1];
      if cur.x < x {
        // this node keeps what is left of the block
        var next := cur.next;
        cur.next := node;
        cur := next;
      } else {
        match link
        case HeadLink => activeHead := node;
        case NextOf(prev) => prev.next := node;
      }
    }

    /** Stitches the list back in: `node` leads to `cur`, which starts at `limit` or later. */
    method Stitch(node: Node, cur: Node, limit: int, ghost ns: seq<Node>, ghost j: nat, ghost e: nat,
                  ghost rest: seq<Node>, ghost s: Sky)
      requires s == Points(ns)
      requires Distinct(ns) && TailIs(ns, e) && Leads(activeHead, ns, j, node) && cur == ns[e] && node !in ns
      requires ListIs(freeHead, rest) && node !in rest && cur !in rest
      modifies node`next, cur`x
      ensures node.next == cur && TailIs(ns, e) && Leads(activeHead, ns, j, node) && ListIs(freeHead, rest)
      ensures Points(ns) == s[e := Pt(Max(s[e].x, limit), s[e].y)]
    {
      hide Points;
      node.next := cur;
      if cur.x < limit {
        cur.x := limit;
      }
    }

    /** Puts the block `[x, x+w)` with its top at `top` into the active list at `link`, frees the
        nodes it covers, and stitches the rest back in.  Only then do the ghost lists follow. */
    method Rewire(link: Link, x: int, w: int, top: int, ghost k: nat, ghost s: Sky)
      returns (node: Node, ghost j: nat, ghost e: nat)
      requires Lists() && k + 1 < |active| && LinkAt(link, k) && active[k].x <= x && spare != []
      requires s == Points(active)
      modifies this`activeHead, this`freeHead, active, spare
      ensures node == spare[0] && node.x == x && node.y == top
      ensures Spliced(active, spare[1..], node, j, e)
      ensures j == Start(s, k, x) && e == Skip(s, j, x + w)
      ensures Points(active) == s[e := Pt(Max(s[e].x, x + w), s[e].y)]
    {
      hide Points, ListIs, Leads, TailIs, Skip, Start, Freed, Distinct, Apart, Max;
      ghost var ns, ms := active, spare[1..];
      j := Start(s, k, x);
      var cur;
      node, cur := HookIn(link, x, top, k, s);
      SpareHead(ns, spare);
      cur, e := Release(cur, x + w, ns, ms, j, node, s);
      SpareAway(ns, ms, j, e, node);
      Stitch(node, cur, x + w, ns, j, e, Freed(ns, j, e, ms), s);
      assert active == ns;
    }

    /** The pieces are in place: the first `j` nodes lead to `node`, that one to the node at `e`,
        and what was between is in front of the spare nodes `ms`. */
    ghost predicate Spliced(ns: seq<Node>, ms: seq<Node>, node: Node, j: nat, e: nat)
      reads this, ns, ms, node
    {
      && j <= e && TailIs(ns, e) && node.next == ns[e]
      && Leads(activeHead, ns, j, node)
      && ListIs(freeHead, Freed(ns, j, e, ms))
    }

    /** Splices the block `[x, x+w)` with its top at `top` into the active list at `link`. */
    method Insert(link: Link, x: int, w: int, top: int, ghost k: nat)
      requires Lists() && k + 1 < |active| && LinkAt(link, k) && active[k].x <= x && spare != []
      modifies this`activeHead, this`freeHead, this`active, this`spare, active, spare
      ensures Lists()
      ensures forall n :: n in active || n in spare <==> n in old(active) || n in old(spare)
      ensures Points(active) == Splice(old(Points(active)), k, x, w, top)
      ensures |spare| == old(|spare|) - 1 + (Skip(old(Points(active)), Start(old(Points(active)), k, x), x + w)
                                             - Start(old(Points(active)), k, x))
    {
      hide Points, ListIs, Leads, Splice, Skip, Start, Backwards, Joined, Distinct, Apart, Chained;
      ghost var s := Points(active);
      SpareHead(active, spare);
      ghost var j, e;
      var node;
      node, j, e := Rewire(link, x, w, top, k, s);
      Assemble(activeHead, freeHead, active, spare[1..], s, j, e, node, x, w, top, k);
      active, spare := Joined(active, j, e, node), Freed(active, j, e, spare[1..]);
    }

    // ----- one request

    method Place(link: Link, x: int, y: int, w: int, h: int, ghost k: nat)
      requires Valid() && 0 < w && 0 < h && GoesTo(View(), Request(w, h), x)
      requires k + 1 < |active| && LinkAt(link, k) && k == Seg(View().sky, x)
      requires y == RestingY(View(), Request(w, h), x)
      modifies this`activeHead, this`freeHead, this`active, this`spare, this`boxes, repr
      ensures Valid()
      ensures View() == Placed(old(View()), Request(w, h), x)
    {
      hide Points, Peak, Best, Splice, ZeroOnlyLast, ToppedBy, Safe, Skip, Start, Distinct, Apart, ListIs, Seg, Fits, Outline, Sorted, Columns;
      ghost var st, r := View(), Request(w, h);
      PlacedInv(st, r, x);
      SegInside(st.sky, st.width, x);
      assert active[k].x == st.sky[k].x;
      Insert(link, x, w, y + h, k);
      boxes := boxes + [Box(x, y, w, h)];
    }

    /** Places a `w` by `h` block at the best position there is, or leaves everything as it was. */
    method PackRectangle(w: int, h: int) returns (found: bool, x: int, y: int)
      requires Valid() && 0 < w && 0 < h
      modifies this`activeHead, this`freeHead, this`active, this`spare, this`boxes, repr
      ensures Valid()
      ensures View() == Step(old(View()), Request(w, h))
      ensures found == Spot(old(View()), Request(w, h)).Some?
      ensures found ==> x == Spot(old(View()), Request(w, h)).value && y == RestingY(old(View()), Request(w, h), x)
    {
      hide Points, Best, Placed, Safe, Sorted, ToppedBy, ZeroOnlyLast, Distinct, Apart, Seg, Fits, Outline, ListIs, Peak, Rounded, Spot, Legal;
      ghost var st, r := View(), Request(w, h);
      var best;
      ghost var k;
      best, x, y, k := FindBestPos(w, h);
      found := best != NoLink && y + h <= height && freeHead != null;
      EmptyIff(freeHead, spare);
      if found {
        SpotIs(st, r, x);
        Place(best, x, y, w, h, k);
      } else {
        Refused(st, r, best == NoLink, x);
      }
    }
  }

  lemma EmptyIff(head: Node?, ns: seq<Node>)
    requires ListIs(head, ns)
    ensures head == null <==> ns == []
  {
  }

  /** The nodes `ns[j..e]`, last first. */
  ghost function Backwards(ns: seq<Node>, j: nat, e: nat): (r: seq<Node>)
    requires e <= |ns|
    ensures |r| == if j < e then e - j else 0
    ensures forall i :: 0 <= i < |r| ==> r[i] == ns[e - 1 - i]
    decreases e
  {
    if j < e then [ns[e - 1]] + Backwards(ns, j, e - 1) else []
  }

  /** The spare nodes after the nodes `ns[j..e]` were freed one by one. */
  ghost function Freed(ns: seq<Node>, j: nat, e: nat, ms: seq<Node>): seq<Node>
    requires e <= |ns|
  {
    Backwards(ns, j, e) + ms
  }

  lemma FreedNone(ns: seq<Node>, j: nat, ms: seq<Node>)
    requires j <= |ns|
    ensures Freed(ns, j, j, ms) == ms
  {
  }

  lemma BackwardsEnds(ns: seq<Node>, j: nat, e: nat)
    requires j <= e <= |ns|
    ensures Backwards(ns, j, j) == []
    ensures e < |ns| ==> Backwards(ns, j, e + 1) == [ns[e]] + Backwards(ns, j, e)
  {
  }

  lemma BackwardsGrow(ns: seq<Node>, j: nat, e: nat, ms: seq<Node>)
    requires j <= e < |ns|
    ensures Freed(ns, j, e + 1, ms) == [ns[e]] + Freed(ns, j, e, ms)
  {
    BackwardsEnds(ns, j, e);
  }

  lemma DistinctFrom(ns: seq<Node>, e: nat, rest: seq<Node>)
    requires Distinct(ns) && e < |ns| && forall i :: e <= i < |ns| ==> ns[i] !in rest
    ensures forall i :: e + 1 <= i < |ns| ==> ns[i] !in [ns[e]] + rest
  {
  }

  lemma ApartNotIn(a: seq<Node>, b: seq<Node>)
    requires Apart(a, b)
    ensures forall i :: 0 <= i < |a| ==> a[i] !in b
  {
  }

  /** The active list after `node` took the place of `ns[j..e]`. */
  ghost function Joined(ns: seq<Node>, j: nat, e: nat, node: Node): seq<Node>
    requires j <= e < |ns|
  {
    ns[..j] + [node] + ns[e..]
  }

  lemma {:induction false} JoinedList(head: Node, ns: seq<Node>, j: nat, e: nat, node: Node)
    requires j <= e && TailIs(ns, e)
    requires Leads(head, ns, j, node)
    requires node.next == ns[e]
    ensures ListIs(head, Joined(ns, j, e, node))
  {
    var l := Joined(ns, j, e, node);
    assert forall i :: 0 <= i < j ==> l[i] == ns[i];
    assert l[j] == node;
    assert forall i :: j < i < |l| ==> l[i] == ns[i - j - 1 + e];
  }

  lemma {:induction false} JoinedDistinct(ns: seq<Node>, j: nat, e: nat, node: Node)
    requires j <= e < |ns| && Distinct(ns) && node !in ns
    ensures Distinct(Joined(ns, j, e, node))
  {
  }

  lemma {:induction false} SpareDistinct(ns: seq<Node>, ms: seq<Node>, j: nat, e: nat)
    requires j <= e < |ns| && Distinct(ns) && Distinct(ms) && Apart(ns, ms)
    ensures Distinct(Freed(ns, j, e, ms))
  {
    var f := Backwards(ns, j, e);
    forall a, b | 0 <= a < b < |f + ms| ensures (f + ms)[a] != (f + ms)[b] {
      if a < |f| {
        assert (f + ms)[a] == ns[e - 1 - a];
        if b < |f| { assert (f + ms)[b] == ns[e - 1 - b]; } else { assert (f + ms)[b] == ms[b - |f|]; }
      }
    }
  }

  lemma {:induction false} JoinedApart(ns: seq<Node>, ms: seq<Node>, j: nat, e: nat, node: Node)
    requires j <= e < |ns| && Distinct(ns) && node !in ns && node !in ms && Apart(ns, ms)
    ensures Apart(Joined(ns, j, e, node), Freed(ns, j, e, ms))
  {
    var l, f := Joined(ns, j, e, node), Backwards(ns, j, e);
    forall a, b | 0 <= a < |l| && 0 <= b < |f + ms| ensures l[a] != (f + ms)[b] {
      assert (f + ms)[b] == if b < |f| then ns[e - 1 - b] else ms[b - |f|];
      assert l[a] == if a < j then ns[a] else if a == j then node else ns[a - j - 1 + e];
    }
  }

  /** The nodes are the same as before, only shared out differently. */
  lemma {:induction false} SameNodes(ns: seq<Node>, ms: seq<Node>, j: nat, e: nat, node: Node, n: Node)
    requires j <= e < |ns|
    ensures n in Joined(ns, j, e, node) || n in Freed(ns, j, e, ms) <==> n in ns || n in [node] + ms
  {
    var l, f := Joined(ns, j, e, node), Backwards(ns, j, e);
    if n in ns {
      var i :| 0 <= i < |ns| && ns[i] == n;
      assert if i < j then l[i] == n else if i < e then f[e - 1 - i] == n else l[i - e + j + 1] == n;
    } else if n == node {
      assert l[j] == n;
    }
  }

  lemma {:induction false} JoinedPoints(ns: seq<Node>, s: Sky, j: nat, e: nat, node: Node, x: int, w: int, top: int, k: nat)
    requires |s| == |ns| && k + 1 < |s| && j == Start(s, k, x) && e == Skip(s, j, x + w)
    requires node.x == x && node.y == top
    requires Points(ns) == s[e := Pt(Max(s[e].x, x + w), s[e].y)]
    ensures Points(Joined(ns, j, e, node)) == Splice(s, k, x, w, top)
  {
  }

  lemma SpareHead(ns: seq<Node>, ms: seq<Node>)
    requires ms != [] && Apart(ns, ms) && Distinct(ms)
    ensures ms[0] !in ns && ms[0] !in ms[1..] && Apart(ns, ms[1..]) && Distinct(ms[1..])
    ensures ms == [ms[0]] + ms[1..]
  {
  }

  /** The node still in the list past `e`, and the new one, are not among the spare nodes. */
  lemma SpareAway(ns: seq<Node>, ms: seq<Node>, j: nat, e: nat, node: Node)
    requires j <= e < |ns| && Distinct(ns) && Apart(ns, ms) && node !in ns && node !in ms
    ensures node !in Freed(ns, j, e, ms) && ns[e] !in Freed(ns, j, e, ms)
  {
    var f := Backwards(ns, j, e);
    assert forall i :: 0 <= i < |f| ==> f[i] == ns[e - 1 - i];
  }

  /** All that is to be said about the two lists once the pieces are in place. */
  lemma {:induction false} Assemble(head: Node, freeHead: Node?, ns: seq<Node>, ms: seq<Node>, s: Sky,
                                    j: nat, e: nat, node: Node, x: int, w: int, top: int, k: nat)
    requires j <= e && TailIs(ns, e) && Distinct(ns) && Distinct(ms) && Apart(ns, ms) && node !in ns && node !in ms
    requires Leads(head, ns, j, node)
    requires node.next == ns[e]
    requires ListIs(freeHead, Freed(ns, j, e, ms))
    requires |s| == |ns| && k + 1 < |s| && j == Start(s, k, x) && e == Skip(s, j, x + w)
    requires node.x == x && node.y == top
    requires Points(ns) == s[e := Pt(Max(s[e].x, x + w), s[e].y)]
    ensures var l, f := Joined(ns, j, e, node), Freed(ns, j, e, ms);
      && l != [] && ListIs(head, l) && Distinct(l) && Distinct(f) && Apart(l, f)
      && Points(l) == Splice(s, k, x, w, top)
      && (forall n :: n in l || n in f <==> n in ns || n in [node] + ms)
  {
    hide Points, Splice, Skip, Start, Backwards, Distinct, Apart;
    JoinedList(head, ns, j, e, node);
    JoinedDistinct(ns, j, e, node);
    SpareDistinct(ns, ms, j, e);
    JoinedApart(ns, ms, j, e, node);
    forall n ensures n in Joined(ns, j, e, node) || n in Freed(ns, j, e, ms) <==> n in ns || n in [node] + ms {
      SameNodes(ns, ms, j, e, node, n);
    }
    JoinedPoints(ns, s, j, e, node, x, w, top, k);
  }
}
