/** From the positions the search loops visit to the best position of all. */
module PackerSearch {
  import opened Skyline
  import opened SkylineSearch
  import opened Packing

  /** The best position found so far among those visited, as the search loops keep it. */
  datatype Leader = Nobody | Leader(x: int, y: int, waste: int)

  /** A leader's numbers are those of its position, which has room for height `h`. */
  ghost predicate Truthful(st: State, rw: int, h: int, l: Leader)
    requires |st.sky| >= 1 && 0 < rw
  {
    l.Leader? ==>
      && Legal(st.width, rw, l.x)
      && l.y == Peak(Outline(st), l.x, l.x + rw)
      && l.waste == Waste(Outline(st), l.x, rw)
      && l.y + h <= st.height
  }

  /** Position `x` does not beat the leader for a block of height `h`. */
  ghost predicate Covered(st: State, rw: int, h: int, l: Leader, x: int)
    requires |st.sky| >= 1 && 0 < rw && Truthful(st, rw, h, l)
  {
    Legal(st.width, rw, x) && Peak(Outline(st), x, x + rw) + h <= st.height
    ==> l.Leader? && BestFitLe(Outline(st), rw, l.x, x)
  }

  /** When no candidate beats the leader, no position at all does; without a leader there is no room. */
  lemma {:induction false} CandidatesDecide(st: State, rw: int, h: int, l: Leader)
    requires Wf(st.sky, st.width) && st.heuristic == BestFit && 0 < rw && 0 < h && Truthful(st, rw, h, l)
    requires forall x :: Candidate(st.sky, st.width, rw, x) ==> Covered(st, rw, h, l, x)
    ensures l.Leader? ==> Best(st, rw, l.x)
    ensures l.Nobody? ==> forall x :: Legal(st.width, rw, x) ==> st.height < Peak(Outline(st), x, x + rw) + h
  {
    if rw <= st.width {
      var m := BestBelow(st, rw, st.width - rw + 1);
      forall x | Legal(st.width, rw, x) ensures Peak(Outline(st), m, m + rw) <= Peak(Outline(st), x, x + rw) {
        assert NoWorse(st, rw, m, x);
      }
      var t := CandidatesSuffice(st.sky, st.width, rw, m);
      assert Covered(st, rw, h, l, t);
      if l.Leader? {
        assert NoWorse(st, rw, m, l.x);
        forall x | Legal(st.width, rw, x) ensures NoWorse(st, rw, l.x, x) {
          assert NoWorse(st, rw, m, x);
        }
      }
    }
  }

  /** For bottom-left the positions at nodes decide. */
  lemma {:induction false} NodesDecide(st: State, rw: int, x: int)
    requires Wf(st.sky, st.width) && st.heuristic == BottomLeft && 0 < rw && Legal(st.width, rw, x)
    requires forall i :: 0 <= i < |st.sky| && Legal(st.width, rw, st.sky[i].x) ==> NoWorse(st, rw, x, st.sky[i].x)
    ensures Best(st, rw, x)
  {
    hide Peak, Columns;
    forall x' | Legal(st.width, rw, x') ensures NoWorse(st, rw, x, x') {
      NodeAlignedSuffices(st.sky, st.width, rw, x');
      var i := Seg(st.sky, x');
      assert NoWorse(st, rw, x, st.sky[i].x);
    }
  }

  /** If the best position has no room, none has. */
  lemma {:induction false} BestHasNoRoom(st: State, r: Request, x: int)
    requires Asks(st, r) && Best(st, Rounded(r.w, st.align), x)
    requires st.height < Peak(Outline(st), x, x + Rounded(r.w, st.align)) + r.h
    ensures !Fits(st, r)
  {
    var rw := Rounded(r.w, st.align);
    forall x' | Legal(st.width, rw, x') ensures st.height < Peak(Outline(st), x', x' + rw) + r.h {
      assert NoWorse(st, rw, x, x');
    }
  }

  /** The outline itself never leaves the target. */
  lemma {:induction false} PeakInTarget(st: State, x: int, w: int)
    requires Grounded(st) && 0 < w && Legal(st.width, w, x)
    ensures Peak(Outline(st), x, x + w) <= st.height
  {
    forall c | x <= c < x + w ensures Outline(st)[c] <= st.height {
      SegInside(st.sky, st.width, c);
    }
    PeakAtMost(Outline(st), x, x + w, st.height);
  }

  // ----- the bottom-left loop

  /** Node `k` leads after the nodes before `j` were tried. */
  ghost predicate Leading(st: State, rw: int, k: nat, y: int, j: nat)
    requires 0 < rw
  {
    && k < j <= |st.sky|
    && Legal(st.width, rw, st.sky[k].x)
    && y == Peak(Outline(st), st.sky[k].x, st.sky[k].x + rw)
    && forall i :: 0 <= i < j ==> Legal(st.width, rw, st.sky[i].x) ==> NoWorse(st, rw, st.sky[k].x, st.sky[i].x)
  }

  lemma {:induction false} NodeIsSeg(s: Sky, width: nat, j: nat)
    requires Wf(s, width) && j + 1 < |s|
    ensures 0 <= s[j].x < s[j + 1].x <= width && Seg(s, s[j].x) == j
  {
    NodesIncrease(s, width, j);
    SegUnique(s, s[j].x, j);
  }

  lemma LeadingFirst(st: State, rw: int, y: int)
    requires st.heuristic == BottomLeft && |st.sky| >= 1 && 0 < rw && Legal(st.width, rw, st.sky[0].x)
    requires y == Peak(Outline(st), st.sky[0].x, st.sky[0].x + rw)
    ensures Leading(st, rw, 0, y, 1)
  {
  }

  lemma {:induction false} LeadingStep(st: State, rw: int, k: nat, bestY: int, j: nat, y: int)
    requires st.heuristic == BottomLeft && 0 < rw && Wf(st.sky, st.width)
    requires Leading(st, rw, k, bestY, j) && j < |st.sky| && Legal(st.width, rw, st.sky[j].x)
    requires y == Peak(Outline(st), st.sky[j].x, st.sky[j].x + rw)
    ensures if y < bestY then Leading(st, rw, j, y, j + 1) else Leading(st, rw, k, bestY, j + 1)
  {
    hide Peak, Outline;
    assert st.sky[k].x < st.sky[j].x;
  }

  lemma {:induction false} FirstIsLegal(s: Sky, width: nat, rw: int, j: nat)
    requires Wf(s, width) && 0 < rw <= width && j < |s| && width < s[j].x + rw
    ensures 0 < j
    ensures forall i :: j <= i < |s| ==> !Legal(width, rw, s[i].x)
  {
  }

  lemma {:induction false} LeadingDecides(st: State, rw: int, k: nat, y: int, j: nat)
    requires Wf(st.sky, st.width) && st.heuristic == BottomLeft && 0 < rw
    requires Leading(st, rw, k, y, j)
    requires forall i :: j <= i < |st.sky| ==> !Legal(st.width, rw, st.sky[i].x)
    ensures Best(st, rw, st.sky[k].x)
  {
    hide Peak, Outline, Wf, NoWorse;
    NodesDecide(st, rw, st.sky[k].x);
  }

  // ----- the best-fit loops

  /** The leader after position `x`, with height `y` and waste `waste`, was tried. */
  ghost function Contest(st: State, h: int, l: Leader, x: int, y: int, waste: int): Leader {
    if y + h <= st.height && (l.Nobody? || !LexLe(l.y, l.waste, l.x, y, waste, x)) then Leader(x, y, waste) else l
  }

  /** The contest keeps whatever was covered covered, and covers the new position. */
  lemma {:induction false} ContestCovers(st: State, rw: int, h: int, l: Leader, x: int, y: int, waste: int, z: int)
    requires |st.sky| >= 1 && 0 < rw && Legal(st.width, rw, x) && Truthful(st, rw, h, l)
    requires y == Peak(Outline(st), x, x + rw) && waste == Waste(Outline(st), x, rw)
    requires z == x || Covered(st, rw, h, l, z)
    ensures var l' := Contest(st, h, l, x, y, waste); Truthful(st, rw, h, l') && Covered(st, rw, h, l', z)
  {
    hide Peak, Outline, Waste;
  }

  /** All positions aligned with the left edge at one of the first `j` nodes are covered. */
  ghost predicate LeftCovered(st: State, rw: int, h: int, l: Leader, j: nat)
    requires 0 < rw
  {
    && 1 <= |st.sky| && j <= |st.sky| && Truthful(st, rw, h, l)
    && forall i :: 0 <= i < j ==> Covered(st, rw, h, l, st.sky[i].x)
  }

  /** All positions aligned with the right edge at one of the first `j` nodes are covered. */
  ghost predicate RightCovered(st: State, rw: int, h: int, l: Leader, j: nat)
    requires 0 < rw
  {
    && 1 <= |st.sky| && j <= |st.sky| && Truthful(st, rw, h, l)
    && forall i :: 0 <= i < j ==> Covered(st, rw, h, l, st.sky[i].x - rw)
  }

  lemma {:induction false} ContestLeft(st: State, rw: int, h: int, l: Leader, j: nat, y: int, waste: int)
    requires 0 < rw && j < |st.sky| && LeftCovered(st, rw, h, l, j) && Legal(st.width, rw, st.sky[j].x)
    requires y == Peak(Outline(st), st.sky[j].x, st.sky[j].x + rw) && waste == Waste(Outline(st), st.sky[j].x, rw)
    ensures LeftCovered(st, rw, h, Contest(st, h, l, st.sky[j].x, y, waste), j + 1)
  {
    hide Covered, Truthful, Contest, Peak, Waste;
    forall i | 0 <= i < j + 1 ensures
      var l' := Contest(st, h, l, st.sky[j].x, y, waste); Truthful(st, rw, h, l') && Covered(st, rw, h, l', st.sky[i].x)
    {
      ContestCovers(st, rw, h, l, st.sky[j].x, y, waste, st.sky[i].x);
    }
    ContestCovers(st, rw, h, l, st.sky[j].x, y, waste, st.sky[j].x);
  }

  lemma {:induction false} ContestRight(st: State, rw: int, h: int, l: Leader, j: nat, y: int, waste: int)
    requires 0 < rw && j < |st.sky| && Legal(st.width, rw, st.sky[j].x - rw)
    requires LeftCovered(st, rw, h, l, |st.sky|) && RightCovered(st, rw, h, l, j)
    requires y == Peak(Outline(st), st.sky[j].x - rw, st.sky[j].x) && waste == Waste(Outline(st), st.sky[j].x - rw, rw)
    ensures var l' := Contest(st, h, l, st.sky[j].x - rw, y, waste);
      LeftCovered(st, rw, h, l', |st.sky|) && RightCovered(st, rw, h, l', j + 1)
  {
    hide Covered, Truthful, Contest, Peak, Waste;
    var x := st.sky[j].x - rw;
    var l' := Contest(st, h, l, x, y, waste);
    ContestCovers(st, rw, h, l, x, y, waste, x);
    forall i | 0 <= i < |st.sky| ensures Covered(st, rw, h, l', st.sky[i].x) {
      ContestCovers(st, rw, h, l, x, y, waste, st.sky[i].x);
    }
    forall i | 0 <= i < j + 1 ensures Covered(st, rw, h, l', st.sky[i].x - rw) {
      ContestCovers(st, rw, h, l, x, y, waste, st.sky[i].x - rw);
    }
  }

  /** Positions that stick out of the target need no trying. */
  lemma {:induction false} OutsideIsCovered(st: State, rw: int, h: int, l: Leader, j: nat)
    requires 0 < rw && LeftCovered(st, rw, h, l, j)
    requires forall i :: j <= i < |st.sky| ==> !Legal(st.width, rw, st.sky[i].x)
    ensures LeftCovered(st, rw, h, l, |st.sky|)
  {
    hide Truthful, Peak, Outline;
  }

  lemma {:induction false} AllCovered(st: State, rw: int, h: int, l: Leader)
    requires Wf(st.sky, st.width) && st.heuristic == BestFit && 0 < rw && 0 < h
    requires LeftCovered(st, rw, h, l, |st.sky|) && RightCovered(st, rw, h, l, |st.sky|)
    ensures l.Leader? ==> Best(st, rw, l.x)
    ensures l.Nobody? ==> forall x :: Legal(st.width, rw, x) ==> st.height < Peak(Outline(st), x, x + rw) + h
  {
    hide Covered, Truthful, Peak, Wf, Outline;
    forall x | Candidate(st.sky, st.width, rw, x) ensures Covered(st, rw, h, l, x) {
      var i :| 0 <= i < |st.sky| && (st.sky[i].x == x || st.sky[i].x == x + rw);
      assert st.sky[i].x == x || st.sky[i].x - rw == x;
    }
    CandidatesDecide(st, rw, h, l);
  }

  lemma {:induction false} SegHere(s: Sky, width: nat, c: int, i: nat)
    requires Wf(s, width) && i + 1 < |s| && s[i].x <= c < s[i + 1].x
    ensures Seg(s, c) == i
  {
    SegUnique(s, c, i);
  }

  lemma {:induction false} TailsIncrease(s: Sky, width: nat, t: nat)
    requires Wf(s, width) && t < |s|
    ensures s[0].x == 0 <= s[t].x <= width && (t + 1 < |s| ==> s[t].x < s[t + 1].x <= width)
  {
    assert s[0].x <= s[t].x <= s[|s| - 1].x;
    if t + 1 < |s| { NodesIncrease(s, width, t); }
  }

  /** Nodes too far left to carry a right edge need no trying. */
  lemma {:induction false} TailsBefore(st: State, rw: int, h: int, l: Leader, t: nat)
    requires 0 < rw && t <= |st.sky| && LeftCovered(st, rw, h, l, |st.sky|)
    requires forall i :: 0 <= i < t ==> st.sky[i].x < rw
    ensures RightCovered(st, rw, h, l, t)
  {
  }

  lemma {:induction false} TooBig(st: State, r: Request)
    requires Asks(st, r) && (st.width < Rounded(r.w, st.align) || st.height < r.h)
    ensures !Fits(st, r)
  {
    var rw := Rounded(r.w, st.align);
    forall x | Legal(st.width, rw, x) ensures st.height < Peak(Outline(st), x, x + rw) + r.h {
      PeakBounds(Outline(st), x, x + rw);
    }
  }

  lemma {:induction false} Refused(st: State, r: Request, nowhere: bool, x: int)
    requires Asks(st, r) && Wf(st.sky, st.width)
    requires if nowhere then !Fits(st, r) else Best(st, Rounded(r.w, st.align), x)
    requires nowhere || st.height < Peak(Outline(st), x, x + Rounded(r.w, st.align)) + r.h || st.free == 0
    ensures Spot(st, r).None? && Step(st, r) == st
  {
    if !nowhere && st.free > 0 {
      BestHasNoRoom(st, r, x);
    }
    PlacedIffFits(st, r);
  }
}
