/** The skyline as data: a strictly increasing list of nodes, read as a height per column.

    The packer keeps the upper outline of everything placed so far as a linked list of
    nodes.  A node `(x, y)` says "from column x up to the next node the outline is at
    height y"; the last node is a sentinel at the target's width.  Everything the packer
    promises is about columns, so the columns are the reference here: `Columns` reads a
    node list as one height per column, and `Peak` and `Sum` are brute-force folds over
    those heights. */
module Skyline {
  import opened Basics

  datatype Pt = Pt(x: int, y: int)

  type Sky = seq<Pt>
  type Heights = seq<int>

  ghost predicate Sorted(s: Sky) {
    forall i, j :: 0 <= i < j < |s| ==> s[i].x < s[j].x
  }

  /** The shape every reachable node list has. */
  ghost predicate Wf(s: Sky, width: int) {
    && |s| >= 2
    && Sorted(s)
    && s[0].x == 0
    && s[|s| - 1].x == width
    && forall i :: 0 <= i < |s| ==> 0 <= s[i].y
  }

  // ----- from nodes to columns

  /** The first node at or after `i` whose successor starts to the right of column `c`. */
  ghost function SegFrom(s: Sky, i: nat, c: int): (k: nat)
    requires i < |s|
    ensures i <= k < |s|
    ensures k + 1 == |s| || c < s[k + 1].x
    ensures s[i].x <= c ==> s[k].x <= c
    decreases |s| - i
  {
    if i + 1 < |s| && s[i + 1].x <= c then SegFrom(s, i + 1, c) else i
  }

  /** The node over column `c`. */
  ghost function Seg(s: Sky, c: int): (k: nat)
    requires |s| >= 1
    ensures k < |s|
    ensures k + 1 == |s| || c < s[k + 1].x
    ensures s[0].x <= c ==> s[k].x <= c
  {
    SegFrom(s, 0, c)
  }

  lemma {:induction false} SegUnique(s: Sky, c: int, i: nat)
    requires Sorted(s) && i < |s|
    requires s[i].x <= c
    requires i + 1 == |s| || c < s[i + 1].x
    ensures Seg(s, c) == i
  {
    assert s[0].x <= c;
  }

  ghost function HeightAt(s: Sky, c: int): int
    requires |s| >= 1
  {
    s[Seg(s, c)].y
  }

  /** The outline as one height per column. */
  ghost function Columns(s: Sky, width: nat): (cols: Heights)
    requires |s| >= 1
    ensures |cols| == width
  {
    if width == 0 then [] else Columns(s, width - 1) + [HeightAt(s, width - 1)]
  }

  lemma {:induction false} ColumnsIndex(s: Sky, width: nat, c: int)
    requires |s| >= 1 && 0 <= c < width
    ensures Columns(s, width)[c] == HeightAt(s, c)
  {
    if c < width - 1 {
      ColumnsIndex(s, width - 1, c);
    }
  }

  /** Over one node's stretch the columns are constant. */
  lemma {:induction false} ColumnsAt(s: Sky, width: nat, i: nat, c: int)
    requires Wf(s, width)
    requires i + 1 < |s| && s[i].x <= c < s[i + 1].x
    ensures 0 <= c < width && Columns(s, width)[c] == s[i].y
  {
    SegUnique(s, c, i);
    assert s[i + 1].x <= s[|s| - 1].x;
    assert s[0].x <= s[i].x;
    ColumnsIndex(s, width, c);
  }

  /** Every column belongs to a node other than the sentinel. */
  lemma {:induction false} SegInside(s: Sky, width: nat, c: int)
    requires Wf(s, width) && 0 <= c < width
    ensures var k := Seg(s, c);
      k + 1 < |s| && s[k].x <= c < s[k + 1].x && Columns(s, width)[c] == s[k].y
  {
    ColumnsIndex(s, width, c);
  }

  // ----- brute-force folds over columns

  /** The greatest height in columns `[lo, hi)`, 0 when there are none. */
  ghost function Peak(cols: Heights, lo: int, hi: int): int
    requires 0 <= lo && hi <= |cols|
    decreases hi - lo
  {
    if lo >= hi then 0 else Max(Peak(cols, lo, hi - 1), cols[hi - 1])
  }

  /** The area under columns `[lo, hi)`. */
  ghost function Sum(cols: Heights, lo: int, hi: int): int
    requires 0 <= lo && hi <= |cols|
    decreases hi - lo
  {
    if lo >= hi then 0 else Sum(cols, lo, hi - 1) + cols[hi - 1]
  }

  /** The area between the columns `[lo, hi)` and a flat line at height `top`. */
  ghost function Gap(cols: Heights, lo: int, hi: int, top: int): int
    requires 0 <= lo && hi <= |cols|
    decreases hi - lo
  {
    if lo >= hi then 0 else Gap(cols, lo, hi - 1, top) + top - cols[hi - 1]
  }

  /** The area lost under a block of width `w` that rests on the columns from `x` on. */
  ghost function Waste(cols: Heights, x: int, w: int): int
    requires 0 <= x && 0 <= w && x + w <= |cols|
  {
    Gap(cols, x, x + w, Peak(cols, x, x + w))
  }

  lemma {:induction false} GapArea(cols: Heights, lo: int, hi: int, top: int)
    requires 0 <= lo <= hi <= |cols|
    ensures Gap(cols, lo, hi, top) == (hi - lo) * top - Sum(cols, lo, hi)
    decreases hi - lo
  {
    if lo < hi {
      GapArea(cols, lo, hi - 1, top);
      assert (hi - lo) * top == (hi - 1 - lo) * top + top;
    }
  }

  /** `Peak` is the least non-negative bound of its columns. */
  lemma {:induction false} PeakBounds(cols: Heights, lo: int, hi: int)
    requires 0 <= lo && hi <= |cols|
    ensures 0 <= Peak(cols, lo, hi)
    ensures forall c :: lo <= c < hi ==> cols[c] <= Peak(cols, lo, hi)
    ensures Peak(cols, lo, hi) == 0 || exists c :: lo <= c < hi && cols[c] == Peak(cols, lo, hi)
    decreases hi - lo
  {
    if lo < hi {
      PeakBounds(cols, lo, hi - 1);
      assert Peak(cols, lo, hi) == Peak(cols, lo, hi - 1) || cols[hi - 1] == Peak(cols, lo, hi);
    }
  }

  lemma {:induction false} PeakAtMost(cols: Heights, lo: int, hi: int, bound: int)
    requires 0 <= lo && hi <= |cols|
    requires 0 <= bound && forall c :: lo <= c < hi ==> cols[c] <= bound
    ensures Peak(cols, lo, hi) <= bound
  {
    PeakBounds(cols, lo, hi);
  }

  /** Extending a stretch by equally high columns. */
  lemma {:induction false} PeakFlat(cols: Heights, lo: int, mid: int, hi: int, y: int)
    requires 0 <= lo <= mid <= hi <= |cols|
    requires forall c :: mid <= c < hi ==> cols[c] == y
    ensures Peak(cols, lo, hi) == if mid < hi then Max(Peak(cols, lo, mid), y) else Peak(cols, lo, mid)
    ensures Sum(cols, lo, hi) == Sum(cols, lo, mid) + (hi - mid) * y
    decreases hi - mid
  {
    if mid < hi {
      PeakFlat(cols, lo, mid, hi - 1, y);
      assert (hi - mid) * y == (hi - 1 - mid) * y + y;
    }
  }

  lemma {:induction false} SumSplit(cols: Heights, lo: int, mid: int, hi: int)
    requires 0 <= lo <= mid <= hi <= |cols|
    ensures Sum(cols, lo, hi) == Sum(cols, lo, mid) + Sum(cols, mid, hi)
    decreases hi - mid
  {
    if mid < hi {
      SumSplit(cols, lo, mid, hi - 1);
    }
  }

  lemma {:induction false} FoldsAgree(a: Heights, b: Heights, lo: int, hi: int)
    requires 0 <= lo && hi <= |a| && hi <= |b|
    requires forall c :: lo <= c < hi ==> a[c] == b[c]
    ensures Sum(a, lo, hi) == Sum(b, lo, hi) && Peak(a, lo, hi) == Peak(b, lo, hi)
    decreases hi - lo
  {
    if lo < hi {
      FoldsAgree(a, b, lo, hi - 1);
    }
  }

  // ----- raising a stretch of columns

  /** The columns after something with its top at height `top` came to stand on `[x, x+w)`. */
  ghost function Raise(cols: Heights, x: int, w: int, top: int): (r: Heights)
    requires 0 <= x && 0 <= w && x + w <= |cols|
    ensures |r| == |cols|
  {
    seq(|cols|, c requires 0 <= c < |cols| => if x <= c < x + w then top else cols[c])
  }

  /** Raising accounts for every unit of area: the old area, the block, and the gap below it. */
  lemma {:induction false} RaiseArea(cols: Heights, x: int, w: int, y: int, h: int)
    requires 0 <= x && 0 <= w && x + w <= |cols|
    ensures Sum(Raise(cols, x, w, y + h), 0, |cols|)
         == Sum(cols, 0, |cols|) + w * h + Gap(cols, x, x + w, y)
  {
    var r := Raise(cols, x, w, y + h);
    SumSplit(cols, 0, x, x + w);
    SumSplit(cols, 0, x + w, |cols|);
    SumSplit(r, 0, x, x + w);
    SumSplit(r, 0, x + w, |cols|);
    FoldsAgree(cols, r, 0, x);
    FoldsAgree(cols, r, x + w, |cols|);
    PeakFlat(r, x, x, x + w, y + h);
    GapArea(cols, x, x + w, y);
    assert w * (y + h) == w * y + w * h;
  }

  // ----- the splice

  /** The node at which the splice stops freeing: the first from `j` on whose successor
      starts after column `e`, or the sentinel. */
  ghost function Skip(s: Sky, j: nat, e: int): (k: nat)
    requires j < |s|
    ensures j <= k < |s|
    ensures k + 1 == |s| || e < s[k + 1].x
    ensures forall i :: j < i <= k ==> s[i].x <= e
    decreases |s| - j
  {
    if j + 1 < |s| && s[j + 1].x <= e then Skip(s, j + 1, e) else j
  }

  lemma SkipStep(s: Sky, j: nat, e: int)
    requires j < |s|
    ensures Skip(s, j, e) == if j + 1 < |s| && s[j + 1].x <= e then Skip(s, j + 1, e) else j
  {
  }

  /** Where the new node goes: after node `k` when that one starts further left, else in its place. */
  ghost function Start(s: Sky, k: nat, x: int): (j: nat)
    requires k + 1 < |s|
    ensures k <= j <= k + 1
  {
    if s[k].x < x then k + 1 else k
  }

  /** The node list after a node for `[x, x+w)` at height `top` has been spliced in at node `k`. */
  ghost function Splice(s: Sky, k: nat, x: int, w: int, top: int): Sky
    requires k + 1 < |s|
  {
    var j := Start(s, k, x);
    var e := Skip(s, j, x + w);
    s[..j] + [Pt(x, top)] + [Pt(Max(s[e].x, x + w), s[e].y)] + s[e + 1..]
  }

  /** How many columns the splice raises.  Normally `w`; but when the node under the left edge
      starts further left and also ends right of the block, its rest is raised too. */
  ghost function RaisedWidth(s: Sky, k: nat, x: int, w: int): int
    requires k + 1 < |s|
  {
    if s[k].x < x && x + w < s[k + 1].x then s[k + 1].x - x else w
  }

  ghost predicate SpliceArgs(s: Sky, width: nat, k: nat, x: int, w: int, top: int) {
    && Wf(s, width)
    && 0 <= x && 0 < w && x + w <= width && 0 <= top
    && k + 1 < |s| && s[k].x <= x < s[k + 1].x
  }

  lemma SpliceLength(s: Sky, k: nat, x: int, w: int, top: int)
    requires k + 1 < |s|
    ensures |Splice(s, k, x, w, top)| == |s| + Start(s, k, x) + 1 - Skip(s, Start(s, k, x), x + w)
  {
  }

  lemma {:induction false} SpliceIndex(s: Sky, width: nat, k: nat, x: int, w: int, top: int)
    requires SpliceArgs(s, width, k, x, w, top)
    ensures var j := Start(s, k, x); var e := Skip(s, j, x + w); var t := Splice(s, k, x, w, top);
      && |t| == |s| + j - e + 1
      && (forall i :: 0 <= i < j ==> t[i] == s[i])
      && t[j] == Pt(x, top)
      && t[j + 1] == Pt(Max(s[e].x, x + w), s[e].y)
      && (forall i :: j + 2 <= i < |t| ==> t[i] == s[i - j + e - 1])
  {
  }

  lemma {:induction false} AdjacentSorted(s: Sky, i: nat, j: nat)
    requires forall i :: 0 <= i < |s| - 1 ==> s[i].x < s[i + 1].x
    requires i < j < |s|
    ensures s[i].x < s[j].x
  {
    if i + 1 < j { AdjacentSorted(s, i, j - 1); }
    assert s[j - 1].x < s[j - 1 + 1].x;
  }

  lemma {:induction false} SpliceAdjacent(s: Sky, width: nat, k: nat, x: int, w: int, top: int, i: nat)
    requires SpliceArgs(s, width, k, x, w, top)
    requires i + 1 < |Splice(s, k, x, w, top)|
    ensures Splice(s, k, x, w, top)[i].x < Splice(s, k, x, w, top)[i + 1].x
  {
    SpliceIndex(s, width, k, x, w, top);
  }

  lemma {:induction false} SpliceWf(s: Sky, width: nat, k: nat, x: int, w: int, top: int)
    requires SpliceArgs(s, width, k, x, w, top)
    ensures Wf(Splice(s, k, x, w, top), width)
  {
    var t := Splice(s, k, x, w, top);
    forall i | 0 <= i < |t| - 1 ensures t[i].x < t[i + 1].x {
      SpliceAdjacent(s, width, k, x, w, top, i);
    }
    forall i, j | 0 <= i < j < |t| ensures t[i].x < t[j].x {
      AdjacentSorted(t, i, j);
    }
    SpliceIndex(s, width, k, x, w, top);
  }

  /** A node starting before `c` comes before a node starting at or after `c`. */
  lemma OrderedIndices(s: Sky, i: nat, j: nat, c: int)
    requires Sorted(s) && i < |s| && j < |s| && s[i].x < c <= s[j].x
    ensures i < j
  {
  }

  /** The nodes right of the block keep their place, shifted by the number of nodes freed. */
  lemma {:induction false} NodeRight(s: Sky, width: nat, k: nat, x: int, w: int, top: int, i: nat)
    requires SpliceArgs(s, width, k, x, w, top)
    requires Skip(s, Start(s, k, x), x + w) <= i && i + 1 < |s|
    ensures var t := Splice(s, k, x, w, top);
      var m := i + Start(s, k, x) + 1 - Skip(s, Start(s, k, x), x + w);
      m + 1 < |t| && t[m].y == s[i].y && t[m].x <= Max(s[i].x, x + w) && t[m + 1] == s[i + 1]
  {
  }

  lemma {:induction false} ColumnLeft(s: Sky, width: nat, k: nat, x: int, w: int, top: int, c: int)
    requires SpliceArgs(s, width, k, x, w, top) && Wf(Splice(s, k, x, w, top), width)
    requires 0 <= c < x
    ensures Columns(Splice(s, k, x, w, top), width)[c] == Columns(s, width)[c]
  {
    SpliceIndex(s, width, k, x, w, top);
    SegInside(s, width, c);
    var i := Seg(s, c);
    OrderedIndices(s, i, Start(s, k, x), x);
    ColumnsAt(Splice(s, k, x, w, top), width, i, c);
  }

  lemma {:induction false} ColumnMiddle(s: Sky, width: nat, k: nat, x: int, w: int, top: int, c: int)
    requires SpliceArgs(s, width, k, x, w, top) && Wf(Splice(s, k, x, w, top), width)
    requires x <= c < x + RaisedWidth(s, k, x, w)
    requires x + RaisedWidth(s, k, x, w) <= width
    ensures Columns(Splice(s, k, x, w, top), width)[c] == top
  {
    SpliceIndex(s, width, k, x, w, top);
    ColumnsAt(Splice(s, k, x, w, top), width, Start(s, k, x), c);
  }

  lemma {:induction false} ColumnRight(s: Sky, width: nat, k: nat, x: int, w: int, top: int, c: int)
    requires SpliceArgs(s, width, k, x, w, top) && Wf(Splice(s, k, x, w, top), width)
    requires x + RaisedWidth(s, k, x, w) <= c < width
    ensures Columns(Splice(s, k, x, w, top), width)[c] == Columns(s, width)[c]
  {
    SpliceIndex(s, width, k, x, w, top);
    SegInside(s, width, c);
    var j := Start(s, k, x);
    var e := Skip(s, j, x + w);
    var i := Seg(s, c);
    assert s[e].x <= c;
    OrderedIndices(s, e, i + 1, c + 1);
    NodeRight(s, width, k, x, w, top, i);
    ColumnsAt(Splice(s, k, x, w, top), width, i + j + 1 - e, c);
  }

  /** The splice of list nodes is a pointwise update of columns. */
  lemma {:induction false} SpliceRaises(s: Sky, width: nat, k: nat, x: int, w: int, top: int)
    requires SpliceArgs(s, width, k, x, w, top)
    ensures 0 < RaisedWidth(s, k, x, w) && x + RaisedWidth(s, k, x, w) <= width
    ensures Wf(Splice(s, k, x, w, top), width)
    ensures Columns(Splice(s, k, x, w, top), width)
         == Raise(Columns(s, width), x, RaisedWidth(s, k, x, w), top)
  {
    SpliceWf(s, width, k, x, w, top);
    assert s[k + 1].x <= s[|s| - 1].x;
    forall c | 0 <= c < width
      ensures Columns(Splice(s, k, x, w, top), width)[c]
           == Raise(Columns(s, width), x, RaisedWidth(s, k, x, w), top)[c]
    {
      if c < x {
        ColumnLeft(s, width, k, x, w, top, c);
      } else if c < x + RaisedWidth(s, k, x, w) {
        ColumnMiddle(s, width, k, x, w, top, c);
      } else {
        ColumnRight(s, width, k, x, w, top, c);
      }
    }
  }

  /** A strictly increasing list of integers from 0 to `width` has at most `width + 1` nodes. */
  lemma {:induction false} NodesAtMostColumns(s: Sky, width: nat)
    requires Wf(s, width)
    ensures |s| <= width + 1
  {
    IndexBelowX(s, |s| - 1);
  }

  lemma {:induction false} IndexBelowX(s: Sky, i: nat)
    requires Sorted(s) && i < |s| && s[0].x == 0
    ensures i <= s[i].x
  {
    if i > 0 {
      IndexBelowX(s, i - 1);
      assert s[i - 1].x < s[i].x;
    }
  }
}
