/** Packing an array of rectangles: sorted for packing, put back in the caller's order after. */
module RectPacking {
  import opened Packing
  import opened PackingSafety
  import opened SkylinePacker

  const MAXVAL := 0x7fff_ffff

  datatype Rect = Rect(id: int, w: int, h: int, x: int, y: int, wasPacked: int)

  // ----- the two orders

  /** Higher first, then wider. */
  function HeightCompare(p: Rect, q: Rect): int {
    if p.h > q.h then -1
    else if p.h < q.h then 1
    else if p.w > q.w then -1 else if p.w < q.w then 1 else 0
  }

  function OriginalOrder(p: Rect, q: Rect): int {
    if p.wasPacked < q.wasPacked then -1 else if p.wasPacked > q.wasPacked then 1 else 0
  }

  datatype Order = ByHeight | ByOrigin {
    function Compare(p: Rect, q: Rect): int {
      match this
      case ByHeight => HeightCompare(p, q)
      case ByOrigin => OriginalOrder(p, q)
    }
  }

  /** `p` lists the numbers below `n`, each once. */
  ghost predicate Permutation(p: seq<nat>, n: nat) {
    && |p| == n
    && (forall i :: 0 <= i < n ==> p[i] < n)
    && (forall i, j :: 0 <= i < j < n ==> p[i] != p[j])
  }

  ghost predicate InOrder(rs: seq<Rect>, o: Order) {
    forall i, j :: 0 <= i < j < |rs| ==> o.Compare(rs[i], rs[j]) <= 0
  }

  /** The rectangles of `rs` in the order given by `p`. */
  ghost function Arranged<T>(rs: seq<T>, p: seq<nat>): (r: seq<T>)
    requires forall i :: 0 <= i < |p| ==> p[i] < |rs|
    ensures |r| == |p| && forall i :: 0 <= i < |p| ==> r[i] == rs[p[i]]
  {
    seq(|p|, i requires 0 <= i < |p| => rs[p[i]])
  }

  /** Stands for the sorting routine the packer is given: all that is used of it is that it
      permutes the array into the order asked for. */
  method Sort(a: array<Rect>, o: Order) returns (ghost p: seq<nat>)
    modifies a
    ensures Permutation(p, a.Length) && a[..] == Arranged(old(a[..]), p) && InOrder(a[..], o)
  {
    hide HeightCompare, OriginalOrder, Permutation;
    ghost var rs := a[..];
    p := Identity(a.Length);
    var i := 0;
    while i < a.Length
      invariant 0 <= i <= a.Length
      invariant Follows(a[..], rs, p)
      invariant forall k, l :: 0 <= k < i && k < l < a.Length ==> o.Compare(a[k], a[l]) <= 0
    {
      var m := LeastFrom(a, i, o);
      SwapFollows(a[..], rs, p, i, m);
      a[i], a[m] := a[m], a[i];
      p := p[i := p[m]][m := p[i]];
      i := i + 1;
    }
  }

  ghost function Identity(n: nat): (p: seq<nat>)
    ensures Permutation(p, n) && forall i :: 0 <= i < n ==> p[i] == i
  {
    seq(n, i => i)
  }

  ghost predicate Follows(a: seq<Rect>, rs: seq<Rect>, p: seq<nat>) {
    |a| == |rs| == |p| && Permutation(p, |rs|) && forall k :: 0 <= k < |rs| ==> a[k] == rs[p[k]]
  }

  lemma {:induction false} SwapFollows(a: seq<Rect>, rs: seq<Rect>, p: seq<nat>, i: nat, m: nat)
    requires Follows(a, rs, p) && i < |a| && m < |a|
    ensures Follows(a[i := a[m]][m := a[i]], rs, p[i := p[m]][m := p[i]])
  {
  }

  method LeastFrom(a: array<Rect>, i: int, o: Order) returns (m: int)
    requires 0 <= i < a.Length
    ensures i <= m < a.Length && forall k :: i <= k < a.Length ==> o.Compare(a[m], a[k]) <= 0
  {
    m := i;
    for j := i to a.Length
      invariant i <= m < a.Length && forall k :: i <= k < j ==> o.Compare(a[m], a[k]) <= 0
    {
      if o.Compare(a[j], a[m]) < 0 {
        m := j;
      }
    }
  }

  /** A permutation in increasing order is the identity. */
  lemma {:induction false} IncreasingIsIdentity(p: seq<nat>, n: nat, i: nat)
    requires Permutation(p, n) && i < n
    requires forall k, l :: 0 <= k < l < n ==> p[k] <= p[l]
    ensures p[i] == i
  {
    AtLeastIndex(p, n, i);
    AtMostIndex(p, n, i);
  }

  lemma {:induction false} AtLeastIndex(p: seq<nat>, n: nat, i: nat)
    requires Permutation(p, n) && i < n
    requires forall k, l :: 0 <= k < l < n ==> p[k] <= p[l]
    ensures i <= p[i]
  {
    if i > 0 {
      AtLeastIndex(p, n, i - 1);
      assert p[i - 1] <= p[i] && p[i - 1] != p[i];
    }
  }

  lemma {:induction false} AtMostIndex(p: seq<nat>, n: nat, i: nat)
    requires Permutation(p, n) && i < n
    requires forall k, l :: 0 <= k < l < n ==> p[k] <= p[l]
    ensures p[i] <= i
    decreases n - i
  {
    if i + 1 < n {
      AtMostIndex(p, n, i + 1);
      assert p[i] <= p[i + 1] && p[i] != p[i + 1];
    }
  }

  // ----- what happens to each rectangle

  ghost predicate Empty(r: Request) { r.w == 0 || r.h == 0 }

  ghost predicate Sized(rs: seq<Request>) {
    forall i :: 0 <= i < |rs| ==> 0 <= rs[i].w && 0 <= rs[i].h
  }

  /** The packer's state after one rectangle; an empty one needs no space. */
  ghost function PackOne(st: State, r: Request): (st': State)
    requires Inv(st) && 0 <= r.w && 0 <= r.h
    ensures Inv(st')
    ensures st'.width == st.width && st'.height == st.height && st'.align == st.align
    ensures st'.nodes == st.nodes && st'.heuristic == st.heuristic
    ensures st.boxes <= st'.boxes
  {
    if Empty(r) then st else
      StepKeepsInv(st, r);
      StepAddsBox(st, r);
      Step(st, r)
  }

  /** The packer's state after the rectangles of `rs` in that order. */
  ghost function PackAll(st: State, rs: seq<Request>): (st': State)
    requires Inv(st) && Sized(rs)
    ensures Inv(st')
    ensures st'.width == st.width && st'.height == st.height && st'.align == st.align
    ensures st'.nodes == st.nodes && st'.heuristic == st.heuristic
    decreases |rs|
  {
    if rs == [] then st else PackOne(PackAll(st, rs[..|rs| - 1]), rs[|rs| - 1])
  }

  /** The place a rectangle is given: the origin if it is empty, a far away one if there is no room. */
  ghost function Outcome(st: State, r: Request): (int, int)
    requires Inv(st) && 0 <= r.w && 0 <= r.h
  {
    if Empty(r) then (0, 0)
    else match Spot(st, r)
      case None => (MAXVAL, MAXVAL)
      case Some(x) => (x, RestingY(st, r, x))
  }

  /** The `i`-th rectangle of the order was given a place. */
  ghost predicate GotPlace(st: State, rs: seq<Request>, i: nat)
    requires Inv(st) && Sized(rs) && i < |rs|
  {
    Empty(rs[i]) || Spot(PackAll(st, rs[..i]), rs[i]).Some?
  }

  ghost function OutcomeAt(st: State, rs: seq<Request>, i: nat): (int, int)
    requires Inv(st) && Sized(rs) && i < |rs|
  {
    Outcome(PackAll(st, rs[..i]), rs[i])
  }

  /** The far away place is given to nobody who got one: it marks exactly the failures. */
  lemma {:induction false} MarkIsFailure(st: State, rs: seq<Request>, i: nat)
    requires Inv(st) && Sized(rs) && i < |rs|
    ensures OutcomeAt(st, rs, i) == (MAXVAL, MAXVAL) <==> !GotPlace(st, rs, i)
  {
    var mid, r := PackAll(st, rs[..i]), rs[i];
    if !Empty(rs[i]) && Spot(mid, r).Some? {
      PlacedArgs(mid, r, Spot(mid, r).value);
    }
  }

  /** The box a rectangle occupies at a place. */
  function BoxAt(r: Request, place: (int, int)): Box { Box(place.0, place.1, r.w, r.h) }

  lemma {:induction false} StepAddsBox(st: State, r: Request)
    requires Inv(st) && Asks(st, r)
    ensures st.boxes <= Step(st, r).boxes
  {
    hide Placed, Spot;
    if Spot(st, r).Some? {
      PlacedBoxes(st, r, Spot(st, r).value);
    }
  }

  lemma PlacedBoxes(st: State, r: Request, x: int)
    requires Placing(st, r, x)
    ensures Placed(st, r, x).boxes == st.boxes + [Box(x, RestingY(st, r, x), r.w, r.h)]
  {
  }

  /** Later rectangles only add boxes. */
  lemma {:induction false} BoxesGrow(st: State, rs: seq<Request>, i: nat)
    requires Inv(st) && Sized(rs) && i <= |rs|
    ensures PackAll(st, rs[..i]).boxes <= PackAll(st, rs).boxes
    decreases |rs|
  {
    hide PackOne, Inv;
    if i < |rs| {
      BoxesGrow(st, rs[..|rs| - 1], i);
      assert rs[..|rs| - 1][..i] == rs[..i];
    } else {
      assert rs[..i] == rs;
    }
  }

  /** How many boxes there are when the `i`-th rectangle's turn comes. */
  ghost function BoxIndex(st: State, rs: seq<Request>, i: nat): nat
    requires Inv(st) && Sized(rs) && i <= |rs|
  {
    |PackAll(st, rs[..i]).boxes|
  }

  lemma {:induction false} BoxIndexGrows(st: State, rs: seq<Request>, i: nat, j: nat)
    requires Inv(st) && Sized(rs) && i <= j <= |rs|
    ensures |st.boxes| <= BoxIndex(st, rs, i) <= BoxIndex(st, rs, j) <= |PackAll(st, rs).boxes|
  {
    hide PackAll, Inv;
    assert rs[..0] == [] && rs[..i][..0] == [] && rs[..j][..i] == rs[..i];
    PackNothing(st);
    BoxesGrow(st, rs[..i], 0);
    BoxesGrow(st, rs[..j], i);
    BoxesGrow(st, rs, j);
  }

  /** A non-empty rectangle that got a place is one of the boxes, at an index of its own. */
  lemma {:induction false} PlacedIsBox(st: State, rs: seq<Request>, i: nat)
    requires Inv(st) && Sized(rs) && i < |rs| && !Empty(rs[i]) && GotPlace(st, rs, i)
    ensures BoxIndex(st, rs, i) < BoxIndex(st, rs, i + 1) <= |PackAll(st, rs).boxes|
    ensures PackAll(st, rs).boxes[BoxIndex(st, rs, i)] == BoxAt(rs[i], OutcomeAt(st, rs, i))
  {
    hide PackOne, Spot, Inv, Outcome, Empty;
    var upTo := rs[..i + 1];
    assert upTo[..i] == rs[..i] && upTo[|upTo| - 1] == rs[i];
    BoxesGrow(st, rs, i + 1);
    PackOneBox(PackAll(st, rs[..i]), rs[i]);
  }

  lemma {:induction false} PackOneBox(st: State, r: Request)
    requires Inv(st) && 0 <= r.w && 0 <= r.h && !Empty(r) && Spot(st, r).Some?
    ensures PackOne(st, r).boxes == st.boxes + [BoxAt(r, Outcome(st, r))]
  {
    hide Placed, Spot;
    PlacedBoxes(st, r, Spot(st, r).value);
  }

  lemma PackNothing(st: State)
    requires Inv(st)
    ensures PackAll(st, []) == st
  {
  }

  /** Whatever was packed before, all non-empty rectangles that got a place lie inside the target,
      and no two of them, nor one of them and a box packed earlier, overlap. */
  lemma {:induction false} PackedAreDisjoint(st: State, rs: seq<Request>, i: nat, j: nat)
    requires Inv(st) && Sized(rs) && i < |rs| && !Empty(rs[i]) && GotPlace(st, rs, i)
    ensures Inside(BoxAt(rs[i], OutcomeAt(st, rs, i)), st.width, st.height)
    ensures forall k :: 0 <= k < |st.boxes| ==> Disjoint(st.boxes[k], BoxAt(rs[i], OutcomeAt(st, rs, i)))
    ensures i < j < |rs| && !Empty(rs[j]) && GotPlace(st, rs, j)
      ==> Disjoint(BoxAt(rs[i], OutcomeAt(st, rs, i)), BoxAt(rs[j], OutcomeAt(st, rs, j)))
  {
    hide Grounded, Outcome, GotPlace, Empty, PackAll, BoxIndex;
    PlacedIsBox(st, rs, i);
    BoxIndexGrows(st, rs, 0, i);
    BoxesGrow(st, rs, 0);
    assert rs[..0] == [];
    PackNothing(st);
    if i < j < |rs| && !Empty(rs[j]) && GotPlace(st, rs, j) {
      PlacedIsBox(st, rs, j);
      BoxIndexGrows(st, rs, i + 1, j);
    }
  }

  // ----- packing an array in place

  ghost function Sizes(rs: seq<Rect>): (r: seq<Request>)
    ensures |r| == |rs| && forall i :: 0 <= i < |rs| ==> r[i] == Request(rs[i].w, rs[i].h)
  {
    seq(|rs|, i requires 0 <= i < |rs| => Request(rs[i].w, rs[i].h))
  }

  /** A rectangle as it leaves the packer. */
  ghost function Answered(r: Rect, place: (int, int), gotPlace: bool): Rect {
    r.(x := place.0, y := place.1, wasPacked := if gotPlace then 1 else 0)
  }

  /** The array `out` is `rs` in its own order, each rectangle answered as it fared when the
      rectangles were packed in the order `order`. */
  ghost predicate AllAnswered(st: State, rs: seq<Rect>, order: seq<nat>, out: seq<Rect>) {
    && Permutation(order, |rs|) && |out| == |rs|
    && Inv(st) && Sized(Arranged(Sizes(rs), order))
    && forall k :: 0 <= k < |rs| ==>
         var reqs := Arranged(Sizes(rs), order);
         out[order[k]] == Answered(rs[order[k]], OutcomeAt(st, reqs, k), GotPlace(st, reqs, k))
  }

  ghost function Numbers(n: nat): (s: set<nat>)
    ensures |s| == n && forall i: nat :: i in s <==> i < n
    decreases n
  {
    if n == 0 then {} else Numbers(n - 1) + {n - 1}
  }

  ghost function Image(p: seq<nat>, m: nat): (s: set<nat>)
    requires m <= |p|
    ensures forall v :: v in s <==> exists i :: 0 <= i < m && p[i] == v
    decreases m
  {
    if m == 0 then {} else Image(p, m - 1) + {p[m - 1]}
  }

  lemma {:induction false} ImageSize(p: seq<nat>, n: nat, m: nat)
    requires Permutation(p, n) && m <= n
    ensures |Image(p, m)| == m
    decreases m
  {
    hide Image;
    if m > 0 {
      ImageSize(p, n, m - 1);
      NotBefore(p, n, m - 1);
      ImageStep(p, m);
    } else {
      ImageOfNone(p);
    }
  }

  lemma ImageOfNone(p: seq<nat>)
    ensures Image(p, 0) == {}
  {
  }

  lemma ImageStep(p: seq<nat>, m: nat)
    requires 0 < m <= |p|
    ensures Image(p, m) == Image(p, m - 1) + {p[m - 1]}
  {
  }

  lemma NotBefore(p: seq<nat>, n: nat, m: nat)
    requires Permutation(p, n) && m < n
    ensures p[m] !in Image(p, m)
  {
    hide Image;
  }

  lemma {:induction false} SubsetSize(a: set<nat>, b: set<nat>)
    requires a <= b
    ensures |a| <= |b| && (|a| == |b| ==> a == b)
  {
    assert b == a + (b - a);
  }

  /** A permutation hits every position. */
  lemma {:induction false} Onto(p: seq<nat>, n: nat, a: nat) returns (k: nat)
    requires Permutation(p, n) && a < n
    ensures k < n && p[k] == a
  {
    ImageSize(p, n, n);
    SubsetSize(Image(p, n), Numbers(n));
    assert a in Image(p, n);
    k :| 0 <= k < n && p[k] == a;
  }

  /** What a caller reads off a rectangle: an empty one is at the origin and flagged, one that is not
      flagged is at the far away place, and no other is there. */
  ghost predicate SeenAs(was: Rect, r: Rect) {
    && r.id == was.id && r.w == was.w && r.h == was.h
    && (was.w == 0 || was.h == 0 ==> r.wasPacked == 1 && r.x == 0 && r.y == 0)
    && (r.wasPacked == 0 || r.wasPacked == 1)
    && (r.wasPacked == 0 <==> r.x == 0x7fff_ffff && r.y == 0x7fff_ffff)
  }

  ghost predicate AllSeen(rs: seq<Rect>, out: seq<Rect>) {
    |out| == |rs| && forall k :: 0 <= k < |rs| ==> SeenAs(rs[k], out[k])
  }

  lemma {:induction false} Plainly(st: State, rs: seq<Rect>, order: seq<nat>, out: seq<Rect>)
    requires AllAnswered(st, rs, order, out)
    ensures AllSeen(rs, out)
  {
    hide Inv, OutcomeAt, GotPlace;
    forall a | 0 <= a < |rs| ensures SeenAs(rs[a], out[a]) {
      hide SeenAs;
      var reqs := Arranged(Sizes(rs), order);
      var k := Onto(order, |rs|, a);
      assert out[order[k]] == Answered(rs[order[k]], OutcomeAt(st, reqs, k), GotPlace(st, reqs, k));
      AnswerSeen(st, reqs, k, rs[a]);
    }
  }

  lemma {:induction false} AnswerSeen(st: State, reqs: seq<Request>, k: nat, r: Rect)
    requires Inv(st) && Sized(reqs) && k < |reqs| && reqs[k] == Request(r.w, r.h)
    ensures SeenAs(r, Answered(r, OutcomeAt(st, reqs, k), GotPlace(st, reqs, k)))
  {
    hide Inv, PackAll, Spot;
    MarkIsFailure(st, reqs, k);
  }

  function RectBox(r: Rect): Box { Box(r.x, r.y, r.w, r.h) }

  /** What the caller sees: every rectangle in its old position with its id and size, flagged
      exactly if it is empty or got a place; non-empty flagged ones lie inside the target and
      overlap nothing packed before. */
  lemma {:induction false} CallerSees(st: State, rs: seq<Rect>, order: seq<nat>, out: seq<Rect>, a: nat)
    requires AllAnswered(st, rs, order, out) && a < |rs|
    ensures out[a].id == rs[a].id && out[a].w == rs[a].w && out[a].h == rs[a].h
    ensures exists k ::
      0 <= k < |rs| && order[k] == a && (out[a].wasPacked == 1 <==> GotPlace(st, Arranged(Sizes(rs), order), k))
    ensures out[a].wasPacked == 1 && 0 < rs[a].w && 0 < rs[a].h ==>
      && Inside(RectBox(out[a]), st.width, st.height)
      && forall b :: 0 <= b < |st.boxes| ==> Disjoint(st.boxes[b], RectBox(out[a]))
  {
    hide Inv, OutcomeAt, GotPlace;
    var reqs := Arranged(Sizes(rs), order);
    var k := Onto(order, |rs|, a);
    assert out[order[k]] == Answered(rs[order[k]], OutcomeAt(st, reqs, k), GotPlace(st, reqs, k));
    if out[a].wasPacked == 1 && 0 < rs[a].w && 0 < rs[a].h {
      PackedAreDisjoint(st, reqs, k, k);
    }
  }

  /** No two non-empty rectangles flagged by the same call overlap. */
  lemma {:induction false} FlaggedAreDisjoint(st: State, rs: seq<Rect>, order: seq<nat>, out: seq<Rect>, a: nat, b: nat)
    requires AllAnswered(st, rs, order, out) && a < |rs| && b < |rs| && a != b
    requires out[a].wasPacked == 1 && 0 < rs[a].w && 0 < rs[a].h
    requires out[b].wasPacked == 1 && 0 < rs[b].w && 0 < rs[b].h
    ensures Disjoint(RectBox(out[a]), RectBox(out[b]))
  {
    hide Inv, OutcomeAt, GotPlace;
    var reqs := Arranged(Sizes(rs), order);
    var k := Onto(order, |rs|, a);
    var l := Onto(order, |rs|, b);
    assert out[order[k]] == Answered(rs[order[k]], OutcomeAt(st, reqs, k), GotPlace(st, reqs, k));
    assert out[order[l]] == Answered(rs[order[l]], OutcomeAt(st, reqs, l), GotPlace(st, reqs, l));
    if k < l {
      PackedAreDisjoint(st, reqs, k, l);
    } else {
      PackedAreDisjoint(st, reqs, l, k);
    }
  }

  /** Packs the rectangles, high and wide ones first, and puts them back in the caller's order.
      The result is 1 exactly when all were packed. */
  method PackRects(c: Context, rects: array<Rect>) returns (all: int, ghost order: seq<nat>)
    requires c.Valid() && Sized(Sizes(rects[..]))
    modifies c`activeHead, c`freeHead, c`active, c`spare, c`boxes, c.repr, rects
    ensures c.Valid()
    ensures Packed(old(c.View()), old(rects[..]), order, rects[..], c.View())
    ensures all == if forall k :: 0 <= k < rects.Length ==> rects[k].wasPacked == 1 then 1 else 0
    ensures AllSeen(old(rects[..]), rects[..])
  {
    hide Context.Valid, Context.View, Inv, PackAll, OutcomeAt, GotPlace, Permutation, Arranged, AllAnswered, InOrder, Sizes, Sized, HighAndWideFirst, AllSeen;
    ghost var st, rs := c.View(), rects[..];
    order := PackSorted(c, rects);
    all := Answer(rects, st, rs, order);
    Plainly(st, rs, order, rects[..]);
  }

  /** Puts the rectangles back in the caller's order, and sets their flags. */
  method Answer(rects: array<Rect>, ghost st: State, ghost rs: seq<Rect>, ghost order: seq<nat>) returns (all: int)
    requires AllPlaced(st, rs, order, rects[..])
    modifies rects
    ensures AllAnswered(st, rs, order, rects[..])
    ensures all == if forall k :: 0 <= k < rects.Length ==> rects[k].wasPacked == 1 then 1 else 0
  {
    hide AllPlaced, Permutation, Arranged, AllAnswered, InOrder;
    ghost var placed := rects[..];
    ghost var q := Sort(rects, ByOrigin);
    ghost var unsorted := rects[..];
    all := SetFlags(rects);
    Unsorted(st, rs, order, placed, q, unsorted, rects[..]);
  }

  /** The rectangles `rs` in the order `order`, tagged with their positions and given their places. */
  ghost predicate AllPlaced(st: State, rs: seq<Rect>, order: seq<nat>, placed: seq<Rect>) {
    && Inv(st) && Permutation(order, |rs|) && Sized(Arranged(Sizes(rs), order)) && |placed| == |rs|
    && var reqs := Arranged(Sizes(rs), order);
       forall k :: 0 <= k < |rs| ==>
         placed[k] == rs[order[k]].(wasPacked := order[k], x := OutcomeAt(st, reqs, k).0, y := OutcomeAt(st, reqs, k).1)
  }

  /** No rectangle comes before a higher one, or before a wider one of the same height. */
  ghost predicate HighAndWideFirst(rs: seq<Rect>, order: seq<nat>) {
    && |order| == |rs| && (forall i :: 0 <= i < |order| ==> order[i] < |rs|)
    && forall i, j :: 0 <= i < j < |order| ==>
         var p, q := rs[order[i]], rs[order[j]]; p.h > q.h || (p.h == q.h && p.w >= q.w)
  }

  /** The comparator's order is just that. */
  lemma {:induction false} OrderIsByHeight(rs: seq<Rect>, order: seq<nat>)
    requires |order| == |rs| && forall i :: 0 <= i < |order| ==> order[i] < |rs|
    ensures InOrder(Arranged(rs, order), ByHeight) <==> HighAndWideFirst(rs, order)
  {
    var sorted := Arranged(rs, order);
    if InOrder(sorted, ByHeight) {
      forall i, j | 0 <= i < j < |order|
        ensures var p, q := rs[order[i]], rs[order[j]]; p.h > q.h || (p.h == q.h && p.w >= q.w)
      {
        assert ByHeight.Compare(sorted[i], sorted[j]) <= 0;
      }
    }
  }

  /** The rectangles `rs` were packed in the order `order`, high and wide ones first, which took the
      packer from `st` to `st'`, and `out` has the answers in the caller's order. */
  ghost predicate Packed(st: State, rs: seq<Rect>, order: seq<nat>, out: seq<Rect>, st': State) {
    && AllAnswered(st, rs, order, out)
    && HighAndWideFirst(rs, order)
    && st' == PackAll(st, Arranged(Sizes(rs), order))
  }

  /** Sorts the rectangles for packing, with their positions saved, and gives them their places. */
  method PackSorted(c: Context, rects: array<Rect>) returns (ghost order: seq<nat>)
    requires c.Valid() && Sized(Sizes(rects[..]))
    modifies c`activeHead, c`freeHead, c`active, c`spare, c`boxes, c.repr, rects
    ensures c.Valid() && AllPlaced(old(c.View()), old(rects[..]), order, rects[..])
    ensures HighAndWideFirst(old(rects[..]), order)
    ensures c.View() == PackAll(old(c.View()), Arranged(Sizes(old(rects[..])), order))
  {
    hide Context.Valid, Context.View, Inv, PackAll, OutcomeAt, Permutation, Arranged, InOrder, Sizes, Sized, HighAndWideFirst, AllPlaced, PlacedUpTo;
    ghost var st, rs := c.View(), rects[..];
    TagWithIndex(rects);
    ghost var tagged := rects[..];
    order := Sort(rects, ByHeight);
    ghost var sorted := rects[..];
    SortedSizes(rs, tagged, order, sorted);
    OrderInRange(order, |rs|);
    OrderIsByHeight(rs, order);
    PlaceAll(c, rects, Arranged(Sizes(rs), order));
    TaggedPlaced(st, rs, tagged, order, sorted, rects[..]);
  }

  lemma {:induction false} TaggedPlaced(st: State, rs: seq<Rect>, tagged: seq<Rect>, order: seq<nat>, sorted: seq<Rect>, placed: seq<Rect>)
    requires |tagged| == |rs| && forall k :: 0 <= k < |rs| ==> tagged[k] == rs[k].(wasPacked := k)
    requires Permutation(order, |rs|) && Sized(Arranged(Sizes(rs), order)) && sorted == Arranged(tagged, order)
    requires PlacedUpTo(st, Arranged(Sizes(rs), order), sorted, placed, |rs|)
    ensures AllPlaced(st, rs, order, placed)
  {
    hide Inv, OutcomeAt;
  }

  lemma OrderInRange(order: seq<nat>, n: nat)
    requires Permutation(order, n)
    ensures |order| == n && forall i :: 0 <= i < |order| ==> order[i] < n
  {
  }

  /** Sorting the tagged rectangles arranges the sizes, and orders the original rectangles too. */
  lemma {:induction false} SortedSizes(rs: seq<Rect>, tagged: seq<Rect>, order: seq<nat>, sorted: seq<Rect>)
    requires |tagged| == |rs| && forall k :: 0 <= k < |rs| ==> tagged[k] == rs[k].(wasPacked := k)
    requires Permutation(order, |rs|) && sorted == Arranged(tagged, order) && InOrder(sorted, ByHeight)
    requires Sized(Sizes(rs))
    ensures Sized(Arranged(Sizes(rs), order)) && Arranged(Sizes(rs), order) == Sizes(sorted)
    ensures InOrder(Arranged(rs, order), ByHeight)
  {
    forall i, j | 0 <= i < j < |rs| ensures ByHeight.Compare(Arranged(rs, order)[i], Arranged(rs, order)[j]) <= 0 {
      assert ByHeight.Compare(sorted[i], sorted[j]) <= 0;
    }
  }

  /** Sorting by the saved positions undoes the first sort. */
  lemma {:induction false} UnsortedIndex(order: seq<nat>, placed: seq<Rect>, q: seq<nat>, unsorted: seq<Rect>, k: nat)
    requires Permutation(order, |placed|) && Permutation(q, |placed|) && k < |placed|
    requires forall i :: 0 <= i < |placed| ==> placed[i].wasPacked == order[i]
    requires unsorted == Arranged(placed, q) && InOrder(unsorted, ByOrigin)
    ensures q[order[k]] == k && unsorted[order[k]] == placed[k]
  {
    var n := |placed|;
    var both := Arranged(order, q);
    forall i, j | 0 <= i < j < n ensures both[i] <= both[j] {
      assert ByOrigin.Compare(unsorted[i], unsorted[j]) <= 0;
    }
    IncreasingIsIdentity(both, n, order[k]);
    assert order[q[order[k]]] == order[k];
  }

  lemma {:induction false} Unsorted(st: State, rs: seq<Rect>, order: seq<nat>, placed: seq<Rect>,
                                    q: seq<nat>, unsorted: seq<Rect>, out: seq<Rect>)
    requires AllPlaced(st, rs, order, placed) && |out| == |placed|
    requires Permutation(q, |placed|) && unsorted == Arranged(placed, q) && InOrder(unsorted, ByOrigin)
    requires forall k :: 0 <= k < |placed| ==>
      out[k] == unsorted[k].(wasPacked := if unsorted[k].x == MAXVAL && unsorted[k].y == MAXVAL then 0 else 1)
    ensures AllAnswered(st, rs, order, out)
  {
    hide Inv, PackAll, OutcomeAt, GotPlace, InOrder;
    var reqs := Arranged(Sizes(rs), order);
    forall k | 0 <= k < |rs|
      ensures out[order[k]] == Answered(rs[order[k]], OutcomeAt(st, reqs, k), GotPlace(st, reqs, k))
    {
      UnsortedIndex(order, placed, q, unsorted, k);
      MarkIsFailure(st, reqs, k);
    }
  }

  /** Keeps each rectangle's position in its `wasPacked` field. */
  method TagWithIndex(rects: array<Rect>)
    modifies rects
    ensures forall k :: 0 <= k < rects.Length ==> rects[k] == old(rects[k]).(wasPacked := k)
  {
    for i := 0 to rects.Length
      invariant forall k :: 0 <= k < i ==> rects[k] == old(rects[k]).(wasPacked := k)
      invariant forall k :: i <= k < rects.Length ==> rects[k] == old(rects[k])
    {
      rects[i] := rects[i].(wasPacked := i);
    }
  }

  /** The first `n` rectangles have the places they are to have, the others are as they were. */
  ghost predicate PlacedUpTo(st: State, reqs: seq<Request>, before: seq<Rect>, after: seq<Rect>, n: nat) {
    && Inv(st) && Sized(reqs) && n <= |before| == |after| == |reqs|
    && (forall k :: 0 <= k < n ==>
          after[k] == before[k].(x := OutcomeAt(st, reqs, k).0, y := OutcomeAt(st, reqs, k).1))
    && (forall k :: n <= k < |reqs| ==> after[k] == before[k])
  }

  lemma OneMorePlaced(st: State, reqs: seq<Request>, before: seq<Rect>, after: seq<Rect>, n: nat)
    requires PlacedUpTo(st, reqs, before, after, n) && n < |reqs|
    ensures var (x, y) := OutcomeAt(st, reqs, n); PlacedUpTo(st, reqs, before, after[n := after[n].(x := x, y := y)], n + 1)
  {
  }

  /** Gives each rectangle its place, in the order they are in. */
  method PlaceAll(c: Context, rects: array<Rect>, ghost reqs: seq<Request>)
    requires c.Valid() && Sized(reqs) && reqs == Sizes(rects[..])
    modifies c`activeHead, c`freeHead, c`active, c`spare, c`boxes, c.repr, rects
    ensures c.Valid() && c.View() == PackAll(old(c.View()), reqs)
    ensures PlacedUpTo(old(c.View()), reqs, old(rects[..]), rects[..], rects.Length)
  {
    hide Context.Valid, Context.View, Inv, PackOne, Outcome, OutcomeAt, Sizes;
    ghost var st, before := c.View(), rects[..];
    PackNothing(st);
    var i := 0;
    while i < rects.Length
      invariant 0 <= i <= rects.Length && c.Valid() && c.View() == PackAll(st, reqs[..i])
      invariant PlacedUpTo(st, reqs, before, rects[..], i)
    {
      assert reqs[..i + 1][..i] == reqs[..i];
      OneMorePlaced(st, reqs, before, rects[..], i);
      ThisOutcome(st, reqs, i);
      var x, y := PlaceOne(c, rects[i].w, rects[i].h);
      rects[i] := rects[i].(x := x, y := y);
      i := i + 1;
    }
    assert reqs[..i] == reqs;
  }

  lemma ThisOutcome(st: State, reqs: seq<Request>, i: nat)
    requires Inv(st) && Sized(reqs) && i < |reqs|
    ensures OutcomeAt(st, reqs, i) == Outcome(PackAll(st, reqs[..i]), reqs[i])
  {
  }

  method PlaceOne(c: Context, w: int, h: int) returns (x: int, y: int)
    requires c.Valid() && 0 <= w && 0 <= h
    modifies c`activeHead, c`freeHead, c`active, c`spare, c`boxes, c.repr
    ensures c.Valid() && c.View() == PackOne(old(c.View()), Request(w, h))
    ensures (x, y) == Outcome(old(c.View()), Request(w, h))
  {
    hide Context.Valid, Context.View, Inv, Step, Spot, RestingY;
    if w == 0 || h == 0 {
      x, y := 0, 0;
    } else {
      var found;
      found, x, y := c.PackRectangle(w, h);
      if !found {
        x, y := MAXVAL, MAXVAL;
      }
    }
  }

  /** Sets the flags, and tells whether all are set. */
  method SetFlags(rects: array<Rect>) returns (all: int)
    modifies rects
    ensures forall k :: 0 <= k < rects.Length ==>
      rects[k] == old(rects[k]).(wasPacked := if old(rects[k]).x == MAXVAL && old(rects[k]).y == MAXVAL then 0 else 1)
    ensures all == if forall k :: 0 <= k < rects.Length ==> rects[k].wasPacked == 1 then 1 else 0
  {
    all := 1;
    for i := 0 to rects.Length
      invariant forall k :: 0 <= k < i ==>
        rects[k] == old(rects[k]).(wasPacked := if old(rects[k]).x == MAXVAL && old(rects[k]).y == MAXVAL then 0 else 1)
      invariant forall k :: i <= k < rects.Length ==> rects[k] == old(rects[k])
      invariant all == if forall k :: 0 <= k < i ==> rects[k].wasPacked == 1 then 1 else 0
    {
      rects[i] := rects[i].(wasPacked := if rects[i].x == MAXVAL && rects[i].y == MAXVAL then 0 else 1);
      if rects[i].wasPacked == 0 {
        all := 0;
      }
    }
  }
}
