/** Runs of whole calls: arrays are packed one after another into the same target, and the packer
    may be set up anew in between. */
module PackerCalls {
  import opened Packing
  import opened RectPacking
  import opened SkylinePacker

  /** A call, with what it gave back: `Pack` packs `rs` in the order `order` and returns `out`. */
  datatype Call =
    | Pack(rs: seq<Rect>, order: seq<nat>, out: seq<Rect>)
    | SetHeuristic(heuristic: Heuristic)
    | SetOutOfMem(allow: bool)

  ghost predicate Answers(st: State, c: Call) {
    Inv(st) && (c.Pack? ==> AllAnswered(st, c.rs, c.order, c.out))
  }

  ghost function AfterCall(st: State, c: Call): (st': State)
    requires Answers(st, c)
    ensures Inv(st') && st'.width == st.width && st'.height == st.height && st.boxes <= st'.boxes
  {
    match c
    case Pack(rs, order, _) =>
      var reqs := Arranged(Sizes(rs), order);
      assert reqs[..0] == [] && reqs[..|reqs|] == reqs;
      PackNothing(st);
      BoxesGrow(st, reqs, 0);
      PackAll(st, reqs)
    case SetHeuristic(h) => st.(heuristic := h)
    case SetOutOfMem(allow) => st.(align := if allow then 1 else Quantum(st.width, st.nodes))
  }

  /** Each call answers from the state the ones before it left. */
  ghost predicate AllAnswer(st: State, calls: seq<Call>)
    decreases |calls|
  {
    calls == [] || (Answers(st, calls[0]) && AllAnswer(AfterCall(st, calls[0]), calls[1..]))
  }

  ghost function AfterCalls(st: State, calls: seq<Call>): (st': State)
    requires Inv(st) && AllAnswer(st, calls)
    ensures Inv(st') && st'.width == st.width && st'.height == st.height
    decreases |calls|
  {
    if calls == [] then st else AfterCalls(AfterCall(st, calls[0]), calls[1..])
  }

  /** The `a`-th rectangle of the `i`-th call is not empty and was flagged as packed. */
  ghost predicate Flagged(calls: seq<Call>, i: nat, a: nat) {
    && i < |calls| && calls[i].Pack? && a < |calls[i].out| && a < |calls[i].rs|
    && calls[i].out[a].wasPacked == 1 && 0 < calls[i].rs[a].w && 0 < calls[i].rs[a].h
  }

  ghost function BoxOf(calls: seq<Call>, i: nat, a: nat): Box
    requires Flagged(calls, i, a)
  {
    RectBox(calls[i].out[a])
  }

  /** Where a flagged rectangle is, there is one of the packer's boxes. */
  lemma {:induction false} FlaggedIsBox(st: State, rs: seq<Rect>, order: seq<nat>, out: seq<Rect>, a: nat) returns (k: nat)
    requires AllAnswered(st, rs, order, out) && a < |rs| && out[a].wasPacked == 1 && 0 < rs[a].w && 0 < rs[a].h
    ensures var boxes := PackAll(st, Arranged(Sizes(rs), order)).boxes; k < |boxes| && boxes[k] == RectBox(out[a])
  {
    hide Inv, OutcomeAt, GotPlace, PackAll, BoxIndex;
    var reqs := Arranged(Sizes(rs), order);
    var l := Onto(order, |rs|, a);
    assert out[order[l]] == Answered(rs[order[l]], OutcomeAt(st, reqs, l), GotPlace(st, reqs, l));
    PlacedIsBox(st, reqs, l);
    k := BoxIndex(st, reqs, l);
  }

  /** What is flagged later lies inside the target and overlaps none of the boxes there are now. */
  lemma {:induction false} LaterIsApart(st: State, calls: seq<Call>, j: nat, b: nat)
    requires Inv(st) && AllAnswer(st, calls) && Flagged(calls, j, b)
    ensures Inside(BoxOf(calls, j, b), st.width, st.height)
    ensures forall k :: 0 <= k < |st.boxes| ==> Disjoint(st.boxes[k], BoxOf(calls, j, b))
    decreases |calls|
  {
    hide Inv, AllAnswered, AfterCall;
    if j == 0 {
      CallerSees(st, calls[0].rs, calls[0].order, calls[0].out, b);
    } else {
      LaterIsApart(AfterCall(st, calls[0]), calls[1..], j - 1, b);
    }
  }

  /** Over any run of calls no two flagged rectangles overlap, be they from the same call or from
      different ones. */
  lemma {:induction false} FlaggedAreApart(st: State, calls: seq<Call>, i: nat, a: nat, j: nat, b: nat)
    requires Inv(st) && AllAnswer(st, calls) && Flagged(calls, i, a) && Flagged(calls, j, b)
    requires i < j || (i == j && a != b)
    ensures Disjoint(BoxOf(calls, i, a), BoxOf(calls, j, b))
    decreases |calls|
  {
    hide Inv, AllAnswered, PackAll;
    var c := calls[0];
    if i > 0 {
      FlaggedAreApart(AfterCall(st, c), calls[1..], i - 1, a, j - 1, b);
    } else if j > 0 {
      var k := FlaggedIsBox(st, c.rs, c.order, c.out, a);
      LaterIsApart(AfterCall(st, c), calls[1..], j - 1, b);
      assert Disjoint(AfterCall(st, c).boxes[k], BoxOf(calls, j, b));
    } else {
      FlaggedAreDisjoint(st, c.rs, c.order, c.out, a, b);
    }
  }

  /** From a fresh target on, whatever is packed and however the packer is set up in between: all
      flagged rectangles are inside, and any two of them are apart. */
  lemma {:induction false} CallsAreSafe(width: nat, height: nat, nodes: nat, calls: seq<Call>)
    requires 1 <= width && 1 <= height < SENTINEL_Y && 1 <= nodes
    requires AllAnswer(Init(width, height, nodes, false, BottomLeft), calls)
    ensures forall i: nat, a: nat :: Flagged(calls, i, a) ==> Inside(BoxOf(calls, i, a), width, height)
    ensures forall i: nat, a: nat, j: nat, b: nat ::
      Flagged(calls, i, a) && Flagged(calls, j, b) && (i < j || (i == j && a != b))
      ==> Disjoint(BoxOf(calls, i, a), BoxOf(calls, j, b))
  {
    var st := Init(width, height, nodes, false, BottomLeft);
    InitInv(width, height, nodes, false, BottomLeft);
    hide AllAnswer, Flagged, BoxOf, Init, Inv, Disjoint, Inside;
    assert st.width == width && st.height == height by { InitSize(width, height, nodes); }
    forall i: nat, a: nat | Flagged(calls, i, a) ensures Inside(BoxOf(calls, i, a), width, height) {
      LaterIsApart(st, calls, i, a);
    }
    forall i: nat, a: nat, j: nat, b: nat | Flagged(calls, i, a) && Flagged(calls, j, b) && (i < j || (i == j && a != b))
      ensures Disjoint(BoxOf(calls, i, a), BoxOf(calls, j, b))
    {
      FlaggedAreApart(st, calls, i, a, j, b);
    }
  }

  lemma InitSize(width: nat, height: nat, nodes: nat)
    requires 1 <= width && 1 <= nodes
    ensures var st := Init(width, height, nodes, false, BottomLeft); st.width == width && st.height == height
  {
  }

  // ----- the calls on the heap

  datatype Job = PackJob(rects: array<Rect>) | HeuristicJob(heuristic: Heuristic) | OutOfMemJob(allow: bool)

  /** All arrays to be packed hold rectangles of no negative size. */
  ghost predicate JobsSized(jobs: seq<Job>)
    reads set i | 0 <= i < |jobs| && jobs[i].PackJob? :: jobs[i].rects
  {
    forall i :: 0 <= i < |jobs| && jobs[i].PackJob? ==> Sized(Sizes(jobs[i].rects[..]))
  }

  /** The call is one for the job. */
  ghost predicate IsFor(c: Call, job: Job) {
    match job
    case PackJob(rects) => c.Pack? && |c.rs| == rects.Length
    case HeuristicJob(h) => c == SetHeuristic(h)
    case OutOfMemJob(allow) => c == SetOutOfMem(allow)
  }

  /** No job from `lo` to `hi` packs the array the `i`-th job packs. */
  ghost predicate Untouched(jobs: seq<Job>, i: nat, lo: nat, hi: nat)
    requires i < |jobs| && jobs[i].PackJob? && hi <= |jobs|
  {
    forall j :: lo <= j < hi && jobs[j].PackJob? ==> jobs[j].rects != jobs[i].rects
  }

  /** What the arrays to be packed hold. */
  ghost function Contents(jobs: seq<Job>): (r: seq<seq<Rect>>)
    reads set i | 0 <= i < |jobs| && jobs[i].PackJob? :: jobs[i].rects
    ensures |r| == |jobs| && forall i :: 0 <= i < |jobs| && jobs[i].PackJob? ==> r[i] == jobs[i].rects[..]
  {
    seq(|jobs|, i requires 0 <= i < |jobs| reads set k | 0 <= k < |jobs| && jobs[k].PackJob? :: jobs[k].rects =>
      if jobs[i].PackJob? then jobs[i].rects[..] else [])
  }

  /** The calls are for the first jobs, which took the arrays from `before` to `now`: each packed what
      its array held at first, unless an earlier one packed the same array, and the array holds what
      it gave back, unless a later one did.  The other arrays are as they were. */
  ghost predicate Matches(jobs: seq<Job>, before: seq<seq<Rect>>, now: seq<seq<Rect>>, calls: seq<Call>) {
    && |before| == |now| == |jobs| && |calls| <= |jobs|
    && (forall i: nat :: i < |calls| ==> IsFor(calls[i], jobs[i]))
    && (forall i: nat :: i < |calls| && jobs[i].PackJob? && Untouched(jobs, i, 0, i) ==> calls[i].rs == before[i])
    && (forall i: nat :: i < |calls| && jobs[i].PackJob? && Untouched(jobs, i, i + 1, |calls|) ==> calls[i].out == now[i])
    && (forall i: nat :: |calls| <= i < |jobs| && jobs[i].PackJob? && Untouched(jobs, i, 0, |calls|) ==> now[i] == before[i])
  }

  lemma {:induction false} OneMoreMatches(jobs: seq<Job>, before: seq<seq<Rect>>, now: seq<seq<Rect>>, calls: seq<Call>,
                                          call: Call, later: seq<seq<Rect>>)
    requires Matches(jobs, before, now, calls) && |calls| < |jobs| && |later| == |jobs|
    requires var n := |calls|;
      && IsFor(call, jobs[n]) && (jobs[n].PackJob? ==> call.rs == now[n] && call.out == later[n])
      && forall i :: 0 <= i < |jobs| && jobs[i].PackJob? && !(jobs[n].PackJob? && jobs[n].rects == jobs[i].rects) ==> later[i] == now[i]
    ensures Matches(jobs, before, later, calls + [call])
  {
    var n, more := |calls|, calls + [call];
    forall i: nat | i < |more| && jobs[i].PackJob? && Untouched(jobs, i, i + 1, |more|) ensures more[i].out == later[i] {
      if i < n { assert Untouched(jobs, i, i + 1, n); }
    }
    forall i: nat | |more| <= i < |jobs| && jobs[i].PackJob? && Untouched(jobs, i, 0, |more|) ensures later[i] == before[i] {
      assert Untouched(jobs, i, 0, n);
    }
  }

  /** Does jobs one after another.  The calls that come of it answer as the theorems above say, and
      match what the arrays held before and hold now. */
  method DoAll(c: Context, jobs: seq<Job>) returns (ghost calls: seq<Call>)
    requires c.Valid() && JobsSized(jobs)
    modifies c, c.repr, set i | 0 <= i < |jobs| && jobs[i].PackJob? :: jobs[i].rects
    ensures c.Valid() && AllAnswer(old(c.View()), calls) && c.View() == AfterCalls(old(c.View()), calls)
    ensures |calls| == |jobs| && Matches(jobs, old(Contents(jobs)), Contents(jobs), calls)
  {
    hide Inv, Context.View, Context.Valid, AllAnswer, AfterCalls, Answers, AfterCall, Sized, Sizes, AllAnswered, Matches, IsFor;
    ghost var st, before := c.View(), Contents(jobs);
    calls := [];
    NoCalls(st);
    NoneMatches(jobs, before);
    for n := 0 to |jobs|
      invariant c.Valid() && c.repr == old(c.repr) && JobsSized(jobs) && Inv(st) && |calls| == n
      invariant AllAnswer(st, calls) && c.View() == AfterCalls(st, calls)
      invariant Matches(jobs, before, Contents(jobs), calls)
    {
      ghost var now := Contents(jobs);
      ghost var call := DoOne(c, jobs, n);
      OneMore(st, calls, call);
      OneMoreMatches(jobs, before, now, calls, call, Contents(jobs));
      calls := calls + [call];
    }
  }

  lemma NoneMatches(jobs: seq<Job>, now: seq<seq<Rect>>)
    requires |now| == |jobs|
    ensures Matches(jobs, now, now, [])
  {
  }

  method DoOne(c: Context, jobs: seq<Job>, n: nat) returns (ghost call: Call)
    requires c.Valid() && n < |jobs| && JobsSized(jobs)
    modifies c`activeHead, c`freeHead, c`active, c`spare, c`boxes, c`heuristic, c`align, c.repr
    modifies if jobs[n].PackJob? then {jobs[n].rects} else {}
    ensures c.Valid() && JobsSized(jobs) && IsFor(call, jobs[n])
    ensures jobs[n].PackJob? ==> call.rs == old(jobs[n].rects[..]) && call.out == jobs[n].rects[..]
    ensures Answers(old(c.View()), call) && c.View() == AfterCall(old(c.View()), call)
  {
    hide Inv, AllAnswered, Sized, Sizes, Arranged, PackAll;
    ViewInv(c);
    match jobs[n]
    case PackJob(rects) => call := DoPack(c, jobs, n);
    case HeuristicJob(h) =>
      c.SetupHeuristic(h);
      call := SetHeuristic(h);
    case OutOfMemJob(allow) =>
      c.SetupAllowOutOfMem(allow);
      call := SetOutOfMem(allow);
  }

  method DoPack(c: Context, jobs: seq<Job>, n: nat) returns (ghost call: Call)
    requires c.Valid() && n < |jobs| && JobsSized(jobs) && jobs[n].PackJob?
    modifies c`activeHead, c`freeHead, c`active, c`spare, c`boxes, c.repr, jobs[n].rects
    ensures c.Valid() && JobsSized(jobs) && IsFor(call, jobs[n])
    ensures call.rs == old(jobs[n].rects[..]) && call.out == jobs[n].rects[..]
    ensures Answers(old(c.View()), call) && c.View() == AfterCall(old(c.View()), call)
  {
    hide Inv, Context.View, Context.Valid, AllAnswered, Sized, Sizes, Arranged, PackAll, InOrder;
    var rects := jobs[n].rects;
    ghost var st, rs := c.View(), rects[..];
    ViewInv(c);
    ghost var order;
    var all;
    all, order := PackRects(c, rects);
    call := Pack(rs, order, rects[..]);
    StillSized(st, rs, order, rects[..]);
    assert |rs| == rects.Length;
    forall i | 0 <= i < |jobs| && jobs[i].PackJob? ensures Sized(Sizes(jobs[i].rects[..])) {
      assert jobs[i].rects != rects ==> jobs[i].rects[..] == old(jobs[i].rects[..]);
    }
  }

  /** The `a`-th rectangle of the `i`-th job's array, which no later job packs again, is not empty and
      flagged as packed. */
  ghost predicate StillFlagged(jobs: seq<Job>, i: nat, a: nat)
    reads set i | 0 <= i < |jobs| && jobs[i].PackJob? :: jobs[i].rects
  {
    && i < |jobs| && jobs[i].PackJob? && Untouched(jobs, i, i + 1, |jobs|) && a < jobs[i].rects.Length
    && jobs[i].rects[a].wasPacked == 1 && 0 < jobs[i].rects[a].w && 0 < jobs[i].rects[a].h
  }

  /** A fresh target, and jobs done on it: in the end all flagged rectangles in the arrays lie inside
      the target, and no two of them overlap. */
  method PackInto(width: int, height: int, nodes: seq<Node>, jobs: seq<Job>) returns (c: Context)
    requires 1 <= width && 1 <= height < SENTINEL_Y && |nodes| >= 1 && Distinct(nodes) && JobsSized(jobs)
    modifies nodes, set i | 0 <= i < |jobs| && jobs[i].PackJob? :: jobs[i].rects
    ensures forall i: nat, a: nat :: StillFlagged(jobs, i, a) ==> Inside(RectBox(jobs[i].rects[a]), width, height)
    ensures forall i: nat, a: nat, j: nat, b: nat ::
      StillFlagged(jobs, i, a) && StillFlagged(jobs, j, b) && (i < j || (i == j && a != b))
      ==> Disjoint(RectBox(jobs[i].rects[a]), RectBox(jobs[j].rects[b]))
  {
    hide Context.Valid, Context.View, Inv, AllAnswer, AfterCalls, Init, Inside, Disjoint, Sized, Sizes;
    c := new Context.InitTarget(width, height, nodes);
    ghost var calls := DoAll(c, jobs);
    CallsAreSafe(width, height, |nodes|, calls);
    InitInv(width, height, |nodes|, false, BottomLeft);
    forall i: nat, a: nat | StillFlagged(jobs, i, a)
      ensures Flagged(calls, i, a) && RectBox(jobs[i].rects[a]) == BoxOf(calls, i, a)
    {
      SameSizes(Init(width, height, |nodes|, false, BottomLeft), calls, i, a);
    }
  }

  /** What a call gives back has the sizes of what it was given. */
  lemma {:induction false} SameSizes(st: State, calls: seq<Call>, i: nat, a: nat)
    requires Inv(st) && AllAnswer(st, calls) && i < |calls| && calls[i].Pack? && a < |calls[i].rs|
    ensures |calls[i].out| == |calls[i].rs|
    ensures calls[i].out[a].w == calls[i].rs[a].w && calls[i].out[a].h == calls[i].rs[a].h
    decreases |calls|
  {
    hide Inv, AfterCall;
    if i == 0 {
      CallerSees(st, calls[0].rs, calls[0].order, calls[0].out, a);
    } else {
      SameSizes(AfterCall(st, calls[0]), calls[1..], i - 1, a);
    }
  }

  lemma ViewInv(c: Context)
    requires c.Valid()
    ensures Inv(c.View())
  {
  }

  lemma NoCalls(st: State)
    requires Inv(st)
    ensures AllAnswer(st, []) && AfterCalls(st, []) == st
  {
  }

  lemma {:induction false} OneMore(st: State, calls: seq<Call>, c: Call)
    requires Inv(st) && AllAnswer(st, calls) && Answers(AfterCalls(st, calls), c)
    ensures AllAnswer(st, calls + [c]) && AfterCalls(st, calls + [c]) == AfterCall(AfterCalls(st, calls), c)
    decreases |calls|
  {
    hide Inv, Answers, AfterCall;
    if calls == [] {
      assert ([] + [c])[1..] == [];
    } else {
      OneMore(AfterCall(st, calls[0]), calls[1..], c);
      assert (calls + [c])[1..] == calls[1..] + [c];
    }
  }

  /** Packing changes no sizes. */
  lemma {:induction false} StillSized(st: State, rs: seq<Rect>, order: seq<nat>, out: seq<Rect>)
    requires AllAnswered(st, rs, order, out) && Sized(Sizes(rs))
    ensures Sized(Sizes(out))
  {
    forall a: nat | a < |rs| ensures out[a].w == rs[a].w && out[a].h == rs[a].h {
      CallerSees(st, rs, order, out, a);
    }
  }
}
