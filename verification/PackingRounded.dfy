/** When rounded widths make the splice raise columns beside the block.

    With best-fit and a quantum of at least 4, a block one column wide is searched for as if it
    were that wide.  Then its best place can start inside a stretch and end there too, at its real
    width, and the splice raises the rest of the stretch along with it. */
module PackingRounded {
  import opened Basics
  import opened Skyline
  import opened SkylineSearch
  import opened Packing
  import opened PackingSafety
  import opened PackingFloor

  // ----- a run for every quantum of at least 4

  /** Wide enough for the quantum to be `q` with `q` nodes. */
  function Wide(q: nat): int { q * q - q + 1 }

  lemma {:induction false} WideIs(q: nat)
    requires 4 <= q
    ensures q + 8 < Wide(q) && Wide(q) == q + 1 + (q - 2) * q && Quantum(Wide(q), q) == q
  {
    assert q * q == (q - 4) * q + 4 * q && (q - 2) * q == q * q - 2 * q;
    Product(q, q - 4);
    assert (Wide(q) + q - 1) == q * q;
    var d, e := (q * q) / q, (q * q) % q;
    Multiple(q, q);
    assert q * (q - d) == 0;
    SmallMultiple(q, q - d);
  }

  ghost function Quantized(q: nat): (st: State)
    requires 4 <= q
    ensures Inv(st)
  {
    WideIs(q);
    InitInv(Wide(q), 100, q, false, BestFit);
    Init(Wide(q), 100, q, false, BestFit)
  }

  /** Two low steps and a plateau, which together fill the target. */
  ghost function Step1(q: nat): Request { Request(3, 1) }
  ghost function Step2(q: nat): Request { Request(q - 2, 2) }
  ghost function Step3(q: nat): Request { Request((q - 2) * q, 9) }

  lemma {:induction false} StepWidths(q: nat)
    requires 4 <= q
    ensures 0 < (q - 2) * q
    ensures Rounded(3, q) == q && Rounded(q - 2, q) == q && Rounded((q - 2) * q, q) == (q - 2) * q && Rounded(1, q) == q
  {
    Product(q, q - 3);
    assert (q - 2) * q == q * (q - 3) + q;
    Multiple(q - 2, q);
    RoundedIs(3, q, q);
    RoundedIs(q - 2, q, q);
    RoundedIs((q - 2) * q, q, (q - 2) * q);
    RoundedIs(1, q, q);
  }

  ghost predicate Built(st: State, q: nat, sky: Sky, free: int) {
    && Inv(st) && st.width == Wide(q) && st.height == 100 && st.align == q && st.heuristic == BestFit
    && st.sky == sky && st.free == free
  }

  lemma {:induction false} BuildOn(q: nat, reqs: seq<Request>, r: Request, x: int, sky: Sky, free: int)
    requires 4 <= q && Positive(reqs) && Built(After(Quantized(q), reqs), q, sky, free) && 0 < free
    requires |sky| >= 2 && sky[|sky| - 2] == Pt(x, 0)
    requires 0 < r.w && 0 < r.h <= 100 && x + Rounded(r.w, q) <= Wide(q)
    ensures Positive(reqs + [r])
    ensures Built(After(Quantized(q), reqs + [r]), q, OnFloor(sky, x, r, Wide(q)), if x + r.w < Wide(q) then free - 1 else free)
  {
    hide Step, Safe, OnFloor, Wide, ZeroOnlyLast, ToppedBy, Quantized;
    assert (reqs + [r])[..|reqs|] == reqs;
    FloorStep(After(Quantized(q), reqs), r, x);
  }

  ghost function Steps(q: nat): Sky { [Pt(0, 1), Pt(3, 2), Pt(q + 1, 9), Pt(Wide(q), SENTINEL_Y)] }

  lemma {:induction false} StepsAreBuilt(q: nat)
    requires 4 <= q
    ensures Positive([Step1(q), Step2(q), Step3(q)])
    ensures Built(After(Quantized(q), [Step1(q), Step2(q), Step3(q)]), q, Steps(q), q - 2)
  {
    hide Built, Inv, Step, Rounded, Quantized, After;
    WideIs(q);
    StepWidths(q);
    StartsFlat(q);
    var sky0 := [Pt(0, 0), Pt(Wide(q), SENTINEL_Y)];
    BuildOn(q, [], Step1(q), 0, sky0, q);
    var sky1 := OnFloor(sky0, 0, Step1(q), Wide(q));
    assert [] + [Step1(q)] == [Step1(q)] && sky1 == [Pt(0, 1), Pt(3, 0), Pt(Wide(q), SENTINEL_Y)];
    BuildOn(q, [Step1(q)], Step2(q), 3, sky1, q - 1);
    var sky2 := OnFloor(sky1, 3, Step2(q), Wide(q));
    assert [Step1(q)] + [Step2(q)] == [Step1(q), Step2(q)];
    assert sky2 == [Pt(0, 1), Pt(3, 2), Pt(q + 1, 0), Pt(Wide(q), SENTINEL_Y)];
    BuildOn(q, [Step1(q), Step2(q)], Step3(q), q + 1, sky2, q - 2);
    assert [Step1(q), Step2(q)] + [Step3(q)] == [Step1(q), Step2(q), Step3(q)];
    assert OnFloor(sky2, q + 1, Step3(q), Wide(q)) == Steps(q);
  }

  lemma StartsFlat(q: nat)
    requires 4 <= q
    ensures Built(After(Quantized(q), []), q, [Pt(0, 0), Pt(Wide(q), SENTINEL_Y)], q)
  {
    WideIs(q);
  }

  lemma {:induction false} StepsColumn(st: State, q: nat, c: int, free: int)
    requires 4 <= q && Built(st, q, Steps(q), free) && 0 <= c < Wide(q)
    ensures Outline(st)[c] == if c < 3 then 1 else if c < q + 1 then 2 else 9
  {
    ColumnsAt(st.sky, st.width, if c < 3 then 0 else if c < q + 1 then 1 else 2, c);
  }

  /** There a unit square goes to column 1: at column 0 it wastes more, and further right it rests higher. */
  lemma {:induction false} StepsSpot(st: State, q: nat, free: int)
    requires 4 <= q && Built(st, q, Steps(q), free) && 0 < free
    ensures Asks(st, Request(1, 1)) && Spot(st, Request(1, 1)) == Some(1) && RestingY(st, Request(1, 1), 1) == 2
  {
    hide Columns, Peak, Gap, Fits, Spot, Grounded, Wide;
    WideIs(q);
    StepWidths(q);
    var cols := Outline(st);
    forall c | 0 <= c < Wide(q) ensures cols[c] == if c < 3 then 1 else if c < q + 1 then 2 else 9 {
      StepsColumn(st, q, c, free);
    }
    OnSteps(cols, 0, q);
    OnSteps(cols, 1, q);
    forall x | Legal(Wide(q), q, x) ensures NoWorse(st, q, 1, x) {
      if 2 <= x {
        PeakBounds(cols, x, x + q);
        assert cols[x + q - 1] <= Peak(cols, x, x + q);
      }
    }
    SpotIs(st, Request(1, 1), 1);
  }

  lemma {:induction false} OnSteps(cols: Heights, x: int, q: nat)
    requires 4 <= q && 0 <= x <= 1 && q + 1 < |cols|
    requires forall c :: 0 <= c < |cols| ==> cols[c] == if c < 3 then 1 else if c < q + 1 then 2 else 9
    ensures Peak(cols, x, x + q) == 2 && Waste(cols, x, q) == 3 - x
  {
    PeakFlat(cols, x, x, 3, 1);
    PeakFlat(cols, x, 3, x + q, 2);
    GapFlat(cols, x, x, 3, 1, 2);
    GapFlat(cols, x, 3, x + q, 2, 2);
  }

  /** After the steps a unit square raises more than the one column it stands on. */
  lemma {:induction false} PointwiseFails(q: nat)
    requires 4 <= q
    ensures Positive([Step1(q), Step2(q), Step3(q)])
    ensures var st := After(Quantized(q), [Step1(q), Step2(q), Step3(q)]);
      st.align == q && st.heuristic == BestFit && Placing(st, Request(1, 1), 1) && !Pointwise(st, Request(1, 1), 1)
  {
    hide Columns, Raise, Splice, Peak, Best, Fits, After, Quantized;
    StepsAreBuilt(q);
    var st := After(Quantized(q), [Step1(q), Step2(q), Step3(q)]);
    StepsSpot(st, q, q - 2);
    SegUnique(st.sky, 1, 0);
    PointwiseIff(st, Request(1, 1), 1);
  }

  /** Under exactly these configurations every placement raises the columns it stands on and no others. */
  lemma {:induction false} PointwiseExactly(heuristic: Heuristic, align: nat)
    requires 1 <= align
    ensures (forall st, r, x :: Placing(st, r, x) && st.heuristic == heuristic && st.align == align ==> Pointwise(st, r, x))
       <==> heuristic == BottomLeft || align <= 3
  {
    hide Placing, Pointwise;
    if heuristic == BottomLeft || align <= 3 {
      forall st, r, x | Placing(st, r, x) && st.heuristic == heuristic && st.align == align ensures Pointwise(st, r, x) {
        NarrowRoundingIsPointwise(st, r, x);
      }
    } else {
      PointwiseFails(align);
    }
  }
}
