/** Whole runs of edits, undos and redos. */
module UndoRuns {
  import opened Edits
  import opened UndoArena
  import opened UndoHistory
  import opened UndoRedo

  // ----- the history in edits

  /** The edits undo has at hand (newest last), the text, and those redo has (next first). */
  datatype History = History(undos: seq<Edit>, text: Text, redos: seq<Edit>)

  ghost predicate CanUndo(h: History) {
    h.undos != [] && FitsIn(h.undos[|h.undos| - 1], h.text)
  }

  ghost predicate CanRedo(h: History) {
    h.redos != [] && FitsIn(h.redos[0], h.text)
  }

  ghost function UndoOnce(h: History): History
    requires CanUndo(h)
  {
    var e := h.undos[|h.undos| - 1];
    History(h.undos[..|h.undos| - 1], Apply(e, h.text), [Inverse(e, h.text)] + h.redos)
  }

  ghost function RedoOnce(h: History): History
    requires CanRedo(h)
  {
    var e := h.redos[0];
    History(h.undos + [Inverse(e, h.text)], Apply(e, h.text), h.redos[1..])
  }

  lemma {:induction false} RedoUndoesUndo(h: History)
    requires CanUndo(h)
    ensures CanRedo(UndoOnce(h)) && RedoOnce(UndoOnce(h)) == h
  {
    var e := h.undos[|h.undos| - 1];
    InverseTakesBack(e, h.text, Apply(e, h.text));
    assert ([Inverse(e, h.text)] + h.redos)[1..] == h.redos;
    assert h.undos[..|h.undos| - 1] + [e] == h.undos;
  }

  /** What the buffer stands for, beside a text. */
  ghost function Meaning(a: Arena, text: Text): History
    requires |a.recs| == STATES && 0 <= a.undoPoint <= a.redoPoint <= STATES
  {
    History(UndoEdits(a), text, RedoEdits(a))
  }

  /** Fitting undos are exact. */
  lemma {:induction false} UndoMeaning(a: Arena, past: seq<Text>, text: Text)
    requires LeadsBack(a, past, text) && NoneBelow(a) && 0 < a.undoPoint && UndoFits(a)
    ensures UndoWorks(a) && Ready(a.recs[a.undoPoint - 1], text) && CanUndo(Meaning(a, text))
    ensures Meaning(Undo(a, text).arena, Undo(a, text).text) == UndoOnce(Meaning(a, text))
  {
    hide Undo, Off, Tail, Kept, CanKeep;
    FitsWorks(a);
    UndoExactIff(a, past, text);
    UndoLeadsBack(a, past, text);
    TopIsReady(a, past, text);
  }

  /** Redos are exact without any condition. */
  lemma {:induction false} RedoMeaning(a: Arena, past: seq<Text>, text: Text, future: seq<Text>)
    requires LeadsBack(a, past, text) && LeadsOn(a, text, future) && a.redoPoint < STATES
    ensures Ready(a.recs[a.redoPoint], text) && CanRedo(Meaning(a, text))
    ensures var b := Redo(a, text).arena; |b.recs| == STATES && 0 <= b.undoPoint <= b.redoPoint <= STATES
    ensures Meaning(Redo(a, text).arena, Redo(a, text).text) == RedoOnce(Meaning(a, text))
  {
    hide Redo, Off, Tail, Kept, RoomToRedo, Dels, KeptAt, EditAt, UndoEdits, RedoEdits, FrontTaken;
    RedoLeads(a, past, text, future);
    RedoMoves(a, text, future);
    NextIsReady(a, text, future);
    RedoneEdits(a, Redo(a, text).arena, Redo(a, text).arena.recs[a.undoPoint],
                text[a.recs[a.redoPoint].where..a.recs[a.redoPoint].where + a.recs[a.redoPoint].deleteLength]);
  }

  /** One record more on the undo side, and one fewer on the redo side. */
  lemma {:induction false} RedoneEdits(a: Arena, b: Arena, u: Rec, saved: Text)
    requires UndoTiled(a) && RedoTiled(a) && FrontTaken(a, b) && Pushed(a, b, u, saved)
    ensures UndoEdits(b) == UndoEdits(a) + [Edit(u.where, saved, u.deleteLength)]
    ensures RedoEdits(b) == RedoEdits(a)[1..]
  {
    hide Off, Tail, Kept, KeptAt, EditAt;
    TakenTiled(a, b);
    PushedTiled(a, b, u, saved);
    forall i: nat | i < a.undoPoint ensures EditAt(b, i) == EditAt(a, i) {
      PushedEdit(a, b, u, saved, i);
    }
  }

  // ----- n undos, n redos

  ghost function InsSum(es: seq<Edit>): int
    decreases |es|
  {
    if es == [] then 0 else InsSum(es[..|es| - 1]) + |es[|es| - 1].ins|
  }

  /** The character points follow from the edits. */
  lemma {:induction false} UndoCharsFromEdits(a: Arena, n: nat)
    requires UndoTiled(a) && n <= a.undoPoint
    ensures Off(a.recs, n) == InsSum(UndoEdits(a)[..n])
    decreases n
  {
    if 0 < n {
      UndoCharsFromEdits(a, n - 1);
      UndoKept(a, n - 1);
      assert UndoEdits(a)[..n][..n - 1] == UndoEdits(a)[..n - 1];
    }
  }

  lemma {:induction false} RedoCharsFromEdits(a: Arena, n: nat)
    requires RedoTiled(a) && n <= STATES - a.redoPoint
    ensures Tail(a.recs, a.redoPoint) == InsSum(RedoEdits(a)[..n]) + Tail(a.recs, a.redoPoint + n)
    decreases n
  {
    if 0 < n {
      RedoCharsFromEdits(a, n - 1);
      RedoKept(a, a.redoPoint + n - 1);
      assert RedoEdits(a)[..n][..n - 1] == RedoEdits(a)[..n - 1];
    }
  }

  /** Buffers that mean the same history have all four points in the same place. */
  lemma {:induction false} PointsFromMeaning(a: Arena, b: Arena, text: Text)
    requires UndoTiled(a) && RedoTiled(a) && UndoTiled(b) && RedoTiled(b)
    requires Meaning(a, text) == Meaning(b, text)
    ensures a.undoPoint == b.undoPoint && a.redoPoint == b.redoPoint
    ensures a.undoCharPoint == b.undoCharPoint && a.redoCharPoint == b.redoCharPoint
  {
    UndoCharsFromEdits(a, a.undoPoint);
    UndoCharsFromEdits(b, b.undoPoint);
    RedoCharsFromEdits(a, STATES - a.redoPoint);
    RedoCharsFromEdits(b, STATES - b.redoPoint);
    assert |UndoEdits(a)| == |UndoEdits(b)| && |RedoEdits(a)| == |RedoEdits(b)|;
    assert UndoEdits(a)[..a.undoPoint] == UndoEdits(a) && RedoEdits(a)[..STATES - a.redoPoint] == RedoEdits(a);
    assert UndoEdits(b)[..b.undoPoint] == UndoEdits(b) && RedoEdits(b)[..STATES - b.redoPoint] == RedoEdits(b);
  }

  // ----- runs

  datatype Op = Replace(e: Edit) | UndoOp | RedoOp

  /** A buffer beside its text.  `exact` tells that the redo side leads on through the future; an
      undo without room costs that, an edit restores it. */
  datatype Session = Session(arena: Arena, text: Text, exact: bool)

  /** The session has come to the present text of `z`, can go back as far as its undo records
      reach, and on through all of the future if it is exact. */
  ghost predicate Tracks(s: Session, z: Zipper) {
    && s.text == z.text && s.arena.undoPoint <= |z.past| && RedoFormed(s.arena) && SlotFree(s.arena)
    && LeadsBack(s.arena, Latest(z.past, s.arena.undoPoint), s.text)
    && (s.exact ==> LeadsOn(s.arena, s.text, z.future))
  }

  /** Edits must lie in the text; undo must not leave the array, and redo must find a record it can
      carry out. */
  ghost predicate Permitted(s: Session, op: Op) {
    match op
    case Replace(e) => FitsIn(e, s.text)
    case UndoOp => UndoEnds(s.arena)
    case RedoOp => RedoWorks(s.arena, s.text)
  }

  /** The history moves as an editor's user expects; undo stops where the records end, or when it
      gives up.  Redo that is no longer exact makes a text of its own, with no future. */
  ghost function Moved(s: Session, z: Zipper, op: Op): Zipper
    requires Tracks(s, z) && Permitted(s, op)
  {
    match op
    case Replace(e) => Zipper(z.past + [z.text], Apply(e, z.text), [])
    case UndoOp => if s.arena.undoPoint == 0 || !UndoWorks(s.arena) then z else z.Undo()
    case RedoOp =>
      if s.exact then z.Redo()
      else if s.arena.redoPoint == STATES then z
      else Zipper(z.past + [z.text], Redo(s.arena, s.text).text, [])
  }

  /** What the engine does. */
  ghost function Next(s: Session, z: Zipper, op: Op): (s': Session)
    requires Tracks(s, z) && Permitted(s, op)
  {
    var a := s.arena;
    match op
    case Replace(e) =>
      Session(Recorded(a, e.where, s.text[e.where..e.where + e.del], |e.ins|), Apply(e, s.text), true)
    case UndoOp =>
      if a.undoPoint == 0 then s
      else
        TopIsReady(a, Latest(z.past, a.undoPoint), s.text);
        if UndoWorks(a) then
          var r := Undo(a, s.text);
          Session(r.arena, r.text, s.exact && UndoFits(a))
        else
          UndoneIff(a, s.text);
          Session(UndoOutcome(a, s.text).arena, s.text, false)
    case RedoOp =>
      if a.redoPoint == STATES then s
      else
        var r := Redo(a, s.text);
        Session(r.arena, r.text, s.exact)
  }

  /** While the redo side is exact nothing can go wrong. */
  lemma {:induction false} ExactWorks(s: Session, z: Zipper)
    requires Tracks(s, z) && s.exact
    ensures UndoWorks(s.arena) && RedoWorks(s.arena, s.text)
  {
    hide Takes, Off, CanKeep;
    TiledWorks(s.arena);
    if s.arena.redoPoint < STATES {
      NextIsReady(s.arena, s.text, z.future);
      RedoKept(s.arena, s.arena.redoPoint);
    }
  }

  /** The newest `n` texts of the past. */
  ghost function Latest(past: seq<Text>, n: int): seq<Text>
    requires 0 <= n <= |past|
  {
    past[|past| - n..]
  }

  lemma LatestAppend(past: seq<Text>, text: Text, n: int, m: int)
    requires 0 <= n <= |past| && 0 <= m <= n + 1
    ensures Latest(Latest(past, n) + [text], m) == Latest(past + [text], m)
  {
  }

  lemma {:induction false} ReplaceTracks(s: Session, z: Zipper, e: Edit)
    requires Tracks(s, z) && FitsIn(e, s.text)
    ensures Tracks(Next(s, z, Replace(e)), Moved(s, z, Replace(e)))
  {
    hide LeadsOn, Recorded, Latest, UndoTiled, RedoFormed, Apply;
    RecordedTracks(s.arena, z, e);
  }

  lemma {:induction false} RecordedTracks(a: Arena, z: Zipper, e: Edit)
    requires 0 <= a.undoPoint <= |z.past| && LeadsBack(a, Latest(z.past, a.undoPoint), z.text) && FitsIn(e, z.text)
    ensures UndoTiled(a)
    ensures Tracks(Session(Recorded(a, e.where, z.text[e.where..e.where + e.del], |e.ins|), Apply(e, z.text), true),
                   Zipper(z.past + [z.text], Apply(e, z.text), []))
  {
    var past := Latest(z.past, a.undoPoint);
    PastIsTiled(a, past, z.text);
    hide LeadsBack, LeadsOn, Apply, UndoTiled, RedoTiled, Recorded, Remembered, FitsIn, InBounds, Latest;
    RecordedLeads(a, past, z.text, e);
    var b := Recorded(a, e.where, z.text[e.where..e.where + e.del], |e.ins|);
    PastIsTiled(b, Remembered(a, past, z.text, e.del), Apply(e, z.text));
    OnIsTiled(b, Apply(e, z.text), []);
    TiledIsFormed(b);
    RememberedIsLatest(a, past, z.text, e.del);
    LatestAppend(z.past, z.text, a.undoPoint, b.undoPoint);
  }

  lemma OnIsTiled(a: Arena, text: Text, future: seq<Text>)
    requires LeadsOn(a, text, future)
    ensures RedoTiled(a) && InBounds(a) && |future| == STATES - a.redoPoint
  {
  }

  /** What is remembered are the newest texts there are. */
  lemma {:induction false} RememberedIsLatest(a: Arena, past: seq<Text>, text: Text, n: int)
    requires LeadsBack(a, past, text) && 0 <= n
    ensures var r := Remembered(a, past, text, n); |r| <= |past| + 1 && r == Latest(past + [text], |r|)
  {
    hide Cleared, LeadsBack, Off;
    ClearedLosesOldest(a, past, text, n);
    PastIsTiled(a, past, text);
    PastIsTiled(Cleared(a, n), past[|past| - Cleared(a, n).undoPoint..], text);
  }

  lemma LatestButLast(past: seq<Text>, n: int)
    requires 0 < n <= |past|
    ensures Latest(past, n)[..n - 1] == Latest(past[..|past| - 1], n - 1)
    ensures Latest(past, n)[n - 1] == past[|past| - 1]
  {
  }

  lemma {:induction false} UndoTracks(s: Session, z: Zipper)
    requires Tracks(s, z) && UndoEnds(s.arena)
    ensures Tracks(Next(s, z, UndoOp), Moved(s, z, UndoOp))
  {
    hide LeadsBack, LeadsOn, Latest, RedoFormed, SlotFree;
    if 0 < s.arena.undoPoint {
      if UndoWorks(s.arena) { UndoneTracks(s, z); } else { GivenUpTracks(s, z); }
    }
  }

  lemma {:induction false} GivenUpTracks(s: Session, z: Zipper)
    requires Tracks(s, z) && UndoGivesUp(s.arena)
    ensures 0 < s.arena.undoPoint && Ready(s.arena.recs[s.arena.undoPoint - 1], s.text)
    ensures var o := UndoOutcome(s.arena, s.text);
      && o.GivenUp? && Tracks(Session(o.arena, s.text, false), z)
      && o.arena.undoPoint == s.arena.undoPoint && o.arena.redoPoint == STATES && UndoGivesUp(o.arena)
  {
    hide UndoOutcome, UndoGivesUp;
    var past := Latest(z.past, s.arena.undoPoint);
    GivenUpKeepsPast(s.arena, past, s.text);
    PastIsTiled(s.arena, past, s.text);
    PastIsTiled(UndoOutcome(s.arena, s.text).arena, past, s.text);
  }

  lemma {:induction false} UndoneTracks(s: Session, z: Zipper)
    requires Tracks(s, z) && UndoWorks(s.arena) && 0 < s.arena.undoPoint
    ensures Ready(s.arena.recs[s.arena.undoPoint - 1], s.text)
    ensures var r := Undo(s.arena, s.text); Tracks(Session(r.arena, r.text, s.exact && UndoFits(s.arena)), z.Undo())
  {
    var a := s.arena;
    PastIsTiled(a, Latest(z.past, a.undoPoint), s.text);
    hide LeadsBack, LeadsOn, UndoTiled, Undo, InBounds, Latest, UndoFits, Ready, Zipper.Undo, UndoWorks, RedoFormed, SlotFree;
    UndoneLeadsBack(a, z);
    UndoKeepsSlotFree(a, Latest(z.past, a.undoPoint), s.text);
    if s.exact && UndoFits(a) { UndoneLeadsOn(a, z); }
  }

  lemma {:induction false} UndoneLeadsBack(a: Arena, z: Zipper)
    requires 0 < a.undoPoint <= |z.past| && LeadsBack(a, Latest(z.past, a.undoPoint), z.text) && UndoWorks(a)
    ensures Ready(a.recs[a.undoPoint - 1], z.text)
    ensures var r, y := Undo(a, z.text), z.Undo();
      && RedoFormed(r.arena) && r.arena.undoPoint <= |y.past| && r.text == y.text
      && LeadsBack(r.arena, Latest(y.past, r.arena.undoPoint), r.text)
  {
    hide Undo, LeadsBack, UndoWorks;
    UndoLeadsBack(a, Latest(z.past, a.undoPoint), z.text);
    LatestButLast(z.past, a.undoPoint);
    PastIsTiled(Undo(a, z.text).arena, Latest(z.past, a.undoPoint)[..a.undoPoint - 1], Undo(a, z.text).text);
  }

  lemma {:induction false} UndoneLeadsOn(a: Arena, z: Zipper)
    requires 0 < a.undoPoint <= |z.past| && LeadsBack(a, Latest(z.past, a.undoPoint), z.text)
    requires LeadsOn(a, z.text, z.future) && UndoFits(a)
    ensures UndoWorks(a) && Ready(a.recs[a.undoPoint - 1], z.text)
    ensures LeadsOn(Undo(a, z.text).arena, Undo(a, z.text).text, z.Undo().future)
  {
    hide Undo, LeadsBack, LeadsOn, Latest, UndoFits, UndoWorks;
    UndoLeadsOn(a, Latest(z.past, a.undoPoint), z.text, z.future);
  }

  lemma {:induction false} RedoTracks(s: Session, z: Zipper)
    requires Tracks(s, z) && RedoWorks(s.arena, s.text)
    ensures Tracks(Next(s, z, RedoOp), Moved(s, z, RedoOp))
  {
    if s.exact { OnIsTiled(s.arena, s.text, z.future); }
    if s.arena.redoPoint < STATES {
      if s.exact { RedoneTracks(s, z); } else { RedoneAnywhere(s, z); }
    }
  }

  lemma {:induction false} RedoneTracks(s: Session, z: Zipper)
    requires Tracks(s, z) && s.exact && s.arena.redoPoint < STATES
    ensures Ready(s.arena.recs[s.arena.redoPoint], s.text) && z.future != []
    ensures var r := Redo(s.arena, s.text); Tracks(Session(r.arena, r.text, true), z.Redo())
  {
    var a, past := s.arena, Latest(z.past, s.arena.undoPoint);
    PastIsTiled(a, past, s.text);
    OnIsTiled(a, s.text, z.future);
    hide LeadsBack, LeadsOn, UndoTiled, RedoTiled, Redo, InBounds, Latest;
    RedoLeads(a, past, s.text, z.future);
    var r := Redo(a, s.text);
    PastIsTiled(r.arena, past + [s.text], r.text);
    OnIsTiled(r.arena, r.text, z.future[1..]);
    TiledIsFormed(r.arena);
    LatestAppend(z.past, s.text, a.undoPoint, a.undoPoint + 1);
    LatestAll(past + [s.text]);
  }

  lemma {:induction false} RedoneAnywhere(s: Session, z: Zipper)
    requires Tracks(s, z) && RedoWorks(s.arena, s.text) && s.arena.redoPoint < STATES
    ensures var r := Redo(s.arena, s.text);
      Tracks(Session(r.arena, r.text, false), Zipper(z.past + [z.text], r.text, []))
  {
    var a, past := s.arena, Latest(z.past, s.arena.undoPoint);
    PastIsTiled(a, past, s.text);
    hide LeadsBack, LeadsOn, UndoTiled, RedoTiled, Redo, InBounds, Latest;
    RedoStepsOn(a, past, s.text);
    RedoKeepsSlotFree(a, s.text);
    var r := Redo(a, s.text);
    PastIsTiled(r.arena, past + [s.text], r.text);
    LatestAppend(z.past, s.text, a.undoPoint, a.undoPoint + 1);
    LatestAll(past + [s.text]);
  }

  lemma LatestAll(past: seq<Text>)
    ensures Latest(past, |past|) == past
  {
  }

  /** Every permitted step keeps the session on the history. */
  lemma {:induction false} StepTracks(s: Session, z: Zipper, op: Op)
    requires Tracks(s, z) && Permitted(s, op)
    ensures Tracks(Next(s, z, op), Moved(s, z, op))
  {
    match op
    case Replace(e) => ReplaceTracks(s, z, e);
    case UndoOp => UndoTracks(s, z);
    case RedoOp => RedoTracks(s, z);
  }

  /** A session together with the history it tracks. */
  datatype Point = Point(s: Session, z: Zipper)

  ghost predicate PermittedRun(p: Point, ops: seq<Op>)
    requires Tracks(p.s, p.z)
    decreases |ops|
  {
    ops == [] ||
    (Permitted(p.s, ops[0]) &&
     (StepTracks(p.s, p.z, ops[0]);
      PermittedRun(Point(Next(p.s, p.z, ops[0]), Moved(p.s, p.z, ops[0])), ops[1..])))
  }

  ghost function Run(p: Point, ops: seq<Op>): (q: Point)
    requires Tracks(p.s, p.z) && PermittedRun(p, ops)
    ensures Tracks(q.s, q.z)
    decreases |ops|
  {
    if ops == [] then p
    else
      StepTracks(p.s, p.z, ops[0]);
      Run(Point(Next(p.s, p.z, ops[0]), Moved(p.s, p.z, ops[0])), ops[1..])
  }

  /** A cleared buffer beside any text is at the start of a history. */
  ghost function Fresh(a: Arena, text: Text): (p: Point)
    requires |a.recs| == STATES && |a.chars| == CHARS
    ensures Tracks(p.s, p.z) && p.s.exact
  {
    var c := a.(undoPoint := 0, undoCharPoint := 0, redoPoint := STATES, redoCharPoint := CHARS);
    EmptyFuture(c, text);
    Point(Session(c, text, true), Zipper([], text, []))
  }

  ghost function Repeat(op: Op, n: nat): (ops: seq<Op>)
    ensures |ops| == n && forall i :: 0 <= i < n ==> ops[i] == op
  {
    seq(n, i => op)
  }

  /** The next `n` undos all find room to work. */
  ghost predicate AllWork(p: Point, n: nat)
    requires Tracks(p.s, p.z)
    decreases n
  {
    n == 0 || (0 < p.s.arena.undoPoint && UndoWorks(p.s.arena) && AllWork(Stepped(p, UndoOp), n - 1))
  }

  /** After any permitted run, `n` more undos that work end at the text `n` edits back. */
  lemma {:induction false} UndosReachPast(p: Point, n: nat)
    requires Tracks(p.s, p.z) && AllWork(p, n)
    ensures n <= |p.z.past| && PermittedRun(p, Repeat(UndoOp, n))
    ensures var q := Run(p, Repeat(UndoOp, n)).s;
      && q.text == Undos(p.z, n).text
      && (0 < n ==> q.text == p.z.past[|p.z.past| - n])
      && q.arena.undoPoint == p.s.arena.undoPoint - n
    decreases n
  {
    hide Tracks, Next, Moved, UndoWorks;
    TracksCounts(p.s, p.z);
    if 0 < n {
      var s, z := UndoPoint(p);
      assert Repeat(UndoOp, n)[1..] == Repeat(UndoOp, n - 1);
      UndosReachPast(Point(s, z), n - 1);
      UndosShift(p.z, n - 1);
    }
    UndosReach(p.z, n);
  }

  /** Of the next `n` undos none but the last drops redo records for a text of another length. */
  ghost predicate Level(p: Point, n: nat)
    requires Tracks(p.s, p.z)
    decreases n
  {
    n <= 1 || (0 < p.s.arena.undoPoint && UndoWorks(p.s.arena) && KeepsLevel(p.s.arena) && Level(Stepped(p, UndoOp), n - 1))
  }

  ghost predicate KeepsLevel(a: Arena)
    requires InBounds(a) && 0 < a.undoPoint
  {
    UndoDiscards(a) ==> a.redoPoint < STATES && a.recs[a.redoPoint].insertLength == a.recs[a.undoPoint - 1].deleteLength
  }

  /** Then they all work, as long as there are records. */
  lemma {:induction false} LevelWorks(p: Point, n: nat)
    requires Tracks(p.s, p.z) && RedoTiled(p.s.arena) && Level(p, n) && n <= p.s.arena.undoPoint
    ensures AllWork(p, n)
    decreases n
  {
    if 0 < n {
      TiledWorks(p.s.arena);
      var s, z := UndoPoint(p);
      hide Tracks, Next, Moved, UndoWorks, RedoTiled, UndoDiscards;
      if 1 < n {
        UndoTiledIff(p.s, p.z);
        LevelWorks(Point(s, z), n - 1);
      }
    }
  }

  /** Undo leaves a tiled redo side tiled exactly if it does not drop records for another length. */
  lemma {:induction false} UndoTiledIff(s: Session, z: Zipper)
    requires Tracks(s, z) && RedoTiled(s.arena) && 0 < s.arena.undoPoint
    ensures UndoWorks(s.arena)
    ensures RedoTiled(Next(s, z, UndoOp).arena) <==> KeepsLevel(s.arena)
  {
    TiledWorks(s.arena);
    ArenaTiledIff(s.arena, Latest(z.past, s.arena.undoPoint), s.text);
  }

  lemma {:induction false} ArenaTiledIff(a: Arena, past: seq<Text>, text: Text)
    requires LeadsBack(a, past, text) && RedoTiled(a) && 0 < a.undoPoint
    ensures UndoWorks(a) && Ready(a.recs[a.undoPoint - 1], text)
    ensures RedoTiled(Undo(a, text).arena) <==> KeepsLevel(a)
  {
    hide Undo, Off, Tail, CanKeep, KeptAt;
    TopIsReady(a, past, text);
    TiledWorks(a);
    TiledNoneBelow(a);
    if UndoFits(a) {
      FittingRedoEdits(a, past, text);
    } else if UndoForgets(a) {
      ForgottenIsEmpty(a, past, text);
    } else {
      DiscardTiledIff(a, past, text);
    }
  }

  lemma TracksCounts(s: Session, z: Zipper)
    requires Tracks(s, z)
    ensures s.text == z.text && 0 <= s.arena.undoPoint <= |z.past|
  {
  }

  lemma TracksBounds(s: Session, z: Zipper)
    requires Tracks(s, z)
    ensures InBounds(s.arena)
  {
  }

  lemma TracksTiled(s: Session, z: Zipper)
    requires Tracks(s, z)
    ensures UndoTiled(s.arena)
  {
  }

  lemma TracksParts(s: Session, z: Zipper)
    requires Tracks(s, z)
    ensures s.text == z.text && 0 <= s.arena.undoPoint <= |z.past|
    ensures LeadsBack(s.arena, Latest(z.past, s.arena.undoPoint), z.text)
  {
  }

  lemma {:induction false} UndosShift(z: Zipper, n: nat)
    ensures Undos(z, n + 1) == Undos(z.Undo(), n)
    decreases n
  {
    if 0 < n {
      UndosShift(z, n - 1);
    }
  }

  lemma {:induction false} UndoPoint(p: Point) returns (s: Session, z: Zipper)
    requires Tracks(p.s, p.z) && 0 < p.s.arena.undoPoint && UndoWorks(p.s.arena)
    ensures s == Next(p.s, p.z, UndoOp) && z == Moved(p.s, p.z, UndoOp) && Tracks(s, z)
    ensures Point(s, z) == Stepped(p, UndoOp)
    ensures z == p.z.Undo() && s.arena.undoPoint == p.s.arena.undoPoint - 1
  {
    hide CanKeep;
    StepTracks(p.s, p.z, UndoOp);
    s, z := Next(p.s, p.z, UndoOp), Moved(p.s, p.z, UndoOp);
    UndoLeadsBack(p.s.arena, Latest(p.z.past, p.s.arena.undoPoint), p.s.text);
  }

  // ----- stuck

  ghost predicate NoEdits(ops: seq<Op>) {
    forall i :: 0 <= i < |ops| ==> !ops[i].Replace?
  }

  /** Once an undo has given up, undos and redos change nothing about text and history, however many. */
  lemma {:induction false} GivenUpIsStuck(p: Point, ops: seq<Op>)
    requires Tracks(p.s, p.z) && UndoGivesUp(p.s.arena) && p.s.arena.redoPoint == STATES && !p.s.exact && NoEdits(ops)
    ensures PermittedRun(p, ops) && Run(p, ops).s.text == p.s.text && Run(p, ops).z == p.z
    decreases |ops|
  {
    hide Tracks, UndoGivesUp, NoEdits;
    if ops != [] {
      assert !ops[0].Replace? && NoEdits(ops[1..]) by { LaterNoEdits(ops); }
      StuckStep(p, ops[0]);
      GivenUpIsStuck(Stepped(p, ops[0]), ops[1..]);
    }
  }

  lemma LaterNoEdits(ops: seq<Op>)
    requires NoEdits(ops) && ops != []
    ensures !ops[0].Replace? && NoEdits(ops[1..])
  {
  }

  lemma {:induction false} StuckStep(p: Point, op: Op)
    requires Tracks(p.s, p.z) && UndoGivesUp(p.s.arena) && p.s.arena.redoPoint == STATES && !p.s.exact && !op.Replace?
    ensures PermittedAt(p, op)
    ensures var q := Stepped(p, op);
      && q.s.text == p.s.text && q.z == p.z && UndoGivesUp(q.s.arena) && q.s.arena.redoPoint == STATES && !q.s.exact
  {
    hide LeadsBack, LeadsOn, CanKeep, MakeRedoRoom, UndoOutcome, Latest;
    if op.UndoOp? { GivenUpTracks(p.s, p.z); }
  }

  /** The next edit sets undo free again, with the whole past still there. */
  lemma {:induction false} EditFrees(p: Point, e: Edit)
    requires Tracks(p.s, p.z) && FitsIn(e, p.s.text)
    ensures PermittedAt(p, Replace(e))
    ensures var q := Stepped(p, Replace(e)); q.s.exact && UndoWorks(q.s.arena) && q.z.past == p.z.past + [p.s.text]
  {
    hide LeadsBack, LeadsOn, Recorded, Latest, UndoWorks;
    ExactWorks(Stepped(p, Replace(e)).s, Stepped(p, Replace(e)).z);
  }

  // ----- n undos and n redos

  ghost predicate PermittedAt(p: Point, op: Op)
    requires Tracks(p.s, p.z)
  {
    Permitted(p.s, op)
  }

  ghost function Stepped(p: Point, op: Op): (q: Point)
    requires Tracks(p.s, p.z) && PermittedAt(p, op)
    ensures Tracks(q.s, q.z)
  {
    StepTracks(p.s, p.z, op);
    Point(Next(p.s, p.z, op), Moved(p.s, p.z, op))
  }

  /** A run can be continued by one more step. */
  lemma {:induction false} RunOneMore(p: Point, ops: seq<Op>, op: Op)
    requires Tracks(p.s, p.z) && PermittedRun(p, ops) && PermittedAt(Run(p, ops), op)
    ensures PermittedRun(p, ops + [op]) && Run(p, ops + [op]) == Stepped(Run(p, ops), op)
    decreases |ops|
  {
    hide Tracks, Next, Moved;
    if ops == [] {
      assert ([] + [op])[1..] == [];
    } else {
      RunOneMore(Stepped(p, ops[0]), ops[1..], op);
      assert (ops + [op])[1..] == ops[1..] + [op];
    }
  }

  /** The next `n` undos all have room. */
  ghost predicate AllFit(p: Point, n: nat)
    requires Tracks(p.s, p.z) && p.s.exact
    decreases n
  {
    n == 0 ||
    (0 < p.s.arena.undoPoint && UndoFits(p.s.arena) && AllFit(FitUndone(p), n - 1))
  }

  ghost function FitUndone(p: Point): (q: Point)
    requires Tracks(p.s, p.z) && p.s.exact && 0 < p.s.arena.undoPoint && UndoFits(p.s.arena)
    ensures PermittedAt(p, UndoOp) && Tracks(q.s, q.z) && q.s.exact && q == Stepped(p, UndoOp)
  {
    FitsWorks(p.s.arena);
    Stepped(p, UndoOp)
  }

  ghost predicate Means(s: Session, h: History) {
    |s.arena.recs| == STATES && 0 <= s.arena.undoPoint <= s.arena.redoPoint <= STATES && Meaning(s.arena, s.text) == h
  }

  lemma {:induction false} FitUndoneMeans(p: Point, h: History)
    requires Tracks(p.s, p.z) && p.s.exact && 0 < p.s.arena.undoPoint && UndoFits(p.s.arena) && Means(p.s, h)
    ensures CanUndo(h) && Means(FitUndone(p).s, UndoOnce(h))
  {
    hide Undo, UndoFits, Off, CanKeep, NoneBelow;
    TiledNoneBelow(p.s.arena);
    UndoMeaning(p.s.arena, Latest(p.z.past, p.s.arena.undoPoint), p.s.text);
  }

  lemma {:induction false} RedoneMeans(p: Point, h: History)
    requires Tracks(p.s, p.z) && p.s.exact && Means(p.s, h) && CanRedo(h)
    ensures PermittedAt(p, RedoOp) && Means(Stepped(p, RedoOp).s, RedoOnce(h)) && Stepped(p, RedoOp).s.exact
  {
    hide Redo, Off;
    ExactWorks(p.s, p.z);
    RedoMeaning(p.s.arena, Latest(p.z.past, p.s.arena.undoPoint), p.s.text, p.z.future);
  }

  /** `n` undos that fit, and then `n` redos, restore the whole history. */
  lemma {:induction false} UndosRedosRestore(p: Point, n: nat, h: History)
    requires Tracks(p.s, p.z) && p.s.exact && AllFit(p, n) && Means(p.s, h)
    ensures PermittedRun(p, Repeat(UndoOp, n))
    ensures var q := Run(p, Repeat(UndoOp, n)); q.s.exact && PermittedRun(q, Repeat(RedoOp, n))
    ensures var r := Run(Run(p, Repeat(UndoOp, n)), Repeat(RedoOp, n)); r.s.exact && Means(r.s, h)
    decreases n
  {
    hide Tracks, Next, Moved, Means;
    if 0 < n {
      var p1 := FitUndone(p);
      FitUndoneMeans(p, h);
      UndosRedosRestore(p1, n - 1, UndoOnce(h));
      assert Repeat(UndoOp, n)[1..] == Repeat(UndoOp, n - 1);
      var q := Run(p1, Repeat(UndoOp, n - 1));
      assert Run(p, Repeat(UndoOp, n)) == q;
      var r := Run(q, Repeat(RedoOp, n - 1));
      RedoUndoesUndo(h);
      RedoneMeans(r, UndoOnce(h));
      RunOneMore(q, Repeat(RedoOp, n - 1), RedoOp);
      assert Repeat(RedoOp, n - 1) + [RedoOp] == Repeat(RedoOp, n);
    }
  }

  /** In particular the text and all four points are back where they were. */
  lemma {:induction false} UndosRedosIdentity(p: Point, n: nat)
    requires Tracks(p.s, p.z) && p.s.exact && AllFit(p, n)
    ensures PermittedRun(p, Repeat(UndoOp, n)) && PermittedRun(Run(p, Repeat(UndoOp, n)), Repeat(RedoOp, n))
    ensures var r := Run(Run(p, Repeat(UndoOp, n)), Repeat(RedoOp, n)).s; var a, b := p.s.arena, r.arena;
      && r.text == p.s.text
      && b.undoPoint == a.undoPoint && b.redoPoint == a.redoPoint
      && b.undoCharPoint == a.undoCharPoint && b.redoCharPoint == a.redoCharPoint
  {
    var h := Meaning(p.s.arena, p.s.text);
    hide UndoTiled, RedoTiled, Next, Moved;
    UndosRedosRestore(p, n, h);
    var r := Run(Run(p, Repeat(UndoOp, n)), Repeat(RedoOp, n));
    PointsFromMeaning(p.s.arena, r.s.arena, p.s.text);
  }

  // ----- edits that are all remembered

  ghost function Replaces(es: seq<Edit>): (ops: seq<Op>)
    ensures |ops| == |es|
    decreases |es|
  {
    if es == [] then [] else [Replace(es[0])] + Replaces(es[1..])
  }

  /** The characters the edits delete and insert. */
  ghost function Deleting(es: seq<Edit>): int
    decreases |es|
  {
    if es == [] then 0 else es[0].del + Deleting(es[1..])
  }

  ghost function Inserting(es: seq<Edit>): int
    decreases |es|
  {
    if es == [] then 0 else |es[0].ins| + Inserting(es[1..])
  }

  /** An edit with a free record slot, and room for what it deletes, costs no earlier record. */
  lemma {:induction false} EditAdds(p: Point, e: Edit)
    requires Tracks(p.s, p.z) && FitsIn(e, p.s.text)
    requires p.s.arena.undoPoint < STATES && p.s.arena.undoCharPoint + e.del <= CHARS
    ensures PermittedAt(p, Replace(e))
    ensures var a, q := p.s.arena, Stepped(p, Replace(e)); var b := q.s.arena;
      && q.s.exact && q.z == Zipper(p.z.past + [p.z.text], q.s.text, [])
      && b.undoPoint == a.undoPoint + 1 && b.undoCharPoint == a.undoCharPoint + e.del
      && b.redoPoint == STATES && b.redoCharPoint == CHARS
      && |b.recs| == STATES && b.recs[a.undoPoint].deleteLength == |e.ins|
      && (forall i :: 0 <= i < a.undoPoint ==> b.recs[i] == a.recs[i])
  {
    var a, removed := p.s.arena, p.s.text[e.where..e.where + e.del];
    PastIsTiled(a, Latest(p.z.past, a.undoPoint), p.s.text);
    hide LeadsBack, LeadsOn, Latest, UndoTiled, RedoFormed, SlotFree, FewestDropped;
    RecordedIsOne(a, e.where, removed, |e.ins|);
    RecordedOneMore(a, e.del, Recorded(a, e.where, removed, |e.ins|).undoPoint);
    RecordedKeeps(a, e.where, removed, |e.ins|);
  }

  lemma {:induction false} RecordedKeeps(a: Arena, where: int, removed: Text, inserted: int)
    requires UndoTiled(a) && a.undoPoint < STATES && a.undoCharPoint + |removed| <= CHARS
    ensures var b := Recorded(a, where, removed, inserted);
      && b.undoCharPoint == a.undoCharPoint + |removed| && b.recs[a.undoPoint].deleteLength == inserted
      && (forall i :: 0 <= i < a.undoPoint ==> b.recs[i] == a.recs[i])
  {
  }

  /** As long as there are record slots, and room for all that is deleted, every edit is remembered. */
  lemma {:induction false} EditsAreRemembered(p: Point, es: seq<Edit>)
    requires Tracks(p.s, p.z) && PermittedRun(p, Replaces(es)) && es != []
    requires p.s.arena.undoPoint + |es| <= STATES && p.s.arena.undoCharPoint + Deleting(es) <= CHARS
    ensures var a, q := p.s.arena, Run(p, Replaces(es)); var b := q.s.arena;
      && q.s.exact && |q.z.past| == |p.z.past| + |es| && p.z.past + [p.z.text] <= q.z.past
      && b.undoPoint == a.undoPoint + |es| && b.undoCharPoint == a.undoCharPoint + Deleting(es)
      && b.redoPoint == STATES && b.redoCharPoint == CHARS
      && |b.recs| == STATES && Dels(b.recs, a.undoPoint, b.undoPoint) == Inserting(es)
      && (forall i :: 0 <= i < a.undoPoint ==> b.recs[i] == a.recs[i])
    decreases |es|
  {
    hide Tracks, Next, Moved, Dels;
    TracksCounts(p.s, p.z);
    assert Replaces(es)[1..] == Replaces(es[1..]);
    var e := es[0];
    FitsOfPermitted(p, e);
    DeletingIsNat(Stepped(p, Replace(e)), es[1..]);
    EditAdds(p, e);
    var q := Stepped(p, Replace(e));
    OneDels(q.s.arena.recs, p.s.arena.undoPoint);
    if es[1..] != [] {
      EditsAreRemembered(q, es[1..]);
      var b, lo := Run(q, Replaces(es[1..])).s.arena, p.s.arena.undoPoint;
      OneDels(b.recs, lo);
      DelsSplit(b.recs, lo, lo + 1, b.undoPoint);
    }
  }

  lemma FitsOfPermitted(p: Point, e: Edit)
    requires Tracks(p.s, p.z) && Permitted(p.s, Replace(e))
    ensures FitsIn(e, p.s.text)
  {
  }

  lemma {:induction false} DeletingIsNat(p: Point, es: seq<Edit>)
    requires Tracks(p.s, p.z) && PermittedRun(p, Replaces(es))
    ensures 0 <= Deleting(es)
    decreases |es|
  {
    hide Tracks, Next, Moved;
    if es != [] {
      assert Replaces(es)[1..] == Replaces(es[1..]);
      FitsOfPermitted(p, es[0]);
      DeletingIsNat(Stepped(p, Replace(es[0])), es[1..]);
    }
  }

  lemma OneDels(recs: seq<Rec>, i: nat)
    requires i < |recs|
    ensures Dels(recs, i, i + 1) == recs[i].deleteLength
  {
  }

  lemma {:induction false} DelsSplit(recs: seq<Rec>, lo: nat, mid: nat, hi: nat)
    requires lo <= mid <= hi <= |recs|
    ensures Dels(recs, lo, hi) == Dels(recs, lo, mid) + Dels(recs, mid, hi)
    decreases hi
  {
    if mid < hi {
      DelsSplit(recs, lo, mid, hi - 1);
    }
  }

  /** So all of them can be taken back, as long as undo works. */
  lemma {:induction false} EditsAreTakenBack(p: Point, es: seq<Edit>)
    requires Tracks(p.s, p.z) && PermittedRun(p, Replaces(es)) && es != []
    requires p.s.arena.undoPoint + |es| <= STATES && p.s.arena.undoCharPoint + Deleting(es) <= CHARS
    requires AllWork(Run(p, Replaces(es)), |es|)
    ensures var q := Run(p, Replaces(es));
      PermittedRun(q, Repeat(UndoOp, |es|)) && Run(q, Repeat(UndoOp, |es|)).s.text == p.s.text
  {
    hide Tracks, Next, Moved, Dels, AllWork, PermittedRun;
    TracksCounts(p.s, p.z);
    EditsAreRemembered(p, es);
    UndosReachPast(Run(p, Replaces(es)), |es|);
  }

  /** When there is room for all the edits delete and insert, undo works for each of them, and loses
      nothing: back to the first text, and on to the last one. */
  lemma {:induction false} EditsAndBack(p: Point, es: seq<Edit>)
    requires Tracks(p.s, p.z) && PermittedRun(p, Replaces(es)) && es != []
    requires p.s.arena.undoPoint + |es| <= STATES && p.s.arena.undoCharPoint + Deleting(es) + Inserting(es) < CHARS
    ensures var q := Run(p, Replaces(es));
      && q.s.exact && AllFit(q, |es|) && PermittedRun(q, Repeat(UndoOp, |es|))
      && Run(q, Repeat(UndoOp, |es|)).s.text == p.s.text
      && PermittedRun(Run(q, Repeat(UndoOp, |es|)), Repeat(RedoOp, |es|))
      && Run(Run(q, Repeat(UndoOp, |es|)), Repeat(RedoOp, |es|)).s.text == q.s.text
  {
    hide Tracks, Next, Moved, Dels, AllWork, AllFit, PermittedRun, Run;
    TracksCounts(p.s, p.z);
    InsertingIsNat(es);
    EditsAreRemembered(p, es);
    var q := Run(p, Replaces(es));
    FewAllFit(q, |es|);
    FitMeansWork(q, |es|);
    EditsAreTakenBack(p, es);
    UndosRedosIdentity(q, |es|);
  }

  lemma {:induction false} InsertingIsNat(es: seq<Edit>)
    ensures 0 <= Inserting(es)
    decreases |es|
  {
    if es != [] {
      InsertingIsNat(es[1..]);
    }
  }

  /** Undos fit while there is room between the sides for all they delete. */
  lemma {:induction false} FewAllFit(p: Point, n: nat)
    requires Tracks(p.s, p.z) && p.s.exact && n <= p.s.arena.undoPoint <= |p.s.arena.recs|
    requires var a := p.s.arena; var d := a.undoCharPoint + Dels(a.recs, a.undoPoint - n, a.undoPoint);
      d <= a.redoCharPoint && d < CHARS
    ensures AllFit(p, n)
    decreases n
  {
    hide Tracks, Dels, UndoFits, FitUndone, AllFit;
    if 0 < n {
      TopFits(p, n);
      FewAllFit(FitUndone(p), n - 1);
      OneMoreFits(p, n);
    } else {
      NoneFit(p);
    }
  }

  lemma OneMoreFits(p: Point, n: nat)
    requires Tracks(p.s, p.z) && p.s.exact && 0 < n && InBounds(p.s.arena) && 0 < p.s.arena.undoPoint && UndoFits(p.s.arena)
    requires AllFit(FitUndone(p), n - 1)
    ensures AllFit(p, n)
  {
    hide Tracks, UndoFits, FitUndone;
  }

  lemma NoneFit(p: Point)
    requires Tracks(p.s, p.z) && p.s.exact
    ensures AllFit(p, 0)
  {
    hide Tracks;
  }

  lemma {:induction false} TopFits(p: Point, n: nat)
    requires Tracks(p.s, p.z) && p.s.exact && 0 < n <= p.s.arena.undoPoint <= |p.s.arena.recs|
    requires var a := p.s.arena; var d := a.undoCharPoint + Dels(a.recs, a.undoPoint - n, a.undoPoint);
      d <= a.redoCharPoint && d < CHARS
    ensures InBounds(p.s.arena) && UndoFits(p.s.arena)
    ensures var b := FitUndone(p).s.arena; var d := b.undoCharPoint + Dels(b.recs, b.undoPoint - (n - 1), b.undoPoint);
      && b.undoPoint == p.s.arena.undoPoint - 1 && |b.recs| == STATES && d <= b.redoCharPoint && d < CHARS
  {
    hide LeadsBack, LeadsOn, UndoTiled, RedoFormed, CanKeep, Dels, SlotFree, Takes, Undo, UndoFits;
    PastIsTiled(p.s.arena, Latest(p.z.past, p.s.arena.undoPoint), p.s.text);
    RoomForTop(p.s.arena, Latest(p.z.past, p.s.arena.undoPoint), p.s.text, n);
  }

  lemma {:induction false} RoomForTop(a: Arena, past: seq<Text>, text: Text, n: nat)
    requires LeadsBack(a, past, text) && RedoFormed(a) && 0 < n <= a.undoPoint
    requires var d := a.undoCharPoint + Dels(a.recs, a.undoPoint - n, a.undoPoint); d <= a.redoCharPoint && d < CHARS
    ensures UndoFits(a) && UndoWorks(a) && Ready(a.recs[a.undoPoint - 1], text)
    ensures var b := Undo(a, text).arena; |b.recs| == STATES && b.undoPoint == a.undoPoint - 1
    ensures var b := Undo(a, text).arena; var d := b.undoCharPoint + Dels(b.recs, b.undoPoint - (n - 1), b.undoPoint);
      d <= b.redoCharPoint && d < CHARS
  {
    var lo, top := a.undoPoint - n, a.undoPoint - 1;
    PastIsTiled(a, past, text);
    UndoSideDels(a, lo, top);
    assert Dels(a.recs, lo, a.undoPoint) == Dels(a.recs, lo, top) + a.recs[top].deleteLength;
    hide LeadsBack, UndoTiled, RedoFormed, Undo, UndoWorks, Dels, Ready;
    UndoneCounts(a, past, text);
    DelsSame(a.recs, Undo(a, text).arena.recs, lo, top);
  }

  lemma {:induction false} UndoSideDels(a: Arena, lo: nat, hi: nat)
    requires UndoTiled(a) && lo <= hi <= a.undoPoint
    ensures 0 <= Dels(a.recs, lo, hi) && (lo < hi ==> 0 <= a.recs[hi - 1].deleteLength) && (hi < a.undoPoint ==> 0 <= a.recs[hi].deleteLength)
    decreases hi
  {
    hide Off;
    assert forall i :: 0 <= i < a.undoPoint ==> KeptAt(a.recs[i], Off(a.recs, i));
    if lo < hi {
      UndoSideDels(a, lo, hi - 1);
    }
  }

  /** What a fitting undo does to records and points. */
  lemma {:induction false} UndoneCounts(a: Arena, past: seq<Text>, text: Text)
    requires LeadsBack(a, past, text) && RedoFormed(a) && 0 < a.undoPoint && UndoFits(a)
    ensures UndoWorks(a) && Ready(a.recs[a.undoPoint - 1], text) && 0 <= a.recs[a.undoPoint - 1].insertLength
    ensures var b, u := Undo(a, text).arena, a.recs[a.undoPoint - 1];
      && |b.recs| == STATES && b.undoPoint == a.undoPoint - 1
      && b.undoCharPoint == a.undoCharPoint - u.insertLength && b.redoCharPoint == a.redoCharPoint - u.deleteLength
      && forall i :: 0 <= i < b.undoPoint ==> b.recs[i] == a.recs[i]
  {
    hide Takes, Off, UndoTiled, WithRedoRecord, CanKeep, RoomFor;
    UndoPutsInFront(a, past, text);
    RedoRecordKeepsUndo(a, a.recs[a.undoPoint - 1], text);
  }

  lemma {:induction false} FitMeansWork(p: Point, n: nat)
    requires Tracks(p.s, p.z) && p.s.exact && AllFit(p, n)
    ensures AllWork(p, n)
    decreases n
  {
    hide Tracks, Next, Moved, UndoWorks, UndoFits;
    if 0 < n {
      TopWorks(p);
      FitMeansWork(FitUndone(p), n - 1);
    }
  }

  lemma TopWorks(p: Point)
    requires Tracks(p.s, p.z) && p.s.exact && 0 < p.s.arena.undoPoint && UndoFits(p.s.arena)
    ensures UndoWorks(p.s.arena)
  {
    hide UndoWorks, LeadsBack, LeadsOn, UndoFits;
    ExactWorks(p.s, p.z);
  }

  // ----- runs on which records are mislaid

  ghost function Xs(n: nat): (t: Text)
    ensures |t| == n
  {
    seq(n, i => 'x')
  }

  ghost function Paste(where: nat, n: nat): Op { Replace(Edit(where, Xs(n), 0)) }

  /** Pastes only, each at the end of the text: there are no characters to keep, and nothing to redo. */
  ghost predicate Pastes(s: Session, recs: seq<Rec>, length: nat) {
    var a := s.arena;
    && InBounds(a) && s.exact && |s.text| == length
    && a.undoPoint == |recs| && a.recs[..|recs|] == recs && a.undoCharPoint == 0
    && a.redoPoint == STATES && a.redoCharPoint == CHARS
  }

  lemma {:induction false} PasteOnto(a: Arena, where: int, n: int)
    requires UndoTiled(a) && a.undoPoint < STATES
    ensures var b := Recorded(a, where, [], n);
      && b.undoPoint == a.undoPoint + 1 && b.undoCharPoint == a.undoCharPoint
      && b.recs[..a.undoPoint + 1] == a.recs[..a.undoPoint] + [Rec(where, 0, n, -1)]
  {
  }

  lemma {:induction false} Pasted(p: Point, recs: seq<Rec>, length: nat, n: nat)
    requires Tracks(p.s, p.z) && Pastes(p.s, recs, length) && |recs| < STATES
    ensures PermittedAt(p, Paste(length, n))
    ensures Pastes(Stepped(p, Paste(length, n)).s, recs + [Rec(length, 0, n, -1)], length + n)
  {
    hide Recorded;
    PastIsTiled(p.s.arena, Latest(p.z.past, p.s.arena.undoPoint), p.s.text);
    assert p.s.text[length..length] == [];
    PasteOnto(p.s.arena, length, n);
  }

  /** The undo records of three pastes of lengths `x`, `y` and `z`. */
  ghost function Three(x: nat, y: nat, z: nat): seq<Rec> {
    [Rec(0, 0, x, -1), Rec(x, 0, y, -1), Rec(x + y, 0, z, -1)]
  }

  /** `n` of the three pastes are left; the only redo record has place `x + y` and length `z`, and
      its characters are the last `kept` of the array. */
  ghost predicate Left(s: Session, x: nat, y: nat, z: nat, n: nat, kept: nat) {
    var a := s.arena;
    && n <= 2 && RedoFormed(a) && |s.text| == (if n == 2 then x + y else x)
    && a.undoPoint == n && a.recs[..n] == Three(x, y, z)[..n] && a.undoCharPoint == 0
    && a.redoPoint == STATES - 1 && a.redoCharPoint == CHARS - kept
    && a.recs[STATES - 1].where == x + y && a.recs[STATES - 1].insertLength == z && a.recs[STATES - 1].charStorage == CHARS - kept
  }

  /** The first undo fits. */
  lemma {:induction false} FirstUndo(p: Point, x: nat, y: nat, z: nat)
    requires Tracks(p.s, p.z) && Pastes(p.s, Three(x, y, z), x + y + z) && 0 < z < CHARS
    ensures PermittedAt(p, UndoOp)
    ensures Left(Stepped(p, UndoOp).s, x, y, z, 2, z) && Stepped(p, UndoOp).s.exact
  {
    var a, past := p.s.arena, Latest(p.z.past, 3);
    assert a.recs[2] == a.recs[..3][2] && UndoFits(a);
    TopIsReady(a, past, p.s.text);
    FittingRecord(a, a.recs[2], p.s.text);
    WorksIsPermitted(p);
    UndoneAt(p, a.recs[2]);
    hide WithRedoRecord, Takes, Off, Tail, Kept;
    assert a.recs[..2] == a.recs[..3][..2];
  }

  lemma WorksIsPermitted(p: Point)
    requires Tracks(p.s, p.z) && UndoWorks(p.s.arena)
    ensures PermittedAt(p, UndoOp)
  {
    hide Tracks, UndoWorks;
  }

  lemma {:induction false} UndoneAt(p: Point, u: Rec)
    requires Tracks(p.s, p.z) && PermittedAt(p, UndoOp) && 0 < p.s.arena.undoPoint <= |p.s.arena.recs| && UndoWorks(p.s.arena)
    requires u == p.s.arena.recs[p.s.arena.undoPoint - 1] && Ready(u, p.s.text)
    ensures var q, r := Stepped(p, UndoOp).s, Undo(p.s.arena, p.s.text);
      && q.arena == r.arena && q.text == r.text && q.exact == (p.s.exact && UndoFits(p.s.arena))
      && RedoFormed(r.arena) && |r.text| == |p.s.text| - u.deleteLength + u.insertLength
  {
    hide CanKeep, WithRedoRecord, Off, LeadsOn, Takes, UndoTiled, KeptAt, RoomFor, UndoOutcome, UndoGivesUp, SlotFree, Latest, Recorded, Redo;
    UndoLeadsBack(p.s.arena, Latest(p.z.past, p.s.arena.undoPoint), p.s.text);
    TopIsReady(p.s.arena, Latest(p.z.past, p.s.arena.undoPoint), p.s.text);
  }

  /** The second one does not, drops the redo record and writes over it. */
  lemma {:induction false} SecondUndo(p: Point, x: nat, y: nat, z: nat)
    requires Tracks(p.s, p.z) && p.s.exact && Left(p.s, x, y, z, 2, z) && y < CHARS < y + z
    ensures PermittedAt(p, UndoOp) && Left(Stepped(p, UndoOp).s, x, y, z, 1, y)
    ensures var s := Stepped(p, UndoOp).s; !Ready(s.arena.recs[s.arena.redoPoint], s.text)
  {
    hide WithRedoRecord, Takes, Off, Tail, Kept, CanKeep, Formed;
    var a := p.s.arena;
    ExactWorks(p.s, p.z);
    TopIsReady(a, Latest(p.z.past, 2), p.s.text);
    WorksIsPermitted(p);
    UndoneAt(p, a.recs[1]);
    assert a.recs[1] == a.recs[..2][1] == Rec(x, 0, y, -1);
    OnlyOneDropped(a, a.recs[1], p.s.text);
    assert a.recs[..1] == a.recs[..2][..1];
  }

  lemma {:induction false} OnlyOneDropped(a: Arena, u: Rec, t: Text)
    requires RedoFormed(a) && a.redoPoint == STATES - 1 && Held(a.recs[STATES - 1]) == CHARS - a.redoCharPoint
    requires 0 < a.undoPoint && Ready(u, t) && CanKeep(a, u.deleteLength) && 0 <= a.recs[STATES - 1].charStorage
    requires 0 < u.deleteLength && a.redoCharPoint < a.undoCharPoint + u.deleteLength < CHARS
    ensures var r, d := WithRedoRecord(a, u, t), u.deleteLength;
      && r.redoPoint == STATES && r.redoCharPoint == CHARS - d
      && (forall i :: 0 <= i < STATES - 2 ==> r.recs[i] == a.recs[i])
      && r.recs[STATES - 1] == a.recs[STATES - 1].(charStorage := CHARS - d)
  {
    hide DiscardRedo, CanKeep, RoomFor;
    var b, d := SlotFilled(a, u), u.deleteLength;
    DiscardRedoRecs(b);
    assert MakeRedoRoom(b, d) == MakeRedoRoom(DiscardRedo(b), d) == Made(DiscardRedo(b));
    SlotKeepsRoom(a, u, d);
    RoomMadeIff(b, d);
  }

  /** How the third one ends depends on the lengths alone. */
  lemma {:induction false} ThirdUndo(p: Point, x: nat, y: nat, z: nat)
    requires Tracks(p.s, p.z) && Left(p.s, x, y, z, 1, y) && x < CHARS
    ensures Ready(p.s.arena.recs[0], p.s.text)
    ensures var o := UndoOutcome(p.s.arena, p.s.text);
      && (o.Undone? <==> x == 0 || x + y <= CHARS || (z <= y && x + y <= CHARS + z))
      && (o.GivenUp? <==> 0 < x && CHARS + z < x + y)
  {
    var a := p.s.arena;
    assert a.recs[0] == a.recs[..1][0] == Rec(0, 0, x, -1);
    UndoneIff(a, p.s.text);
    assert HeldFrom(a.recs, STATES) == 0 && HeldFrom(a.recs, STATES - 1) == z;
    assert Frees(a, x, STATES) <==> x + y <= CHARS;
    assert Frees(a, x, STATES - 1) <==> z <= y && x + y <= CHARS + z;
  }

  /** Three pastes and two undos, when the characters of the second and third paste together do not
      fit in the buffer. */
  ghost function TwoUndone(x: nat, y: nat, z: nat): seq<Op> {
    [Paste(0, x), Paste(x, y), Paste(x + y, z), UndoOp, UndoOp]
  }

  /** Then the record left for redo does not lie in the text.  A third undo still works only if its
      characters fit beside those of the second, or as soon as the mislaid record is dropped; if the
      record claims too little the undo gives up, and if it claims too much the characters are moved
      out of the array. */
  lemma {:induction false} ThreePastes(a: Arena, x: nat, y: nat, z: nat)
    requires |a.recs| == STATES && |a.chars| == CHARS
    requires x < CHARS && y < CHARS && 0 < z < CHARS && CHARS < y + z
    ensures PermittedRun(Fresh(a, []), TwoUndone(x, y, z))
    ensures var s := Run(Fresh(a, []), TwoUndone(x, y, z)).s;
      && |s.text| == x && RedoFormed(s.arena) && s.arena.undoPoint == 1 && s.arena.redoPoint < STATES
      && !Ready(s.arena.recs[s.arena.redoPoint], s.text) && Ready(s.arena.recs[0], s.text)
      && var o := UndoOutcome(s.arena, s.text);
         && (o.Undone? <==> x == 0 || x + y <= CHARS || (z <= y && x + y <= CHARS + z))
         && (o.GivenUp? <==> 0 < x && CHARS + z < x + y)
  {
    hide Tracks, Stepped, Fresh, Ready, Run, PermittedRun, Pastes, PermittedAt, Paste, Left, RedoFormed, UndoOutcome;
    var p0 := Fresh(a, []);
    FreshPastes(a);
    Pasted(p0, [], 0, x);
    var p1 := Stepped(p0, Paste(0, x));
    assert [] + [Rec(0, 0, x, -1)] == [Rec(0, 0, x, -1)];
    Pasted(p1, [Rec(0, 0, x, -1)], x, y);
    var p2 := Stepped(p1, Paste(x, y));
    assert [Rec(0, 0, x, -1)] + [Rec(x, 0, y, -1)] == [Rec(0, 0, x, -1), Rec(x, 0, y, -1)];
    Pasted(p2, [Rec(0, 0, x, -1), Rec(x, 0, y, -1)], x + y, z);
    var p3 := Stepped(p2, Paste(x + y, z));
    assert [Rec(0, 0, x, -1), Rec(x, 0, y, -1)] + [Rec(x + y, 0, z, -1)] == Three(x, y, z);
    FirstUndo(p3, x, y, z);
    var p4 := Stepped(p3, UndoOp);
    SecondUndo(p4, x, y, z);
    var p5 := Stepped(p4, UndoOp);
    ThirdUndo(p5, x, y, z);
    LeftIs(p5.s, x, y, z, y);
    RunFive(p0, Paste(0, x), Paste(x, y), Paste(x + y, z), UndoOp, UndoOp);
  }

  lemma LeftIs(s: Session, x: nat, y: nat, z: nat, kept: nat)
    requires Left(s, x, y, z, 1, kept)
    ensures |s.text| == x && RedoFormed(s.arena) && s.arena.undoPoint == 1 && s.arena.redoPoint < STATES
  {
  }

  lemma {:induction false} RunFive(p: Point, a: Op, b: Op, c: Op, d: Op, e: Op)
    requires Tracks(p.s, p.z) && PermittedAt(p, a) && PermittedAt(Stepped(p, a), b)
    requires PermittedAt(Stepped(Stepped(p, a), b), c) && PermittedAt(Stepped(Stepped(Stepped(p, a), b), c), d)
    requires PermittedAt(Stepped(Stepped(Stepped(Stepped(p, a), b), c), d), e)
    ensures PermittedRun(p, [a, b, c, d, e])
    ensures Run(p, [a, b, c, d, e]) == Stepped(Stepped(Stepped(Stepped(Stepped(p, a), b), c), d), e)
  {
    hide Tracks, Stepped, PermittedAt;
    RunNothing(p);
    RunOneMore(p, [], a);
    assert [] + [a] == [a];
    RunOneMore(p, [a], b);
    assert [a] + [b] == [a, b];
    RunOneMore(p, [a, b], c);
    assert [a, b] + [c] == [a, b, c];
    RunOneMore(p, [a, b, c], d);
    assert [a, b, c] + [d] == [a, b, c, d];
    RunOneMore(p, [a, b, c, d], e);
    assert [a, b, c, d] + [e] == [a, b, c, d, e];
  }

  lemma RunNothing(p: Point)
    requires Tracks(p.s, p.z)
    ensures PermittedRun(p, []) && Run(p, []) == p
  {
  }

  lemma FreshPastes(a: Arena)
    requires |a.recs| == STATES && |a.chars| == CHARS
    ensures Pastes(Fresh(a, []).s, [], 0)
  {
  }
}
