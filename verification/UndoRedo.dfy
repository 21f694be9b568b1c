/** Undo and redo as moves along the history, and exactly when undo leaves redo what it needs. */
module UndoRedo {
  import opened Edits
  import opened UndoArena
  import opened UndoHistory

  // ----- one more redo record

  /** The redo side after one more record, with the characters `kept`, was put in front. */
  ghost predicate PutInFront(a: Arena, b: Arena, r: Rec, kept: Text) {
    && InBounds(a) && InBounds(b) && 0 < a.redoPoint && b.redoPoint == a.redoPoint - 1
    && b.redoCharPoint == a.redoCharPoint - |kept|
    && KeptAt(r, b.redoCharPoint) && r.insertLength == |kept| && b.recs[b.redoPoint] == r
    && (forall i :: a.redoPoint <= i < STATES ==> b.recs[i] == a.recs[i])
    && b.chars[a.redoCharPoint..] == a.chars[a.redoCharPoint..]
    && b.chars[b.redoCharPoint..a.redoCharPoint] == kept
  }

  lemma {:induction false} FrontTail(a: Arena, b: Arena, r: Rec, kept: Text, i: nat)
    requires RedoTiled(a) && PutInFront(a, b, r, kept) && a.redoPoint <= i <= STATES
    ensures Tail(b.recs, i) == Tail(a.recs, i)
  {
    TailSame(b.recs, a.recs, i);
  }

  lemma {:induction false} FrontTiled(a: Arena, b: Arena, r: Rec, kept: Text)
    requires RedoTiled(a) && PutInFront(a, b, r, kept)
    ensures RedoTiled(b) && EditAt(b, b.redoPoint) == Edit(r.where, kept, r.deleteLength)
  {
    forall i: nat | a.redoPoint <= i <= STATES ensures Tail(b.recs, i) == Tail(a.recs, i) {
      FrontTail(a, b, r, kept, i);
    }
    assert Tail(b.recs, b.redoPoint) == |kept| + Tail(b.recs, a.redoPoint);
  }

  lemma {:induction false} FrontEdit(a: Arena, b: Arena, r: Rec, kept: Text, i: nat)
    requires RedoTiled(a) && PutInFront(a, b, r, kept) && a.redoPoint <= i < STATES
    ensures EditAt(b, i) == EditAt(a, i)
  {
    RedoKept(a, i);
    assert a.chars[a.redoCharPoint..CHARS] == b.chars[a.redoCharPoint..CHARS];
    SameKept(a, b, a.recs[i], a.redoCharPoint, CHARS);
  }

  lemma {:induction false} DelsFront(r: seq<Rec>, lo: int, hi: int)
    requires 0 <= lo < hi <= |r|
    ensures Dels(r, lo, hi) == r[lo].deleteLength + Dels(r, lo + 1, hi)
    decreases hi
  {
    if lo + 1 < hi {
      DelsFront(r, lo, hi - 1);
    }
  }

  lemma {:induction false} DelsSame(r: seq<Rec>, s: seq<Rec>, lo: int, hi: int)
    requires 0 <= lo && hi <= |r| && hi <= |s| && forall i :: lo <= i < hi ==> r[i] == s[i]
    ensures Dels(r, lo, hi) == Dels(s, lo, hi)
    decreases hi
  {
    if lo < hi {
      DelsSame(r, s, lo, hi - 1);
    }
  }

  /** The undo side gave up as many characters as the new record will delete. */
  lemma {:induction false} FrontRoom(a: Arena, b: Arena, r: Rec, kept: Text)
    requires RedoTiled(a) && RoomToRedo(a) && PutInFront(a, b, r, kept)
    requires b.undoCharPoint == a.undoCharPoint - r.deleteLength && a.undoCharPoint <= b.redoCharPoint
    ensures RoomToRedo(b)
  {
    FrontTiled(a, b, r, kept);
    forall i | b.redoPoint <= i < STATES
      ensures b.undoCharPoint + Dels(b.recs, b.redoPoint, i + 1) <= CHARS - Tail(b.recs, i)
    {
      DelsFront(b.recs, b.redoPoint, i + 1);
      if b.redoPoint < i {
        FrontTail(a, b, r, kept, i);
        DelsSame(b.recs, a.recs, a.redoPoint, i + 1);
      }
    }
  }

  /** A record that takes the new text on to the old one adds the old one to the future. */
  lemma {:induction false} FrontLeadsOn(a: Arena, b: Arena, r: Rec, kept: Text, text: Text, future: seq<Text>, text': Text)
    requires LeadsOn(a, text, future) && PutInFront(a, b, r, kept)
    requires b.undoCharPoint == a.undoCharPoint - r.deleteLength && a.undoCharPoint <= b.redoCharPoint
    requires Takes(Edit(r.where, kept, r.deleteLength), text', text)
    ensures LeadsOn(b, text', [text] + future)
  {
    hide Kept, Takes, KeptAt, Tail, Dels, RoomToRedo;
    FrontTiled(a, b, r, kept);
    FrontRoom(a, b, r, kept);
    forall i | 0 <= i < |future| + 1
      ensures Takes(EditAt(b, b.redoPoint + i), FutureAt(text', [text] + future, i), FutureAt(text', [text] + future, i + 1))
    {
      if 0 < i {
        FrontEdit(a, b, r, kept, b.redoPoint + i);
        assert Takes(EditAt(a, a.redoPoint + (i - 1)), FutureAt(text, future, i - 1), FutureAt(text, future, i));
      }
    }
  }

  // ----- undo

  /** When it fits, the redo record is the inverse of the edit carried out. */
  lemma {:induction false} UndoPutsInFront(a: Arena, past: seq<Text>, text: Text)
    requires LeadsBack(a, past, text) && RedoFormed(a) && 0 < a.undoPoint && UndoFits(a)
    ensures UndoWorks(a) && Ready(a.recs[a.undoPoint - 1], text)
    ensures var u := a.recs[a.undoPoint - 1]; var b := Undo(a, text).arena;
      var saved := text[u.where..u.where + u.deleteLength]; var r := b.recs[a.redoPoint - 1];
      && PutInFront(a, b, r, saved) && b.undoCharPoint == a.undoCharPoint - u.insertLength
      && r.where == u.where && r.deleteLength == u.insertLength
      && Edit(r.where, saved, r.deleteLength) == Inverse(EditAt(a, a.undoPoint - 1), text)
  {
    hide Takes, Off, UndoTiled, WithRedoRecord, CanKeep, RoomFor;
    FitsWorks(a);
    TopIsReady(a, past, text);
    FittingRecord(a, a.recs[a.undoPoint - 1], text);
  }

  lemma {:induction false} FittingRecord(a: Arena, u: Rec, t: Text)
    requires RedoFormed(a) && 0 < a.undoPoint && UndoFits(a) && u == a.recs[a.undoPoint - 1] && Ready(u, t)
    ensures CanKeep(a, u.deleteLength)
    ensures var b := WithRedoRecord(a, u, t); var at := a.redoCharPoint - u.deleteLength;
      && b.redoPoint == a.redoPoint && b.redoCharPoint == at
      && b.recs == a.recs[a.redoPoint - 1 := Rec(u.where, u.deleteLength, u.insertLength, if u.deleteLength == 0 then -1 else at)]
      && b.chars == Put(a.chars, at, t[u.where..u.where + u.deleteLength])
  {
    FitsWorks(a);
    if u.deleteLength == 0 {
      assert Put(a.chars, a.redoCharPoint, []) == a.chars;
    }
  }

  /** Undo that fits puts the text it came from in front of the future. */
  lemma {:induction false} UndoLeadsOn(a: Arena, past: seq<Text>, text: Text, future: seq<Text>)
    requires LeadsBack(a, past, text) && LeadsOn(a, text, future) && 0 < a.undoPoint && UndoFits(a)
    ensures UndoWorks(a) && Ready(a.recs[a.undoPoint - 1], text)
    ensures LeadsOn(Undo(a, text).arena, Undo(a, text).text, [text] + future)
  {
    hide WithRedoRecord, Off, Tail, Dels, KeptAt, CanKeep;
    TiledIsFormed(a);
    UndoPutsInFront(a, past, text);
    UndoLeadsBack(a, past, text);
    TopIsReady(a, past, text);
    var u := a.recs[a.undoPoint - 1];
    var b := Undo(a, text).arena;
    InverseTakesBack(EditAt(a, a.undoPoint - 1), text, past[|past| - 1]);
    FrontLeadsOn(a, b, b.recs[a.redoPoint - 1], text[u.where..u.where + u.deleteLength], text, future, past[|past| - 1]);
  }

  // ----- redo

  /** The next redo record is ready to be carried out, there is room for its undo record, and it
      leads to the next text of the future. */
  lemma {:induction false} NextIsReady(a: Arena, text: Text, future: seq<Text>)
    requires LeadsOn(a, text, future) && a.redoPoint < STATES
    ensures var r := a.recs[a.redoPoint];
      && Ready(r, text) && r.insertLength == |Kept(a, r)| && CarriedOut(a, r, text) == future[0]
      && a.undoCharPoint + r.deleteLength <= a.redoCharPoint
      && Takes(EditAt(a, a.redoPoint), text, future[0])
  {
    RedoKept(a, a.redoPoint);
    assert Takes(EditAt(a, a.redoPoint + 0), FutureAt(text, future, 0), FutureAt(text, future, 1));
    assert Dels(a.recs, a.redoPoint, a.redoPoint + 1) == a.recs[a.redoPoint].deleteLength;
  }

  /** What redo does to the buffer, apart from the undo record. */
  ghost predicate FrontTaken(a: Arena, b: Arena) {
    && InBounds(a) && InBounds(b) && a.redoPoint < STATES && b.redoPoint == a.redoPoint + 1
    && b.redoCharPoint == a.redoCharPoint + a.recs[a.redoPoint].insertLength
    && b.undoCharPoint == a.undoCharPoint + a.recs[a.redoPoint].deleteLength
    && (forall i :: b.redoPoint <= i < STATES ==> b.recs[i] == a.recs[i])
    && b.chars[a.redoCharPoint..] == a.chars[a.redoCharPoint..]
  }

  lemma {:induction false} RedoMoves(a: Arena, text: Text, future: seq<Text>)
    requires LeadsOn(a, text, future) && a.redoPoint < STATES
    ensures Ready(a.recs[a.redoPoint], text)
    ensures var r := a.recs[a.redoPoint]; var b := Redo(a, text).arena;
      var saved := text[r.where..r.where + r.deleteLength]; var u := b.recs[a.undoPoint];
      && FrontTaken(a, b) && Pushed(a, b, u, saved) && u.where == r.where && u.deleteLength == r.insertLength
      && Edit(u.where, saved, u.deleteLength) == Inverse(EditAt(a, a.redoPoint), text)
  {
    hide Takes, Off, Tail, RoomToRedo, Dels, CarriedOut, UndoTiled;
    NextIsReady(a, text, future);
    RedoKept(a, a.redoPoint);
  }

  lemma {:induction false} RedoResult(a: Arena, text: Text, future: seq<Text>)
    requires LeadsOn(a, text, future) && a.redoPoint < STATES
    ensures Ready(a.recs[a.redoPoint], text)
    ensures Redo(a, text).text == future[0] && 0 <= Redo(a, text).cursor <= |future[0]|
  {
    NextIsReady(a, text, future);
    hide Takes, Off, Tail, RoomToRedo, Dels;
    var r := a.recs[a.redoPoint];
    var b := WithUndoRecord(a, r, text);
    RedoKept(a, a.redoPoint);
    if 0 < r.deleteLength && a.undoCharPoint + r.deleteLength <= a.redoCharPoint {
      PutLeavesRest(a.chars, a.undoCharPoint, text[r.where..r.where + r.deleteLength], a.redoCharPoint);
    }
    SameKept(a, b, r, a.redoCharPoint, CHARS);
  }

  lemma PutLeavesRest(cs: seq<char>, at: int, s: seq<char>, from: int)
    requires 0 <= at && at + |s| <= from <= |cs|
    ensures Put(cs, at, s)[from..|cs|] == cs[from..|cs|]
  {
  }

  lemma {:induction false} TakenTiled(a: Arena, b: Arena)
    requires RedoTiled(a) && FrontTaken(a, b)
    ensures RedoTiled(b)
    ensures forall i: nat :: b.redoPoint <= i < STATES ==> EditAt(b, i) == EditAt(a, i)
    ensures forall i: nat :: b.redoPoint <= i <= STATES ==> Tail(b.recs, i) == Tail(a.recs, i)
  {
    RedoKept(a, a.redoPoint);
    forall i: nat | b.redoPoint <= i <= STATES ensures Tail(b.recs, i) == Tail(a.recs, i) {
      TailSame(b.recs, a.recs, i);
    }
    forall i: nat | b.redoPoint <= i < STATES ensures EditAt(b, i) == EditAt(a, i) {
      RedoKept(a, i);
      assert a.chars[a.redoCharPoint..CHARS] == b.chars[a.redoCharPoint..CHARS];
      SameKept(a, b, a.recs[i], a.redoCharPoint, CHARS);
    }
  }

  lemma {:induction false} TakenRoom(a: Arena, b: Arena)
    requires RedoTiled(a) && RoomToRedo(a) && FrontTaken(a, b)
    ensures RoomToRedo(b)
  {
    TakenTiled(a, b);
    forall i | b.redoPoint <= i < STATES
      ensures b.undoCharPoint + Dels(b.recs, b.redoPoint, i + 1) <= CHARS - Tail(b.recs, i)
    {
      DelsFront(a.recs, a.redoPoint, i + 1);
      DelsSame(b.recs, a.recs, b.redoPoint, i + 1);
    }
  }

  lemma {:induction false} TakenLeadsOn(a: Arena, b: Arena, text: Text, future: seq<Text>)
    requires LeadsOn(a, text, future) && FrontTaken(a, b)
    ensures LeadsOn(b, future[0], future[1..])
  {
    hide Tail, KeptAt, Kept, RoomToRedo, Dels, Takes;
    TakenTiled(a, b);
    TakenRoom(a, b);
    forall i | 0 <= i < |future| - 1
      ensures Takes(EditAt(b, b.redoPoint + i), FutureAt(future[0], future[1..], i), FutureAt(future[0], future[1..], i + 1))
    {
      assert Takes(EditAt(a, a.redoPoint + (i + 1)), FutureAt(text, future, i + 1), FutureAt(text, future, i + 2));
    }
  }

  /** Redo moves one text from the future to the present, and the present one to the past; there
      is always room for it. */
  lemma {:induction false} RedoLeads(a: Arena, past: seq<Text>, text: Text, future: seq<Text>)
    requires LeadsBack(a, past, text) && LeadsOn(a, text, future) && a.redoPoint < STATES
    ensures Ready(a.recs[a.redoPoint], text)
    ensures var r := Redo(a, text);
      && r.text == future[0] && 0 <= r.cursor <= |r.text|
      && LeadsBack(r.arena, past + [text], r.text) && LeadsOn(r.arena, r.text, future[1..])
  {
    RedoResult(a, text, future);
    hide Redo, UndoTiled, RedoTiled, Kept, RoomToRedo, Takes;
    RedoMoves(a, text, future);
    NextIsReady(a, text, future);
    var r, b := a.recs[a.redoPoint], Redo(a, text).arena;
    InverseTakesBack(EditAt(a, a.redoPoint), text, future[0]);
    PushedLeadsBack(a, b, b.recs[a.undoPoint], text[r.where..r.where + r.deleteLength], past, text, future[0]);
    TakenLeadsOn(a, b, text, future);
  }

  // ----- redo from any record that can be carried out

  /** The characters of the record are in the array. */
  ghost predicate InArray(r: Rec) {
    r.insertLength == 0 || (0 <= r.charStorage && r.charStorage + r.insertLength <= CHARS)
  }

  /** There is nothing to redo, or the next record lies in the text and in the array, takes the
      redo point no further than its end, and leaves room for its undo record. */
  ghost predicate RedoWorks(a: Arena, t: Text) {
    RedoFormed(a) &&
    (a.redoPoint == STATES ||
     (var r := a.recs[a.redoPoint];
      && Ready(r, t) && InArray(r) && a.redoCharPoint + r.insertLength <= CHARS
      && (r.deleteLength == 0 || a.undoCharPoint + r.deleteLength <= a.redoCharPoint)))
  }

  /** The next record lies in the text and in the array, which is all it takes to carry it out. */
  ghost predicate RedoReads(a: Arena, t: Text) {
    RedoFormed(a) && (a.redoPoint == STATES || (Ready(a.recs[a.redoPoint], t) && InArray(a.recs[a.redoPoint])))
  }

  /** The text a redo comes to. */
  ghost function Redone(a: Arena, t: Text): Text
    requires RedoReads(a, t)
  {
    Redo(a, t).text
  }

  lemma {:induction false} RedoInText(a: Arena, t: Text)
    requires RedoReads(a, t) && a.redoPoint < STATES
    ensures var res, r := Redo(a, t), a.recs[a.redoPoint]; res.cursor == r.where + r.insertLength && 0 <= res.cursor <= |res.text|
  {
    hide Kept;
    InArrayKept(WithUndoRecord(a, a.recs[a.redoPoint], t), a.recs[a.redoPoint]);
  }

  lemma {:induction false} InArrayKept(a: Arena, r: Rec)
    requires |a.chars| == CHARS && Formed(r) && InArray(r)
    ensures |Kept(a, r)| == r.insertLength
  {
  }

  /** Such a redo adds the current text to the past, whatever text the record leads to. */
  lemma {:induction false} RedoStepsOn(a: Arena, past: seq<Text>, text: Text)
    requires LeadsBack(a, past, text) && RedoWorks(a, text) && a.redoPoint < STATES
    ensures var r := Redo(a, text);
      && LeadsBack(r.arena, past + [text], r.text) && RedoFormed(r.arena) && 0 <= r.cursor <= |r.text|
  {
    hide Off, Takes, Kept, UndoTiled;
    var r, res := a.recs[a.redoPoint], Redo(a, text);
    var b, saved := WithUndoRecord(a, r, text), text[r.where..r.where + r.deleteLength];
    InArrayKept(b, r);
    TakesApply(Edit(r.where, Kept(b, r), r.deleteLength), text);
    InverseTakesBack(Edit(r.where, Kept(b, r), r.deleteLength), text, res.text);
    InverseIs(Edit(r.where, Kept(b, r), r.deleteLength), text);
    PushedLeadsBack(a, res.arena, res.arena.recs[a.undoPoint], saved, past, text, res.text);
  }

  /** Where room is missing for what redo deletes, the undo record made for it leads back only if
      nothing was changed. */
  lemma {:induction false} RedoWithoutRoom(a: Arena, past: seq<Text>, text: Text)
    requires LeadsBack(a, past, text) && RedoFormed(a) && a.redoPoint < STATES && Ready(a.recs[a.redoPoint], text)
    requires var r := a.recs[a.redoPoint];
      && InArray(r) && a.redoCharPoint + r.insertLength <= CHARS
      && 0 < r.deleteLength && a.redoCharPoint < a.undoCharPoint + r.deleteLength
    ensures LeadsBack(Redo(a, text).arena, past + [text], Redo(a, text).text) <==> Redo(a, text).text == text
  {
    hide Off, Takes, UndoTiled;
    var r, res := a.recs[a.redoPoint], Redo(a, text);
    InArrayKept(a, r);
    NothingSaved(a, res.arena, past, text, res.text);
    if res.text == text {
      PushedLeadsBack(a, res.arena, res.arena.recs[a.undoPoint], [], past, text, res.text);
    }
  }

  lemma {:induction false} NothingSaved(a: Arena, b: Arena, past: seq<Text>, text: Text, text': Text)
    requires InBounds(a) && a.undoPoint == |past| < STATES && |b.recs| == STATES
    requires var r := b.recs[a.undoPoint]; 0 <= r.where <= |text'| && r == Rec(r.where, 0, 0, -1)
    ensures Takes(EditAt(b, a.undoPoint), text', text) <==> text' == text
    ensures LeadsBack(b, past + [text], text') ==> text' == text
  {
    var e := EditAt(b, a.undoPoint);
    assert e == Edit(e.where, [], 0) && Apply(e, text') == text';
    if LeadsBack(b, past + [text], text') {
      assert Takes(EditAt(b, |past|), PastAt(past + [text], text', |past| + 1), (past + [text])[|past|]);
    }
  }

  // ----- exactly when undo is exact

  /** The edits on the undo side, oldest first, and on the redo side, next first. */
  ghost function UndoEdits(a: Arena): (r: seq<Edit>)
    requires |a.recs| == STATES && 0 <= a.undoPoint <= STATES
    ensures |r| == a.undoPoint && forall i :: 0 <= i < |r| ==> r[i] == EditAt(a, i)
  {
    seq(a.undoPoint, i requires 0 <= i < a.undoPoint => EditAt(a, i))
  }

  ghost function RedoEdits(a: Arena): (r: seq<Edit>)
    requires |a.recs| == STATES && 0 <= a.redoPoint <= STATES
    ensures |r| == STATES - a.redoPoint && forall i :: 0 <= i < |r| ==> r[i] == EditAt(a, a.redoPoint + i)
  {
    seq(STATES - a.redoPoint, i requires 0 <= i < STATES - a.redoPoint => EditAt(a, a.redoPoint + i))
  }

  /** Undo would have to drop redo records to make room. */
  ghost predicate UndoDiscards(a: Arena)
    requires InBounds(a) && 0 < a.undoPoint
  {
    var d := a.recs[a.undoPoint - 1].deleteLength;
    0 < d && a.undoCharPoint + d < CHARS && a.redoCharPoint < a.undoCharPoint + d
  }

  /** Undo forgets what it deletes: not even an empty redo side has room for it. */
  ghost predicate UndoForgets(a: Arena)
    requires InBounds(a) && 0 < a.undoPoint
  {
    var d := a.recs[a.undoPoint - 1].deleteLength;
    0 < d && CHARS <= a.undoCharPoint + d
  }

  /** No redo record keeps its characters below the redo point. */
  ghost predicate NoneBelow(a: Arena) {
    RedoFormed(a) &&
    forall i :: a.redoPoint <= i < STATES && 0 <= a.recs[i].charStorage ==> a.redoCharPoint <= a.recs[i].charStorage
  }

  lemma {:induction false} TiledNoneBelow(a: Arena)
    requires RedoTiled(a)
    ensures NoneBelow(a)
  {
    forall i | a.redoPoint <= i < STATES && 0 <= a.recs[i].charStorage ensures a.redoCharPoint <= a.recs[i].charStorage {
      RedoKept(a, i);
    }
  }

  lemma {:induction false} DiscardDropsRecords(a: Arena, past: seq<Text>, text: Text)
    requires LeadsBack(a, past, text) && UndoWorks(a) && 0 < a.undoPoint && UndoDiscards(a)
    ensures Ready(a.recs[a.undoPoint - 1], text)
    ensures a.redoPoint <= Undo(a, text).arena.redoPoint < STATES
  {
    hide Takes, Off, MakeRedoRoom, RoomFor, UndoTiled;
    TopIsReady(a, past, text);
    var u := a.recs[a.undoPoint - 1];
    SlotKeepsRoom(a, u, u.deleteLength);
    RoomMadeIff(SlotFilled(a, u), u.deleteLength);
    RoomDrops(SlotFilled(a, u), u.deleteLength);
  }

  lemma RoomDrops(a: Arena, n: int)
    requires RedoFormed(a) && a.redoCharPoint < a.undoCharPoint + n && MakeRedoRoom(a, n).Made?
    ensures a.redoPoint < STATES && a.redoPoint < MakeRedoRoom(a, n).arena.redoPoint
  {
  }

  lemma {:induction false} ForgottenIsEmpty(a: Arena, past: seq<Text>, text: Text)
    requires LeadsBack(a, past, text) && RedoFormed(a) && 0 < a.undoPoint && UndoForgets(a)
    ensures UndoWorks(a) && Ready(a.recs[a.undoPoint - 1], text)
    ensures var b := Undo(a, text).arena; b.redoPoint == a.redoPoint - 1 && EditAt(b, b.redoPoint).ins == []
    ensures RedoTiled(a) ==> RedoTiled(Undo(a, text).arena)
  {
    hide Takes, Off, Tail;
    TopIsReady(a, past, text);
    var b := Undo(a, text).arena;
    if RedoTiled(a) { FrontTiled(a, b, b.recs[b.redoPoint], []); }
  }

  /** Undo turns the newest undo edit into its inverse on the redo side, and leaves all others as
      they are, exactly when it fits.  Otherwise the redo record has lost its text, or it was
      written over with lengths and a place that are not its own. */
  lemma {:induction false} UndoExactIff(a: Arena, past: seq<Text>, text: Text)
    requires LeadsBack(a, past, text) && UndoWorks(a) && NoneBelow(a) && 0 < a.undoPoint
    ensures Ready(a.recs[a.undoPoint - 1], text)
    ensures var b := Undo(a, text).arena;
      && UndoEdits(b) == UndoEdits(a)[..a.undoPoint - 1]
      && (RedoEdits(b) == [Inverse(EditAt(a, a.undoPoint - 1), text)] + RedoEdits(a) <==> UndoFits(a))
  {
    UndoEditsPopped(a, past, text);
    hide Undo, Takes, Off, Tail, Kept, UndoTiled, CanKeep, NoneBelow;
    TopIsReady(a, past, text);
    var b := Undo(a, text).arena;
    var inverse := Inverse(EditAt(a, a.undoPoint - 1), text);
    if UndoFits(a) {
      FittingRedoEdits(a, past, text);
    } else if UndoForgets(a) {
      ForgottenIsEmpty(a, past, text);
      assert RedoEdits(b)[0] == EditAt(b, b.redoPoint);
      assert |inverse.ins| == a.recs[a.undoPoint - 1].deleteLength;
    } else {
      DiscardDropsRecords(a, past, text);
      assert |RedoEdits(b)| < |[inverse] + RedoEdits(a)|;
    }
  }

  lemma {:induction false} UndoEditsPopped(a: Arena, past: seq<Text>, text: Text)
    requires LeadsBack(a, past, text) && UndoWorks(a) && 0 < a.undoPoint
    ensures Ready(a.recs[a.undoPoint - 1], text)
    ensures UndoEdits(Undo(a, text).arena) == UndoEdits(a)[..a.undoPoint - 1]
  {
    hide WithRedoRecord, Off, Takes, CanKeep, KeptAt;
    UndoLeadsBack(a, past, text);
    TopIsReady(a, past, text);
    var u, r := a.recs[a.undoPoint - 1], Undo(a, text).arena;
    var b := WithRedoRecord(a, u, text);
    RedoRecordKeepsUndo(a, u, text);
    PrefixSame(a.chars, b.chars, a.undoCharPoint, r.undoCharPoint);
    forall i: nat | i < a.undoPoint - 1 ensures EditAt(r, i) == EditAt(a, i) {
      AgreeingEdit(a, r, a.undoPoint - 1, i);
    }
  }

  lemma {:induction false} FittingRedoEdits(a: Arena, past: seq<Text>, text: Text)
    requires LeadsBack(a, past, text) && NoneBelow(a) && 0 < a.undoPoint && UndoFits(a)
    ensures UndoWorks(a) && Ready(a.recs[a.undoPoint - 1], text)
    ensures FitsIn(EditAt(a, a.undoPoint - 1), text)
    ensures RedoEdits(Undo(a, text).arena) == [Inverse(EditAt(a, a.undoPoint - 1), text)] + RedoEdits(a)
    ensures RedoTiled(a) ==> RedoTiled(Undo(a, text).arena)
  {
    hide Undo, Off, Tail, Kept, KeptAt, Apply, Inverse, RedoEdits;
    TopIsReady(a, past, text);
    UndoPutsInFront(a, past, text);
    var u, b := a.recs[a.undoPoint - 1], Undo(a, text).arena;
    var saved := text[u.where..u.where + u.deleteLength];
    FrontEdits(a, b, b.recs[a.redoPoint - 1], saved);
    if RedoTiled(a) { FrontTiled(a, b, b.recs[a.redoPoint - 1], saved); }
  }

  /** The record put in front adds its edit in front, and leaves the others as they are. */
  lemma {:induction false} FrontEdits(a: Arena, b: Arena, r: Rec, kept: Text)
    requires NoneBelow(a) && PutInFront(a, b, r, kept)
    ensures RedoEdits(b) == [Edit(r.where, kept, r.deleteLength)] + RedoEdits(a)
  {
    hide Kept, EditAt;
    FrontFirst(a, b, r, kept);
    forall i: nat | a.redoPoint <= i < STATES ensures EditAt(b, i) == EditAt(a, i) {
      FrontRest(a, b, r, kept, i);
    }
    var left, right := RedoEdits(b), [Edit(r.where, kept, r.deleteLength)] + RedoEdits(a);
    forall i | 0 <= i < |left| ensures left[i] == right[i] {
      if 0 < i { assert left[i] == EditAt(b, b.redoPoint + i) == EditAt(a, a.redoPoint + (i - 1)); }
    }
  }

  lemma FrontFirst(a: Arena, b: Arena, r: Rec, kept: Text)
    requires PutInFront(a, b, r, kept)
    ensures EditAt(b, b.redoPoint) == Edit(r.where, kept, r.deleteLength)
  {
  }

  lemma {:induction false} FrontRest(a: Arena, b: Arena, r: Rec, kept: Text, i: nat)
    requires NoneBelow(a) && PutInFront(a, b, r, kept) && a.redoPoint <= i < STATES
    ensures EditAt(b, i) == EditAt(a, i)
  {
    var s := a.recs[i];
    if 0 <= s.charStorage && s.charStorage + s.insertLength <= CHARS {
      assert a.chars[a.redoCharPoint..CHARS] == b.chars[a.redoCharPoint..CHARS];
      SameKept(a, b, s, a.redoCharPoint, CHARS);
    }
  }

  /** Undo never puts characters of redo records below the redo point. */
  lemma {:induction false} UndoNoneBelow(a: Arena, past: seq<Text>, text: Text)
    requires LeadsBack(a, past, text) && UndoWorks(a) && NoneBelow(a) && 0 < a.undoPoint
    ensures Ready(a.recs[a.undoPoint - 1], text) && NoneBelow(Undo(a, text).arena)
  {
    hide Takes, Off, MakeRedoRoom, RoomFor, UndoTiled, KeptAt, Formed;
    TopIsReady(a, past, text);
    UndoLeadsBack(a, past, text);
    var u := a.recs[a.undoPoint - 1];
    var d, b := u.deleteLength, SlotFilled(a, u);
    if d != 0 && a.undoCharPoint + d < CHARS {
      SlotKeepsRoom(a, u, d);
      RoomMadeIff(b, d);
      RoomNoneBelow(b, d);
    }
  }

  lemma {:induction false} RoomNoneBelow(a: Arena, n: int)
    requires NoneBelow(a) && MakeRedoRoom(a, n).Made?
    ensures NoneBelow(MakeRedoRoom(a, n).arena)
    decreases STATES - a.redoPoint
  {
    if a.redoCharPoint < a.undoCharPoint + n {
      hide DiscardRedo, Formed;
      DiscardRedoRecs(a);
      RoomNoneBelow(DiscardRedo(a), n);
    }
  }

  // ----- what a discarding undo leaves behind

  /** Same place and lengths; only where the characters are kept may differ. */
  ghost predicate SameShape(r: Rec, s: Rec) {
    r.where == s.where && r.insertLength == s.insertLength && r.deleteLength == s.deleteLength
  }

  lemma {:induction false} DiscardKeepsFirst(a: Arena)
    requires RedoFormed(a) && a.redoPoint < STATES && Held(a.recs[STATES - 1]) <= CHARS - a.redoCharPoint
    ensures var d := DiscardRedo(a);
      && SameShape(d.recs[d.redoPoint - 1], a.recs[a.redoPoint])
      && (d.redoPoint < STATES ==> SameShape(d.recs[d.redoPoint], a.recs[a.redoPoint]))
  {
    DiscardRedoRecs(a);
  }

  lemma {:induction false} RoomKeepsFirst(a: Arena, n: int)
    requires RedoFormed(a) && a.redoCharPoint < a.undoCharPoint + n && MakeRedoRoom(a, n).Made?
    ensures var m := MakeRedoRoom(a, n).arena;
      a.redoPoint < m.redoPoint && SameShape(m.recs[m.redoPoint - 1], a.recs[a.redoPoint])
    decreases STATES - a.redoPoint
  {
    hide DiscardRedo;
    DiscardRedoRecs(a);
    DiscardKeepsFirst(a);
    var d := DiscardRedo(a);
    if d.redoCharPoint < d.undoCharPoint + n {
      RoomKeepsFirst(d, n);
    }
  }

  /** When undo drops redo records to make room, the record it leaves for redo has the place and
      the lengths of what was the next redo record before, not those of the edit undone; only where
      its characters are, and which they are, is its own. */
  lemma {:induction false} DiscardWritesOver(a: Arena, past: seq<Text>, text: Text)
    requires LeadsBack(a, past, text) && UndoWorks(a) && 0 < a.undoPoint && UndoDiscards(a)
    ensures a.redoPoint < STATES && Ready(a.recs[a.undoPoint - 1], text)
    ensures var b, u := Undo(a, text).arena, a.recs[a.undoPoint - 1];
      && b.redoPoint < STATES && SameShape(b.recs[b.redoPoint], a.recs[a.redoPoint])
      && b.recs[b.redoPoint].charStorage == b.redoCharPoint && b.redoCharPoint + u.deleteLength <= CHARS
      && b.chars[b.redoCharPoint..b.redoCharPoint + u.deleteLength] == text[u.where..u.where + u.deleteLength]
      && InBounds(a) && FewestFreed(a, u.deleteLength, STATES - (b.redoPoint + 1 - a.redoPoint))
  {
    hide Takes, Off, MakeRedoRoom, Kept, RoomFor, UndoTiled, Formed, Put, FewestFreed;
    TopIsReady(a, past, text);
    var u := a.recs[a.undoPoint - 1];
    SlotKeepsRoom(a, u, u.deleteLength);
    RoomMadeIff(SlotFilled(a, u), u.deleteLength);
    RoomDrops(SlotFilled(a, u), u.deleteLength);
    RoomKeepsFirst(SlotFilled(a, u), u.deleteLength);
    var m, saved := MakeRedoRoom(SlotFilled(a, u), u.deleteLength).arena, text[u.where..u.where + u.deleteLength];
    PutIsThere(m.chars, m.redoCharPoint - |saved|, saved);
    RedoRoomDropsFewest(SlotFilled(a, u), u.deleteLength);
    SlotKeepsFewest(a, u, u.deleteLength, STATES - (m.redoPoint - a.redoPoint));
  }

  lemma PutIsThere(cs: seq<char>, at: int, s: seq<char>)
    requires 0 <= at && at + |s| <= |cs|
    ensures Put(cs, at, s)[at..at + |s|] == s
  {
  }

  /** Dropping the oldest redo record keeps what all the others mean. */
  lemma {:induction false} DiscardKeepsEdits(a: Arena)
    requires RedoTiled(a) && a.redoPoint < STATES
    ensures 0 <= Held(a.recs[STATES - 1]) <= CHARS - a.redoCharPoint
    ensures RedoEdits(DiscardRedo(a)) == RedoEdits(a)[..STATES - 1 - a.redoPoint]
  {
    hide DiscardRedo, Tail, KeptAt, EditAt, RedoEdits;
    TiledIsFormed(a);
    LastHeld(a);
    DiscardRedoRecs(a);
    forall i: nat | a.redoPoint <= i < STATES - 1 ensures EditAt(DiscardRedo(a), i + 1) == EditAt(a, i) {
      DiscardKeepsEdit(a, i);
    }
    var left, right := RedoEdits(DiscardRedo(a)), RedoEdits(a)[..STATES - 1 - a.redoPoint];
    forall k | 0 <= k < |left| ensures left[k] == right[k] {
      assert left[k] == EditAt(DiscardRedo(a), a.redoPoint + 1 + k);
    }
  }

  lemma {:induction false} DiscardKeepsEdit(a: Arena, i: nat)
    requires RedoTiled(a) && a.redoPoint <= i < STATES - 1
    ensures 0 <= Held(a.recs[STATES - 1]) <= CHARS - a.redoCharPoint
    ensures EditAt(DiscardRedo(a), i + 1) == EditAt(a, i)
  {
    hide DiscardRedo, Kept;
    TiledIsFormed(a);
    LastHeld(a);
    DiscardRedoRecs(a);
    RedoKept(a, i);
    TailShrinks(a.recs, i + 1, STATES - 1);
    assert Tail(a.recs, STATES - 1) == a.recs[STATES - 1].insertLength + Tail(a.recs, STATES);
    DiscardedRedoKept(a, a.recs[i]);
  }

  lemma {:induction false} DiscardedRedoKept(a: Arena, r: Rec)
    requires InBounds(a) && a.redoPoint < STATES && 0 <= Held(a.recs[STATES - 1]) <= CHARS - a.redoCharPoint
    requires 0 <= r.insertLength
    requires r.charStorage == -1
      || (a.redoCharPoint <= r.charStorage && r.charStorage + r.insertLength <= CHARS - Held(a.recs[STATES - 1]))
    ensures Kept(DiscardRedo(a), Shifted(r, Held(a.recs[STATES - 1]))) == Kept(a, r)
  {
    hide AllShifted;
    var n := Held(a.recs[STATES - 1]);
    if r.charStorage != -1 {
      var c, at, len := DiscardRedo(a).chars, r.charStorage, r.insertLength;
      var moved, kept := c[at + n..at + n + len], a.chars[at..at + len];
      forall i | 0 <= i < len ensures moved[i] == kept[i] {
        assert c[at + n + i] == a.chars[at + i];
      }
    }
  }

  /** Making room drops some of the last redo edits, and keeps what the others mean. */
  lemma {:induction false} RoomKeepsEdits(a: Arena, n: int)
    requires RedoTiled(a) && a.undoCharPoint + n <= CHARS
    ensures RedoFormed(a) && MakeRedoRoom(a, n).Made?
    ensures var m := MakeRedoRoom(a, n).arena; RedoEdits(m) == RedoEdits(a)[..STATES - m.redoPoint]
    decreases STATES - a.redoPoint
  {
    hide DiscardRedo, Tail, KeptAt, EditAt, RedoEdits;
    RoomOnTiled(a, n);
    if a.redoCharPoint < a.undoCharPoint + n {
      NothingBehind(a);
      LastHeld(a);
      DiscardRedoRecs(a);
      DiscardRedoTiled(a);
      DiscardKeepsEdits(a);
      RoomKeepsEdits(DiscardRedo(a), n);
    }
  }

  lemma NothingBehind(a: Arena)
    requires RedoTiled(a)
    ensures a.redoPoint == STATES ==> a.redoCharPoint == CHARS
  {
  }

  /** Saving characters in front keeps what the records behind mean. */
  lemma {:induction false} SavedKeepsEdits(m: Arena, r: Arena, saved: Text)
    requires NoneBelow(m) && 0 < m.redoPoint && m.undoCharPoint + |saved| <= m.redoCharPoint
    requires |r.recs| == STATES && r.redoPoint == m.redoPoint - 1
    requires var w := SavedForRedo(m, saved); r.recs == w.recs && r.chars == w.chars
    ensures RedoEdits(r)[1..] == RedoEdits(m)
  {
    hide Put, EditAt;
    PutLeavesRest(m.chars, m.redoCharPoint - |saved|, saved, m.redoCharPoint);
    forall i: nat | m.redoPoint <= i < STATES ensures EditAt(r, i) == EditAt(m, i) {
      AboveSame(m, r, i);
    }
    var left, right := RedoEdits(r)[1..], RedoEdits(m);
    forall k | 0 <= k < |left| ensures left[k] == right[k] {
      assert left[k] == EditAt(r, r.redoPoint + (k + 1)) == EditAt(m, m.redoPoint + k);
    }
  }

  lemma {:induction false} AboveSame(m: Arena, r: Arena, i: nat)
    requires NoneBelow(m) && m.redoPoint <= i < STATES && |r.recs| == STATES && |r.chars| == CHARS
    requires r.recs[i] == m.recs[i] && r.chars[m.redoCharPoint..CHARS] == m.chars[m.redoCharPoint..CHARS]
    ensures EditAt(r, i) == EditAt(m, i)
  {
    var s := m.recs[i];
    if 0 <= s.charStorage && s.charStorage + s.insertLength <= CHARS {
      SameKept(m, r, s, m.redoCharPoint, CHARS);
    }
  }

  /** All in all a discarding undo keeps the newest of the redo edits, gives the record in front of
      them the deleted characters, and the place and lengths of the next redo edit before. */
  lemma {:induction false} DiscardLeaves(a: Arena, past: seq<Text>, text: Text)
    requires LeadsBack(a, past, text) && RedoTiled(a) && 0 < a.undoPoint && UndoDiscards(a)
    ensures UndoWorks(a) && a.redoPoint < STATES && Ready(a.recs[a.undoPoint - 1], text)
    ensures var b, u := Undo(a, text).arena, a.recs[a.undoPoint - 1];
      && a.redoPoint <= b.redoPoint < STATES && UndoEdits(b) == UndoEdits(a)[..a.undoPoint - 1]
      && RedoEdits(b)[1..] == RedoEdits(a)[..STATES - 1 - b.redoPoint]
      && SameShape(b.recs[b.redoPoint], a.recs[a.redoPoint]) && b.recs[b.redoPoint].charStorage == b.redoCharPoint
      && b.redoCharPoint + u.deleteLength <= CHARS
      && b.chars[b.redoCharPoint..b.redoCharPoint + u.deleteLength] == text[u.where..u.where + u.deleteLength]
      && FewestFreed(a, u.deleteLength, STATES - (b.redoPoint + 1 - a.redoPoint))
  {
    hide FewestFreed, WithRedoRecord, Takes, Off, Tail, Kept, KeptAt, UndoTiled, MakeRedoRoom, RoomFor, EditAt, UndoEdits, RedoEdits, SameShape;
    TiledIsFormed(a);
    TiledWorks(a);
    TopIsReady(a, past, text);
    UndoEditsPopped(a, past, text);
    DiscardWritesOver(a, past, text);
    DiscardDropsRecords(a, past, text);
    DiscardedEdits(a, a.recs[a.undoPoint - 1], Undo(a, text).arena, text);
  }

  lemma {:induction false} DiscardedEdits(a: Arena, u: Rec, b: Arena, t: Text)
    requires RedoTiled(a) && 0 < a.undoPoint && Ready(u, t) && CanKeep(a, u.deleteLength) && RedoFormed(a)
    requires 0 < u.deleteLength && a.undoCharPoint + u.deleteLength < CHARS && a.redoCharPoint < a.undoCharPoint + u.deleteLength
    requires var w := WithRedoRecord(a, u, t); b.recs == w.recs && b.chars == w.chars && b.redoPoint == w.redoPoint - 1
    ensures |b.recs| == STATES && a.redoPoint <= b.redoPoint < STATES
    ensures RedoEdits(b)[1..] == RedoEdits(a)[..STATES - 1 - b.redoPoint]
  {
    hide Tail, Kept, KeptAt, EditAt, RedoEdits, MakeRedoRoom, RoomFor, NoneBelow;
    var s, d := SlotFilled(a, u), u.deleteLength;
    SlotTiled(a, Rec(u.where, d, u.insertLength, -1));
    SlotKeepsRoom(a, u, d);
    RoomMadeIff(s, d);
    RoomOnTiled(s, d);
    RoomDrops(s, d);
    RoomKeepsEdits(s, d);
    var m := MakeRedoRoom(s, d).arena;
    TiledNoneBelow(m);
    SavedKeepsEdits(m, b, t[u.where..u.where + d]);
    SlotKeepsEdits(a, u);
  }

  lemma {:induction false} SlotKeepsEdits(a: Arena, u: Rec)
    requires InBounds(a) && 0 < a.redoPoint
    ensures RedoEdits(SlotFilled(a, u)) == RedoEdits(a)
  {
    forall i: nat | a.redoPoint <= i < STATES ensures EditAt(SlotFilled(a, u), i) == EditAt(a, i) {
    }
  }

  /** The redo side stays tiled exactly when the record written over was as long as the one to be kept. */
  lemma {:induction false} DiscardTiledIff(a: Arena, past: seq<Text>, text: Text)
    requires LeadsBack(a, past, text) && RedoTiled(a) && 0 < a.undoPoint && UndoDiscards(a)
    ensures UndoWorks(a) && a.redoPoint < STATES && Ready(a.recs[a.undoPoint - 1], text)
    ensures RedoTiled(Undo(a, text).arena)
       <==> a.recs[a.redoPoint].insertLength == a.recs[a.undoPoint - 1].deleteLength
  {
    hide Takes, Off, Tail, Kept, UndoTiled, MakeRedoRoom;
    TopIsReady(a, past, text);
    TiledIsFormed(a);
    TiledWorks(a);
    UndoLeadsBack(a, past, text);
    DiscardWritesOver(a, past, text);
    var u := a.recs[a.undoPoint - 1];
    SlotTiled(a, Rec(u.where, u.deleteLength, u.insertLength, -1));
    RoomOnTiled(SlotFilled(a, u), u.deleteLength);
    SavedTiledIff(MakeRedoRoom(SlotFilled(a, u), u.deleteLength).arena, Undo(a, text).arena, text[u.where..u.where + u.deleteLength]);
  }

  lemma {:induction false} SavedTiledIff(m: Arena, r: Arena, saved: Text)
    requires RedoTiled(m) && 0 < m.redoPoint && m.undoCharPoint + |saved| <= m.redoCharPoint && saved != []
    requires InBounds(r) && r.redoPoint == m.redoPoint - 1 && Formed(r.recs[r.redoPoint])
    requires var w := SavedForRedo(m, saved); r.recs == w.recs && r.redoCharPoint == w.redoCharPoint
    ensures RedoTiled(r) <==> r.recs[r.redoPoint].insertLength == |saved|
  {
    forall i: nat | m.redoPoint <= i <= STATES ensures Tail(r.recs, i) == Tail(m.recs, i) {
      TailSame(r.recs, m.recs, i);
    }
    assert Tail(r.recs, r.redoPoint) == r.recs[r.redoPoint].insertLength + Tail(m.recs, m.redoPoint);
  }

  // ----- an undo that gives up

  /** The slot for the next redo record is above the undo side, or else undo is bound to find room. */
  ghost predicate SlotFree(a: Arena) {
    RedoTiled(a) || a.undoPoint < a.redoPoint
  }

  /** An undo that gives up loses all redo records and nothing else; the next one will give up, too. */
  lemma {:induction false} GivenUpKeepsPast(a: Arena, past: seq<Text>, text: Text)
    requires LeadsBack(a, past, text) && UndoGivesUp(a) && SlotFree(a)
    ensures 0 < a.undoPoint && Ready(a.recs[a.undoPoint - 1], text) && UndoOutcome(a, text).GivenUp?
    ensures var m := UndoOutcome(a, text).arena;
      LeadsBack(m, past, text) && RedoFormed(m) && SlotFree(m) && m.redoPoint == STATES && UndoGivesUp(m)
  {
    hide RedoTiled, Takes, Off, KeptAt, Formed, MakeRedoRoom;
    if RedoTiled(a) { TiledWorks(a); }
    TopIsReady(a, past, text);
    UndoneIff(a, text);
    var u := a.recs[a.undoPoint - 1];
    var b, m := SlotFilled(a, u), UndoOutcome(a, text).arena;
    assert MakeRedoRoom(b, u.deleteLength) == Short(m);
    MakeRedoRoomKeepsUndo(b, u.deleteLength);
    PrefixSame(a.chars, m.chars, a.redoCharPoint, a.undoCharPoint) by { UpToSame(a.chars, m.chars, a.redoCharPoint, m.redoCharPoint); }
    forall i | 0 <= i < a.undoPoint ensures m.recs[i] == a.recs[i] {
      assert b.recs[..a.redoPoint][i] == m.recs[i];
    }
    PastUntouched(a, m, past, text, a.undoPoint);
    assert past[..a.undoPoint] == past;
    assert HeldFrom(m.recs, STATES) == 0;
  }

  lemma UpToSame(c: seq<char>, d: seq<char>, lo: int, hi: int)
    requires 0 <= lo <= |c| && lo <= hi <= |d| && c[..lo] <= d[..hi]
    ensures c[..lo] == d[..lo]
  {
    assert d[..hi][..lo] == d[..lo];
  }

  lemma {:induction false} UndoKeepsSlotFree(a: Arena, past: seq<Text>, text: Text)
    requires LeadsBack(a, past, text) && UndoWorks(a) && SlotFree(a) && 0 < a.undoPoint
    ensures Ready(a.recs[a.undoPoint - 1], text) && SlotFree(Undo(a, text).arena)
  {
    hide Undo, Off, Tail, KeptAt, CanKeep, Kept;
    UndoLeadsBack(a, past, text);
    UndoPoints(a, past, text);
    if UndoDiscards(a) {
      DiscardDropsRecords(a, past, text);
    } else if RedoTiled(a) {
      TiledNoneBelow(a);
      if UndoFits(a) { FittingRedoEdits(a, past, text); } else { ForgottenIsEmpty(a, past, text); }
    }
  }

  /** Undo takes one record off the undo side, and puts one before the redo side unless it discards. */
  lemma {:induction false} UndoPoints(a: Arena, past: seq<Text>, text: Text)
    requires LeadsBack(a, past, text) && UndoWorks(a) && 0 < a.undoPoint
    ensures Ready(a.recs[a.undoPoint - 1], text)
    ensures var b := Undo(a, text).arena;
      b.undoPoint == a.undoPoint - 1 && (!UndoDiscards(a) ==> b.redoPoint == a.redoPoint - 1)
  {
    hide Takes, Off, RoomFor, UndoTiled, Formed;
    TopIsReady(a, past, text);
    var u := a.recs[a.undoPoint - 1];
    SlotKeepsRoom(a, u, u.deleteLength);
    RoomMadeIff(SlotFilled(a, u), u.deleteLength);
  }

  lemma {:induction false} RedoKeepsSlotFree(a: Arena, text: Text)
    requires RedoWorks(a, text) && SlotFree(a) && a.redoPoint < STATES
    ensures SlotFree(Redo(a, text).arena)
  {
    hide Kept, CarriedOut;
    if RedoTiled(a) {
      var r := a.recs[a.redoPoint];
      if 0 < r.deleteLength {
        PutLeavesRest(a.chars, a.undoCharPoint, text[r.where..r.where + r.deleteLength], a.redoCharPoint);
      }
      TakenTiled(a, Redo(a, text).arena);
    }
  }
}
