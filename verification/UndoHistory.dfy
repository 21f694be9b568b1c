/** What the two arrays mean: the records on the undo side lead back through earlier texts, those
    on the redo side forward again, and the operations move along that history. */
module UndoHistory {
  import opened Edits
  import opened UndoArena

  ghost function EditAt(a: Arena, i: int): Edit
    requires 0 <= i < |a.recs|
  {
    Edit(a.recs[i].where, Kept(a, a.recs[i]), a.recs[i].deleteLength)
  }

  /** The `i`-th text of the past, or the current one after them. */
  ghost function PastAt(past: seq<Text>, text: Text, i: int): Text
    requires 0 <= i <= |past|
  {
    if i < |past| then past[i] else text
  }

  ghost function FutureAt(text: Text, future: seq<Text>, i: int): Text
    requires 0 <= i <= |future|
  {
    if i == 0 then text else future[i - 1]
  }

  /** The undo records lead from the current text back through `past`. */
  ghost predicate LeadsBack(a: Arena, past: seq<Text>, text: Text) {
    && UndoTiled(a) && |past| == a.undoPoint
    && forall i :: 0 <= i < |past| ==> Takes(EditAt(a, i), PastAt(past, text, i + 1), past[i])
  }

  /** The characters deleted by the records `[lo, hi)`. */
  ghost function Dels(recs: seq<Rec>, lo: int, hi: int): int
    requires 0 <= lo && hi <= |recs|
    decreases hi - lo
  {
    if lo >= hi then 0 else Dels(recs, lo, hi - 1) + recs[hi - 1].deleteLength
  }

  /** There is room to save what each redo record will delete, when its turn comes. */
  ghost predicate RoomToRedo(a: Arena)
    requires InBounds(a)
  {
    forall i :: a.redoPoint <= i < STATES ==>
      a.undoCharPoint + Dels(a.recs, a.redoPoint, i + 1) <= CHARS - Tail(a.recs, i)
  }

  /** The redo records lead from the current text on through `future`. */
  ghost predicate LeadsOn(a: Arena, text: Text, future: seq<Text>) {
    && RedoTiled(a) && |future| == STATES - a.redoPoint && RoomToRedo(a)
    && forall i :: 0 <= i < |future| ==>
         Takes(EditAt(a, a.redoPoint + i), FutureAt(text, future, i), FutureAt(text, future, i + 1))
  }

  // ----- where the characters are

  lemma {:induction false} UndoKept(a: Arena, i: nat)
    requires UndoTiled(a) && i < a.undoPoint
    ensures var r := a.recs[i];
      && KeptAt(r, Off(a.recs, i)) && 0 <= Off(a.recs, i) && Off(a.recs, i) + r.insertLength <= a.undoCharPoint
      && |Kept(a, r)| == r.insertLength
  {
    OffGrows(a.recs, 0, i);
    OffGrows(a.recs, i + 1, a.undoPoint);
    assert Off(a.recs, i + 1) == Off(a.recs, i) + a.recs[i].insertLength;
    assert KeptAt(a.recs[i], Off(a.recs, i));
  }

  lemma {:induction false} RedoKept(a: Arena, i: nat)
    requires RedoTiled(a) && a.redoPoint <= i < STATES
    ensures var r := a.recs[i];
      && KeptAt(r, CHARS - Tail(a.recs, i)) && a.redoCharPoint <= CHARS - Tail(a.recs, i)
      && Tail(a.recs, i) == r.insertLength + Tail(a.recs, i + 1) && 0 <= Tail(a.recs, i + 1)
      && |Kept(a, r)| == r.insertLength
  {
    TailShrinks(a.recs, a.redoPoint, i);
    TailShrinks(a.recs, i + 1, STATES);
    assert KeptAt(a.recs[i], CHARS - Tail(a.recs, i));
  }

  /** A record whose characters did not change still means the same edit. */
  lemma {:induction false} SameKept(a: Arena, b: Arena, r: Rec, lo: int, hi: int)
    requires |a.chars| == |b.chars| && 0 <= lo <= hi <= |a.chars| && a.chars[lo..hi] == b.chars[lo..hi]
    requires 0 <= r.insertLength && (r.charStorage == -1 || (lo <= r.charStorage && r.charStorage + r.insertLength <= hi))
    ensures Kept(a, r) == Kept(b, r)
  {
    if r.charStorage != -1 {
      assert a.chars[lo..hi][r.charStorage - lo..r.charStorage - lo + r.insertLength] == Kept(a, r);
      assert b.chars[lo..hi][r.charStorage - lo..r.charStorage - lo + r.insertLength] == Kept(b, r);
    }
  }

  /** `b` agrees with `a` on the first `n` undo records and their characters. */
  ghost predicate UndoSideAgrees(a: Arena, b: Arena, n: nat) {
    && InBounds(a) && InBounds(b) && n <= a.undoPoint && b.undoPoint == n
    && b.undoCharPoint == Off(a.recs, n)
    && (forall i :: 0 <= i < n ==> b.recs[i] == a.recs[i])
    && a.chars[..b.undoCharPoint] == b.chars[..b.undoCharPoint]
  }

  lemma {:induction false} AgreeingTiled(a: Arena, b: Arena, n: nat)
    requires UndoTiled(a) && UndoSideAgrees(a, b, n)
    ensures UndoTiled(b)
  {
    hide Off;
    forall i: nat | i <= n ensures Off(b.recs, i) == Off(a.recs, i) {
      OffSame(b.recs, a.recs, i);
    }
  }

  lemma {:induction false} AgreeingEdit(a: Arena, b: Arena, n: nat, i: nat)
    requires UndoTiled(a) && UndoSideAgrees(a, b, n) && i < n
    ensures EditAt(a, i) == EditAt(b, i)
  {
    UndoKept(a, i);
    BeforeOff(a, i, n);
    SameKept(a, b, a.recs[i], 0, b.undoCharPoint);
  }

  /** The undo side is untouched: the past it leads back to is the same. */
  lemma {:induction false} PastUntouched(a: Arena, b: Arena, past: seq<Text>, text: Text, n: nat)
    requires LeadsBack(a, past, text) && UndoSideAgrees(a, b, n)
    ensures LeadsBack(b, past[..n], PastAt(past, text, n))
  {
    hide Kept, Takes, KeptAt, Off;
    AgreeingTiled(a, b, n);
    forall i | 0 <= i < n ensures Takes(EditAt(b, i), PastAt(past[..n], PastAt(past, text, n), i + 1), past[..n][i]) {
      AgreeingEdit(a, b, n, i);
      assert Takes(EditAt(a, i), PastAt(past, text, i + 1), past[i]);
    }
  }

  lemma OffSame(r: seq<Rec>, s: seq<Rec>, i: nat)
    requires i <= |r| && i <= |s| && forall k :: 0 <= k < i ==> r[k] == s[k]
    ensures Off(r, i) == Off(s, i)
  {
    OffShifted(r, s, i, 0);
  }

  lemma {:induction false} BeforeOff(a: Arena, i: nat, n: nat)
    requires UndoTiled(a) && i < n <= a.undoPoint
    ensures Off(a.recs, i) + a.recs[i].insertLength <= Off(a.recs, n)
  {
    OffGrows(a.recs, i + 1, n);
  }

  // ----- dropping the oldest

  lemma {:induction false} DiscardedEdit(a: Arena, i: nat)
    requires UndoTiled(a) && 0 < a.undoPoint && i + 1 < a.undoPoint
    ensures 0 <= Held(a.recs[0]) <= a.undoCharPoint
    ensures EditAt(DiscardUndo(a), i) == EditAt(a, i + 1)
  {
    hide Off, UndoTiled;
    DiscardUndoTiled(a);
    DiscardUndoRecs(a);
    UndoKept(a, i + 1);
    FirstBefore(a, i + 1);
    DiscardedKept(a, a.recs[i + 1]);
  }

  lemma {:induction false} FirstBefore(a: Arena, i: nat)
    requires UndoTiled(a) && 0 < i < a.undoPoint
    ensures a.recs[0].insertLength <= Off(a.recs, i)
  {
    OffGrows(a.recs, 1, i);
    assert Off(a.recs, 1) == Off(a.recs, 0) + a.recs[0].insertLength;
  }

  lemma {:induction false} DiscardedKept(a: Arena, r: Rec)
    requires InBounds(a) && 0 < a.undoPoint && 0 <= Held(a.recs[0]) <= a.undoCharPoint
    requires 0 <= r.insertLength && r.charStorage + r.insertLength <= a.undoCharPoint
    requires r.charStorage == -1 || Held(a.recs[0]) <= r.charStorage
    ensures Kept(DiscardUndo(a), Shifted(r, -Held(a.recs[0]))) == Kept(a, r)
  {
    hide AllShifted;
    var n := Held(a.recs[0]);
    if r.charStorage != -1 {
      var c, at, len := DiscardUndo(a).chars, r.charStorage, r.insertLength;
      var moved, kept := c[at - n..at - n + len], a.chars[at..at + len];
      forall i | 0 <= i < len ensures moved[i] == kept[i] {
        assert c[at - n + i] == a.chars[at + i];
      }
    }
  }

  /** Dropping the oldest undo record loses the oldest text and nothing else. */
  lemma {:induction false} DiscardLosesOldest(a: Arena, past: seq<Text>, text: Text)
    requires LeadsBack(a, past, text) && 0 < a.undoPoint
    ensures 0 <= Held(a.recs[0]) <= a.undoCharPoint
    ensures LeadsBack(DiscardUndo(a), past[1..], text)
  {
    hide DiscardUndo, Off;
    DiscardUndoTiled(a);
    forall i | 0 <= i < |past| - 1
      ensures Takes(EditAt(DiscardUndo(a), i), PastAt(past[1..], text, i + 1), past[1..][i])
    {
      DiscardedEdit(a, i);
      assert Takes(EditAt(a, i + 1), PastAt(past, text, i + 2), past[i + 1]);
    }
  }

  lemma {:induction false} MakeRoomLosesOldest(a: Arena, past: seq<Text>, text: Text, n: int)
    requires LeadsBack(a, past, text) && 0 <= n <= CHARS
    ensures var r := MakeRoom(a, n); LeadsBack(r, past[|past| - r.undoPoint..], text)
    decreases a.undoPoint
  {
    if a.undoCharPoint + n <= CHARS {
      assert past[0..] == past;
    } else {
      DiscardLosesOldest(a, past, text);
      DiscardUndoTiled(a);
      MakeRoomLosesOldest(DiscardUndo(a), past[1..], text, n);
      var r := MakeRoom(a, n);
      assert past[1..][|past| - 1 - r.undoPoint..] == past[|past| - r.undoPoint..];
    }
  }

  /** Room for a new record is made by forgetting the oldest texts. */
  lemma {:induction false} ClearedLosesOldest(a: Arena, past: seq<Text>, text: Text, n: int)
    requires LeadsBack(a, past, text) && 0 <= n
    ensures var r := Cleared(a, n); r.undoPoint <= |past| && LeadsBack(r, past[|past| - r.undoPoint..], text)
  {
    hide Off, MakeRoom, DiscardUndo, Takes, UndoTiled;
    var f := FlushRedo(a);
    FlushKeepsPast(a, past, text);
    var g, p := f, past;
    if f.undoPoint == STATES {
      DiscardLosesOldest(f, past, text);
      DiscardUndoTiled(f);
      g, p := DiscardUndo(f), past[1..];
    }
    if n <= CHARS {
      MakeRoomLosesOldest(g, p, text, n);
      assert p[|p| - MakeRoom(g, n).undoPoint..] == past[|past| - MakeRoom(g, n).undoPoint..];
    } else {
      NothingLeft(g, text);
    }
  }

  lemma {:induction false} FlushKeepsPast(a: Arena, past: seq<Text>, text: Text)
    requires LeadsBack(a, past, text)
    ensures LeadsBack(FlushRedo(a), past, text)
  {
    PastUntouched(a, FlushRedo(a), past, text, a.undoPoint);
    assert past[..a.undoPoint] == past;
  }

  lemma NothingLeft(a: Arena, text: Text)
    requires UndoTiled(a)
    ensures LeadsBack(a.(undoPoint := 0, undoCharPoint := 0), [], text)
  {
  }

  // ----- recording

  /** The undo side after one more record, for an edit that `e` undoes, was put on top. */
  ghost predicate Pushed(a: Arena, b: Arena, r: Rec, kept: Text) {
    && InBounds(a) && InBounds(b) && a.undoPoint < STATES && b.undoPoint == a.undoPoint + 1
    && KeptAt(r, a.undoCharPoint) && r.insertLength == |kept| && b.undoCharPoint == a.undoCharPoint + |kept|
    && b.recs[a.undoPoint] == r
    && (forall i :: 0 <= i < a.undoPoint ==> b.recs[i] == a.recs[i])
    && b.chars[..a.undoCharPoint] == a.chars[..a.undoCharPoint]
    && b.chars[a.undoCharPoint..b.undoCharPoint] == kept
  }

  lemma {:induction false} PushedTiled(a: Arena, b: Arena, r: Rec, kept: Text)
    requires UndoTiled(a) && Pushed(a, b, r, kept)
    ensures UndoTiled(b) && EditAt(b, a.undoPoint) == Edit(r.where, kept, r.deleteLength)
  {
    hide EditAt, Kept;
    PushedTop(a, b, r, kept);
    forall i: nat | i <= a.undoPoint ensures Off(b.recs, i) == Off(a.recs, i) {
      OffSame(b.recs, a.recs, i);
    }
    assert Off(b.recs, a.undoPoint + 1) == Off(b.recs, a.undoPoint) + |kept|;
    assert KeptAt(b.recs[a.undoPoint], Off(b.recs, a.undoPoint));
  }

  lemma PushedTop(a: Arena, b: Arena, r: Rec, kept: Text)
    requires Pushed(a, b, r, kept)
    ensures EditAt(b, a.undoPoint) == Edit(r.where, kept, r.deleteLength)
  {
  }

  lemma {:induction false} PushedEdit(a: Arena, b: Arena, r: Rec, kept: Text, i: nat)
    requires UndoTiled(a) && Pushed(a, b, r, kept) && i < a.undoPoint
    ensures EditAt(b, i) == EditAt(a, i)
  {
    UndoKept(a, i);
    BeforeOff(a, i, a.undoPoint);
    SameKept(a, b, a.recs[i], 0, a.undoCharPoint);
  }

  /** A record that takes the new text back to the old one adds the old one to the past. */
  lemma {:induction false} PushedLeadsBack(a: Arena, b: Arena, r: Rec, kept: Text, past: seq<Text>, text: Text, text': Text)
    requires LeadsBack(a, past, text) && Pushed(a, b, r, kept)
    requires Takes(Edit(r.where, kept, r.deleteLength), text', text)
    ensures LeadsBack(b, past + [text], text')
  {
    hide Kept, Takes, KeptAt, Off;
    PushedTiled(a, b, r, kept);
    forall i | 0 <= i < |past| + 1
      ensures Takes(EditAt(b, i), PastAt(past + [text], text', i + 1), (past + [text])[i])
    {
      if i < |past| {
        PushedEdit(a, b, r, kept, i);
        assert Takes(EditAt(a, i), PastAt(past, text, i + 1), past[i]);
      }
    }
  }

  lemma EmptyFuture(a: Arena, text: Text)
    requires InBounds(a) && a.redoPoint == STATES && a.redoCharPoint == CHARS
    ensures LeadsOn(a, text, [])
  {
  }

  /** The texts kept when `n` characters are to be recorded: the newest ones there is room for,
      with the current text on top; none at all when the characters alone are too many. */
  ghost function Remembered(a: Arena, past: seq<Text>, text: Text, n: int): seq<Text>
    requires LeadsBack(a, past, text) && 0 <= n
  {
    ClearedLosesOldest(a, past, text, n);
    past[|past| - Cleared(a, n).undoPoint..] + if n <= CHARS then [text] else []
  }

  /** Recording an edit adds the text before it to the past, forgetting the oldest texts if there
      is no room, and forgets the future. */
  lemma {:induction false} RecordedLeads(a: Arena, past: seq<Text>, text: Text, e: Edit)
    requires LeadsBack(a, past, text) && FitsIn(e, text)
    ensures var b := Recorded(a, e.where, text[e.where..e.where + e.del], |e.ins|);
      && LeadsBack(b, Remembered(a, past, text, e.del), Apply(e, text))
      && LeadsOn(b, Apply(e, text), [])
  {
    hide LeadsBack, LeadsOn, Apply, Recorded, Remembered, Takes;
    assert UndoTiled(a) by { PastIsTiled(a, past, text); }
    EmptyFuture(Recorded(a, e.where, text[e.where..e.where + e.del], |e.ins|), Apply(e, text));
    if e.del <= CHARS {
      RecordedKept(a, past, text, e);
    } else {
      RecordedDropped(a, past, text, e);
    }
  }

  lemma PastIsTiled(a: Arena, past: seq<Text>, text: Text)
    requires LeadsBack(a, past, text)
    ensures UndoTiled(a) && InBounds(a) && |past| == a.undoPoint
  {
  }

  lemma {:induction false} RecordedKept(a: Arena, past: seq<Text>, text: Text, e: Edit)
    requires LeadsBack(a, past, text) && FitsIn(e, text) && e.del <= CHARS
    ensures UndoTiled(a)
    ensures LeadsBack(Recorded(a, e.where, text[e.where..e.where + e.del], |e.ins|), Remembered(a, past, text, e.del), Apply(e, text))
  {
    hide Cleared, Recorded, Apply, Takes, Off;
    ClearedLosesOldest(a, past, text, e.del);
    RecordedOnTop(a, past[|past| - Cleared(a, e.del).undoPoint..], text, e);
  }

  lemma {:induction false} RecordedDropped(a: Arena, past: seq<Text>, text: Text, e: Edit)
    requires LeadsBack(a, past, text) && FitsIn(e, text) && CHARS < e.del
    ensures UndoTiled(a)
    ensures LeadsBack(Recorded(a, e.where, text[e.where..e.where + e.del], |e.ins|), Remembered(a, past, text, e.del), Apply(e, text))
  {
    hide Cleared, Recorded, Apply, Takes, Off;
    ClearedLosesOldest(a, past, text, e.del);
    var p := past[|past| - Cleared(a, e.del).undoPoint..];
    assert p == [] && p + [] == p;
    NothingRecorded(a, e.where, text[e.where..e.where + e.del], |e.ins|);
    NothingLeadsBack(Cleared(a, e.del), text, Apply(e, text));
  }

  lemma {:induction false} RecordedOnTop(a: Arena, p: seq<Text>, text: Text, e: Edit)
    requires UndoTiled(a) && FitsIn(e, text) && e.del <= CHARS && LeadsBack(Cleared(a, e.del), p, text)
    ensures LeadsBack(Recorded(a, e.where, text[e.where..e.where + e.del], |e.ins|), p + [text], Apply(e, text))
  {
    hide Cleared, Off, Takes, UndoTiled, Recorded, Apply, LeadsBack;
    var removed := text[e.where..e.where + e.del];
    var c, b := Cleared(a, e.del), Recorded(a, e.where, removed, |e.ins|);
    InverseTakesBack(e, text, Apply(e, text)) by { TakesApply(e, text); }
    RecordedPushes(a, e.where, removed, |e.ins|);
    InverseIs(e, text);
    PushedLeadsBack(c, b, b.recs[c.undoPoint], removed, p, text, Apply(e, text));
  }

  lemma TakesApply(e: Edit, t: Text)
    requires FitsIn(e, t)
    ensures Takes(e, t, Apply(e, t))
  {
  }

  lemma InverseIs(e: Edit, t: Text)
    requires FitsIn(e, t)
    ensures Inverse(e, t) == Edit(e.where, t[e.where..e.where + e.del], |e.ins|)
  {
  }

  lemma NothingRecorded(a: Arena, where: int, removed: Text, inserted: int)
    requires UndoTiled(a) && CHARS < |removed|
    ensures Recorded(a, where, removed, inserted) == Cleared(a, |removed|)
  {
  }

  lemma NothingLeadsBack(a: Arena, text: Text, text': Text)
    requires LeadsBack(a, [], text)
    ensures LeadsBack(a, [], text')
  {
  }

  lemma {:induction false} RecordedPushes(a: Arena, where: int, removed: Text, inserted: int)
    requires UndoTiled(a) && |removed| <= CHARS && 0 <= where && 0 <= inserted
    ensures var c, b := Cleared(a, |removed|), Recorded(a, where, removed, inserted);
      && c.undoPoint < STATES
      && b.recs[c.undoPoint].where == where && b.recs[c.undoPoint].deleteLength == inserted
      && Pushed(c, b, b.recs[c.undoPoint], removed)
  {
  }

  // ----- undo

  /** There is room to save what undo is about to delete, without dropping redo records. */
  ghost predicate UndoFits(a: Arena)
    requires InBounds(a) && 0 < a.undoPoint
  {
    var d := a.recs[a.undoPoint - 1].deleteLength;
    d == 0 || (a.undoCharPoint + d < CHARS && a.undoCharPoint + d <= a.redoCharPoint)
  }

  lemma FitsWorks(a: Arena)
    requires RedoFormed(a) && 0 < a.undoPoint && UndoFits(a)
    ensures UndoWorks(a)
  {
    assert HeldFrom(a.recs, STATES) == 0;
    var d := a.recs[a.undoPoint - 1].deleteLength;
    assert d == 0 || Frees(a, d, STATES);
  }

  /** On a tiled redo side undo always works. */
  lemma TiledWorks(a: Arena)
    requires RedoTiled(a)
    ensures UndoWorks(a)
  {
    if 0 < a.undoPoint && a.undoCharPoint + a.recs[a.undoPoint - 1].deleteLength < CHARS {
      TiledHasRoom(a, a.recs[a.undoPoint - 1].deleteLength);
    }
  }

  /** Making room on the redo side leaves what is below it alone. */
  lemma {:induction false} DiscardRedoKeepsUndo(a: Arena)
    requires RedoFormed(a) && a.redoPoint < STATES && Held(a.recs[STATES - 1]) <= CHARS - a.redoCharPoint
    ensures a.recs[..a.redoPoint] <= DiscardRedo(a).recs[..a.redoPoint + 1]
    ensures a.chars[..a.redoCharPoint] <= DiscardRedo(a).chars[..DiscardRedo(a).redoCharPoint]
  {
    DiscardRedoRecs(a);
  }

  lemma {:induction false} MakeRedoRoomKeepsUndo(a: Arena, n: int)
    requires RedoFormed(a) && !MakeRedoRoom(a, n).Overrun?
    ensures var m := MakeRedoRoom(a, n).arena;
      && a.recs[..a.redoPoint] <= m.recs
      && a.chars[..a.redoCharPoint] <= m.chars[..m.redoCharPoint]
    decreases STATES - a.redoPoint
  {
    if a.redoCharPoint < a.undoCharPoint + n && a.redoPoint < STATES {
      hide DiscardRedo, Formed;
      DiscardRedoRecs(a);
      DiscardRedoKeepsUndo(a);
      MakeRedoRoomKeepsUndo(DiscardRedo(a), n);
    }
  }

  /** Making the redo record touches nothing the remaining undo records, or the one being
      carried out, rely on. */
  lemma {:induction false} RedoRecordKeepsUndo(a: Arena, u: Rec, t: Text)
    requires RedoFormed(a) && Ready(u, t) && 0 < a.undoPoint && CanKeep(a, u.deleteLength)
    ensures var b := WithRedoRecord(a, u, t);
      && (forall i :: 0 <= i < a.undoPoint - 1 ==> b.recs[i] == a.recs[i])
      && b.chars[..a.undoCharPoint] == a.chars[..a.undoCharPoint]
  {
    hide MakeRedoRoom, SavedForRedo, RoomFor, Formed;
    var d := u.deleteLength;
    if d != 0 && a.undoCharPoint + d < CHARS {
      SlotKeepsRoom(a, u, d);
      RoomMadeIff(SlotFilled(a, u), d);
      RedoRoomKeepsUndo(SlotFilled(a, u), t[u.where..u.where + d]);
    }
  }

  lemma {:induction false} RedoRoomKeepsUndo(b: Arena, saved: Text)
    requires RedoFormed(b) && 0 < b.redoPoint && MakeRedoRoom(b, |saved|).Made?
    ensures var m := MakeRedoRoom(b, |saved|).arena;
      && InBounds(m) && 0 < m.redoPoint && m.undoCharPoint + |saved| <= m.redoCharPoint
      && (forall i :: 0 <= i < b.redoPoint - 1 ==> SavedForRedo(m, saved).recs[i] == b.recs[i])
      && SavedForRedo(m, saved).chars[..b.undoCharPoint] == b.chars[..b.undoCharPoint]
  {
    hide MakeRedoRoom, SavedForRedo;
    MakeRedoRoomKeepsUndo(b, |saved|);
    SavedKeepsUndo(b, MakeRedoRoom(b, |saved|).arena, saved);
  }

  lemma {:induction false} SavedKeepsUndo(b: Arena, m: Arena, saved: Text)
    requires InBounds(b) && InBounds(m) && 0 < m.redoPoint && m.undoCharPoint + |saved| <= m.redoCharPoint
    requires b.recs[..b.redoPoint] <= m.recs && b.chars[..b.redoCharPoint] <= m.chars[..m.redoCharPoint]
    requires b.redoPoint <= m.redoPoint && b.undoCharPoint == m.undoCharPoint
    ensures forall i :: 0 <= i < b.redoPoint - 1 ==> SavedForRedo(m, saved).recs[i] == b.recs[i]
    ensures SavedForRedo(m, saved).chars[..b.undoCharPoint] == b.chars[..b.undoCharPoint]
  {
    var w := SavedForRedo(m, saved);
    forall i | 0 <= i < b.redoPoint - 1 ensures w.recs[i] == b.recs[i] {
      assert b.recs[..b.redoPoint][i] == m.recs[i];
    }
    forall i | 0 <= i < b.undoCharPoint ensures w.chars[i] == b.chars[i] {
      assert b.chars[..b.redoCharPoint][i] == m.chars[..m.redoCharPoint][i];
    }
  }

  /** The redo side stays formed, whatever undo has to drop for it. */
  lemma {:induction false} RedoRecordFormed(a: Arena, u: Rec, t: Text)
    requires RedoFormed(a) && Ready(u, t) && 0 < a.undoPoint && CanKeep(a, u.deleteLength)
    ensures var b := WithRedoRecord(a, u, t); forall i :: b.redoPoint - 1 <= i < STATES ==> Formed(b.recs[i])
  {
    hide MakeRedoRoom, RoomFor;
    var d, b := u.deleteLength, SlotFilled(a, u);
    if d != 0 && a.undoCharPoint + d < CHARS {
      SlotKeepsRoom(a, u, d);
      RoomMadeIff(b, d);
      RoomKeepsSlotFormed(b, d);
    }
  }

  lemma {:induction false} RoomKeepsSlotFormed(a: Arena, n: int)
    requires RedoFormed(a) && 0 < a.redoPoint && Formed(a.recs[a.redoPoint - 1]) && MakeRedoRoom(a, n).Made?
    ensures var m := MakeRedoRoom(a, n).arena; Formed(m.recs[m.redoPoint - 1])
    decreases STATES - a.redoPoint
  {
    if a.redoCharPoint < a.undoCharPoint + n {
      hide DiscardRedo, Formed;
      DiscardRedoRecs(a);
      RoomKeepsSlotFormed(DiscardRedo(a), n);
    }
  }

  /** The newest record is ready to be carried out, and leads to the newest text of the past. */
  lemma {:induction false} TopIsReady(a: Arena, past: seq<Text>, text: Text)
    requires LeadsBack(a, past, text) && 0 < a.undoPoint
    ensures var u := a.recs[a.undoPoint - 1];
      && Ready(u, text) && CarriedOut(a, u, text) == past[|past| - 1]
      && |Kept(a, u)| == u.insertLength <= a.undoCharPoint
      && Takes(EditAt(a, a.undoPoint - 1), text, past[|past| - 1])
      && Off(a.recs, a.undoPoint - 1) == a.undoCharPoint - u.insertLength
  {
    UndoKept(a, a.undoPoint - 1);
    assert Takes(EditAt(a, a.undoPoint - 1), PastAt(past, text, |past|), past[|past| - 1]);
  }

  /** An undo that works goes back to the newest text of the past, however little is left of redo. */
  lemma {:induction false} UndoLeadsBack(a: Arena, past: seq<Text>, text: Text)
    requires LeadsBack(a, past, text) && UndoWorks(a) && 0 < a.undoPoint
    ensures Ready(a.recs[a.undoPoint - 1], text)
    ensures var r := Undo(a, text);
      && r.text == past[|past| - 1] && LeadsBack(r.arena, past[..|past| - 1], r.text) && 0 <= r.cursor <= |r.text|
      && RedoFormed(r.arena)
  {
    hide WithRedoRecord, Off, Takes, CanKeep, KeptAt;
    TopIsReady(a, past, text);
    var u := a.recs[a.undoPoint - 1];
    var b, r := WithRedoRecord(a, u, text), Undo(a, text);
    RedoRecordKeepsUndo(a, u, text);
    RedoRecordFormed(a, u, text);
    TopSame(a, b);
    PrefixSame(a.chars, b.chars, a.undoCharPoint, r.arena.undoCharPoint);
    PastUntouched(a, r.arena, past, text, a.undoPoint - 1);
  }

  lemma {:induction false} TopSame(a: Arena, b: Arena)
    requires UndoTiled(a) && 0 < a.undoPoint && InBounds(b) && b.chars[..a.undoCharPoint] == a.chars[..a.undoCharPoint]
    ensures Kept(b, a.recs[a.undoPoint - 1]) == Kept(a, a.recs[a.undoPoint - 1])
  {
    UndoKept(a, a.undoPoint - 1);
    SameKept(a, b, a.recs[a.undoPoint - 1], 0, a.undoCharPoint);
  }

  lemma PrefixSame(c: seq<char>, d: seq<char>, hi: int, lo: int)
    requires 0 <= lo <= hi <= |c| && hi <= |d| && c[..hi] == d[..hi]
    ensures c[..lo] == d[..lo]
  {
    assert c[..hi][..lo] == d[..hi][..lo];
  }
}
