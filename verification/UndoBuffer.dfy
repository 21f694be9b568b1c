/** The undo buffer in place: two arrays that operations shift and overwrite. */
module UndoBuffer {
  import opened Edits
  import opened UndoArena
  import opened UndoHistory
  import opened UndoRedo

  /** Copies `n` elements from `src` to `dst`; the two stretches may overlap. */
  method Memmove<T>(a: array<T>, dst: int, src: int, n: int)
    requires 0 <= dst && 0 <= src && 0 <= n && dst + n <= a.Length && src + n <= a.Length
    modifies a
    ensures a[..] == old(a[..dst] + a[src..src + n] + a[dst + n..])
  {
    forall i | 0 <= i < n {
      a[dst + i] := a[src + i];
    }
  }

  class Buffer {
    const recs: array<Rec>
    const chars: array<char>
    var undoPoint: int
    var redoPoint: int
    var undoCharPoint: int
    var redoCharPoint: int

    constructor ()
      ensures fresh(recs) && fresh(chars) && UndoTiled(Snap()) && RedoTiled(Snap())
      ensures undoPoint == 0 && redoPoint == STATES
    {
      recs := new Rec[STATES](i => Rec(0, 0, 0, -1));
      chars := new char[CHARS](i => ' ');
      undoPoint, redoPoint, undoCharPoint, redoCharPoint := 0, STATES, 0, CHARS;
    }

    ghost function Snap(): Arena
      reads this, recs, chars
    {
      Arena(recs[..], chars[..], undoPoint, redoPoint, undoCharPoint, redoCharPoint)
    }

    method FlushRedoSide()
      modifies this`redoPoint, this`redoCharPoint
      ensures Snap() == FlushRedo(old(Snap()))
    {
      redoPoint := STATES;
      redoCharPoint := CHARS;
    }

    /** Moves the kept-at positions of the records `[lo, hi)` by `n`. */
    method ShiftStorage(lo: int, hi: int, n: int)
      requires 0 <= lo <= hi <= recs.Length
      modifies recs
      ensures forall i :: 0 <= i < recs.Length ==>
        recs[i] == if lo <= i < hi then Shifted(old(recs[i]), n) else old(recs[i])
    {
      for i := lo to hi
        invariant forall k :: 0 <= k < recs.Length ==>
          recs[k] == if lo <= k < i then Shifted(old(recs[k]), n) else old(recs[k])
      {
        if recs[i].charStorage >= 0 {
          recs[i] := recs[i].(charStorage := recs[i].charStorage + n);
        }
      }
    }

    /** Drops the oldest undo record. */
    method DiscardOldestUndo()
      requires InBounds(Snap()) && 0 < undoPoint && 0 <= Held(recs[0]) <= undoCharPoint
      modifies this`undoPoint, this`undoCharPoint, recs, chars
      ensures Snap() == DiscardUndo(old(Snap()))
    {
      hide AllShifted, DiscardUndo;
      ghost var a, n, up := Snap(), Held(recs[0]), undoPoint;
      if recs[0].charStorage >= 0 {
        var n := recs[0].insertLength;
        undoCharPoint := undoCharPoint - n;
        Memmove(chars, 0, n, undoCharPoint);
        ShiftStorage(0, undoPoint, -n);
      }
      ghost var shifted := recs[..];
      undoPoint := undoPoint - 1;
      Memmove(recs, 0, 1, undoPoint);
      DiscardUndoIs(a, shifted, recs[..], chars[..]);
    }

    /** Drops the oldest redo record. */
    method DiscardOldestRedo()
      requires InBounds(Snap()) && redoPoint < STATES
      requires 0 <= Held(recs[STATES - 1]) <= CHARS - redoCharPoint
      modifies this`redoPoint, this`redoCharPoint, recs, chars
      ensures Snap() == DiscardRedo(old(Snap()))
    {
      hide AllShifted, DiscardRedo;
      ghost var a := Snap();
      var k := STATES - 1;
      if recs[k].charStorage >= 0 {
        var n := recs[k].insertLength;
        redoCharPoint := redoCharPoint + n;
        Memmove(chars, redoCharPoint, redoCharPoint - n, CHARS - redoCharPoint);
        ShiftStorage(redoPoint, k, n);
      }
      ghost var shifted := recs[..];
      Memmove(recs, redoPoint + 1, redoPoint, STATES - redoPoint - 1);
      redoPoint := redoPoint + 1;
      DiscardRedoIs(a, shifted, recs[..], chars[..]);
    }

    /** Makes room for a record with `n` characters and takes the next record slot; without room
        even in an empty buffer, drops the whole history instead. */
    method CreateUndoRecord(n: int) returns (ok: bool)
      requires UndoTiled(Snap()) && 0 <= n
      modifies this, recs, chars
      ensures ok == (n <= CHARS)
      ensures var c := Cleared(old(Snap()), n); Snap() == if ok then c.(undoPoint := c.undoPoint + 1) else c
      ensures if ok then FewestDropped(old(Snap()), n, old(undoPoint) + 1 - undoPoint) else undoPoint == 0
    {
      hide Off, DiscardUndo, KeptAt, FewestDropped;
      if n <= CHARS { ClearedDropsFewest(Snap(), n); }
      ghost var a := Snap();
      FlushTiled(a);
      FlushRedoSide();
      if undoPoint == STATES {
        DiscardUndoTiled(Snap());
        DiscardOldestUndo();
      }
      ghost var g := Snap();
      if n > CHARS {
        undoPoint := 0;
        undoCharPoint := 0;
        ok := false;
      } else {
        while undoCharPoint + n > CHARS
          invariant UndoTiled(Snap()) && MakeRoom(Snap(), n) == MakeRoom(g, n)
          decreases undoPoint
        {
          NotEmpty(Snap());
          DiscardUndoTiled(Snap());
          DiscardOldestUndo();
        }
        undoPoint := undoPoint + 1;
        ok := true;
      }
    }

    /** Fills in a new record; the result tells where its characters are to be put, -1 if nowhere. */
    method CreateUndo(pos: int, insertLen: int, deleteLen: int) returns (at: int)
      requires UndoTiled(Snap()) && 0 <= insertLen
      modifies this, recs, chars
      ensures var c := Cleared(old(Snap()), insertLen);
        && at == (if 0 < insertLen <= CHARS then c.undoCharPoint else -1)
        && Snap() == if CHARS < insertLen then c else
             c.(recs := c.recs[c.undoPoint := Rec(pos, insertLen, deleteLen, at)],
                undoPoint := c.undoPoint + 1, undoCharPoint := c.undoCharPoint + insertLen)
      ensures RecordedOne(old(Snap()), insertLen, undoPoint)
    {
      hide Cleared, Off, FewestDropped;
      var ok := CreateUndoRecord(insertLen);
      if !ok {
        return -1;
      }
      var slot := undoPoint - 1;
      if insertLen == 0 {
        recs[slot] := Rec(pos, insertLen, deleteLen, -1);
        return -1;
      } else {
        recs[slot] := Rec(pos, insertLen, deleteLen, undoCharPoint);
        undoCharPoint := undoCharPoint + insertLen;
        return undoCharPoint - insertLen;
      }
    }

    /** Copies characters of the text into the buffer. */
    method Save(t: Text, where: int, n: int, at: int)
      requires 0 <= where && 0 <= n && where + n <= |t| && 0 <= at && at + n <= chars.Length
      modifies chars
      ensures chars[..] == Put(old(chars[..]), at, t[where..where + n])
    {
      hide Put;
      ghost var was := chars[..];
      PutNothing(was, at);
      assert t[where..where + 0] == [];
      for i := 0 to n
        invariant chars[..] == Put(was, at, t[where..where + i])
      {
        PutOneMore(was, at, t[where..where + i], t[where + i]);
        assert t[where..where + i] + [t[where + i]] == t[where..where + (i + 1)];
        chars[at + i] := t[where + i];
      }
    }

    /** Records that `oldLength` characters at `where` are about to be replaced by `newLength` others. */
    method MakeUndoReplace(t: Text, where: int, oldLength: int, newLength: int)
      requires UndoTiled(Snap()) && 0 <= where && 0 <= oldLength && where + oldLength <= |t|
      modifies this, recs, chars
      ensures Snap() == Recorded(old(Snap()), where, t[where..where + oldLength], newLength)
      ensures RecordedOne(old(Snap()), oldLength, undoPoint)
    {
      hide Cleared, Off, RecordedOne;
      var at := CreateUndo(where, oldLength, newLength);
      if at >= 0 {
        Save(t, where, oldLength, at);
      } else {
        PutNothing(Cleared(old(Snap()), oldLength).chars, Cleared(old(Snap()), oldLength).undoCharPoint);
      }
    }

    method MakeUndoDelete(t: Text, where: int, length: int)
      requires UndoTiled(Snap()) && 0 <= where && 0 <= length && where + length <= |t|
      modifies this, recs, chars
      ensures Snap() == Recorded(old(Snap()), where, t[where..where + length], 0)
      ensures RecordedOne(old(Snap()), length, undoPoint)
    {
      MakeUndoReplace(t, where, length, 0);
    }

    method MakeUndoInsert(where: int, length: int)
      requires UndoTiled(Snap())
      modifies this, recs, chars
      ensures Snap() == Recorded(old(Snap()), where, [], length)
      ensures RecordedOne(old(Snap()), 0, undoPoint)
    {
      hide Cleared, Off, RecordedOne;
      var at := CreateUndo(where, 0, length);
      PutNothing(Cleared(old(Snap()), 0).chars, Cleared(old(Snap()), 0).undoCharPoint);
    }

    // ----- undo and redo

    /** Fills the slot below the redo side with the record for redoing `u`; without room for its
        characters, even with all redo records dropped, it does not succeed. */
    method MakeRedoRecord(u: Rec, t: Text) returns (ok: bool)
      requires RedoFormed(Snap()) && Ready(u, t) && 0 < undoPoint
      requires CanKeep(Snap(), u.deleteLength) || !MakeRedoRoom(SlotFilled(Snap(), u), u.deleteLength).Overrun?
      modifies this`redoPoint, this`redoCharPoint, recs, chars
      ensures ok <==> old(CanKeep(Snap(), u.deleteLength))
      ensures Snap() == if ok then WithRedoRecord(old(Snap()), u, t)
        else MakeRedoRoom(SlotFilled(old(Snap()), u), u.deleteLength).arena
    {
      hide DiscardRedo, Formed, RoomFor, MakeRedoRoom;
      ghost var a := Snap();
      var d := u.deleteLength;
      recs[redoPoint - 1] := Rec(u.where, d, u.insertLength, -1);
      assert Snap() == SlotFilled(a, u);
      ok := true;
      if d != 0 {
        if undoCharPoint + d >= CHARS {
          // the undo records leave no space for the characters
          recs[redoPoint - 1] := recs[redoPoint - 1].(insertLength := 0);
        } else {
          SlotKeepsRoom(a, u, d);
          RoomMadeIff(SlotFilled(a, u), d);
          ok := MakeSpace(d);
          if ok {
            SaveForRedo(t, u.where, d);
          }
        }
      }
    }

    /** Saves `n` characters below the redo side.  The slot of the record is looked up again, but
        only where its characters go is written to it. */
    method SaveForRedo(t: Text, where: int, n: int)
      requires InBounds(Snap()) && 0 < redoPoint
      requires 0 <= where && 0 <= n && where + n <= |t| && undoCharPoint + n <= redoCharPoint
      modifies this`redoCharPoint, recs, chars
      ensures Snap() == SavedForRedo(old(Snap()), t[where..where + n])
    {
      recs[redoPoint - 1] := recs[redoPoint - 1].(charStorage := redoCharPoint - n);
      redoCharPoint := redoCharPoint - n;
      Save(t, where, n, redoCharPoint);
    }

    /** Drops redo records until `d` characters fit between the two sides, or there are none left. */
    method MakeSpace(d: int) returns (ok: bool)
      requires RedoFormed(Snap()) && !MakeRedoRoom(Snap(), d).Overrun?
      modifies this`redoPoint, this`redoCharPoint, recs, chars
      ensures var r := MakeRedoRoom(old(Snap()), d); ok == r.Made? && Snap() == r.arena
    {
      hide DiscardRedo, Formed;
      ghost var b := Snap();
      while undoCharPoint + d > redoCharPoint
        invariant RedoFormed(Snap()) && MakeRedoRoom(Snap(), d) == MakeRedoRoom(b, d)
        decreases STATES - redoPoint
      {
        if redoPoint == STATES {
          return false;
        }
        NotNegative(Snap());
        DiscardRedoRecs(Snap());
        DiscardOldestRedo();
      }
      return true;
    }

    /** Carries out the newest undo record on the text, and makes the redo record for it; if that
        does not succeed, text and cursor stay as they are. */
    method UndoNewest(t: Text, cursor: int) returns (t': Text, cursor': int)
      requires UndoTiled(Snap()) && RedoFormed(Snap())
      requires 0 < undoPoint ==> Ready(recs[undoPoint - 1], t)
      requires !UndoOutcome(Snap(), t).OutOfArray?
      modifies this, recs, chars
      ensures Settles(old(Snap()), t, cursor, Snap(), t', cursor')
    {
      hide WithRedoRecord, Off, MakeRedoRoom, CanKeep, Formed, KeptAt, UndoOutcome, UndoArena.Undo;
      t', cursor' := t, cursor;
      OutcomeIs(Snap(), t);
      if undoPoint == 0 {
        return;
      }
      ghost var a := Snap();
      var u := recs[undoPoint - 1];
      TopInArray(a);
      var ok := MakeRedoRecord(u, t);
      if ok {
        t' := InsertChars(DeleteChars(t, u.where, u.deleteLength), u.where, Stored(u));
        undoCharPoint := undoCharPoint - u.insertLength;
        cursor' := u.where + u.insertLength;
        undoPoint := undoPoint - 1;
        redoPoint := redoPoint - 1;
      }
    }

    /** Fills the slot above the undo side with the record for undoing `r` once it is redone. */
    method MakeUndoRecord(r: Rec, t: Text)
      requires InBounds(Snap()) && Ready(r, t) && undoPoint < STATES
      modifies this`undoCharPoint, recs, chars
      ensures Snap() == WithUndoRecord(old(Snap()), r, t)
    {
      var n := r.deleteLength;
      recs[undoPoint] := Rec(r.where, n, r.insertLength, -1);
      if n != 0 {
        if undoCharPoint + n > redoCharPoint {
          recs[undoPoint] := recs[undoPoint].(insertLength := 0, deleteLength := 0);
        } else {
          recs[undoPoint] := recs[undoPoint].(charStorage := undoCharPoint);
          undoCharPoint := undoCharPoint + n;
          Save(t, r.where, n, undoCharPoint - n);
        }
      }
    }

    /** Carries out the next redo record on the text, and makes the undo record for it. */
    method RedoNext(t: Text, cursor: int) returns (t': Text, cursor': int)
      requires InBounds(Snap())
      requires redoPoint < STATES ==> Ready(recs[redoPoint], t) && InArray(recs[redoPoint])
      modifies this, recs, chars
      ensures var r := Redo(old(Snap()), t);
        Snap() == r.arena && t' == r.text && cursor' == if old(redoPoint) == STATES then cursor else r.cursor
    {
      t', cursor' := t, cursor;
      if redoPoint == STATES {
        return;
      }
      hide WithUndoRecord;
      var r := recs[redoPoint];
      MakeUndoRecord(r, t);
      t' := DeleteChars(t, r.where, r.deleteLength);
      t' := InsertChars(t', r.where, Stored(r));
      redoCharPoint := redoCharPoint + r.insertLength;
      cursor' := r.where + r.insertLength;
      undoPoint := undoPoint + 1;
      redoPoint := redoPoint + 1;
    }

    /** The characters a record holds. */
    function Stored(r: Rec): (s: Text)
      requires 0 <= r.insertLength && InArray(r) && chars.Length == CHARS
      reads chars
      ensures s == Kept(Snap(), r)
    {
      if r.insertLength == 0 then [] else chars[r.charStorage..r.charStorage + r.insertLength]
    }
  }

  lemma NotNegative(a: Arena)
    requires RedoFormed(a) && a.redoPoint < STATES
    ensures 0 <= Held(a.recs[STATES - 1])
  {
  }

  lemma {:induction false} TopInArray(a: Arena)
    requires UndoTiled(a) && 0 < a.undoPoint
    ensures InArray(a.recs[a.undoPoint - 1])
  {
    UndoKept(a, a.undoPoint - 1);
  }

  /** How undo ends, in terms of the record it carries out. */
  lemma {:induction false} OutcomeIs(a: Arena, t: Text)
    requires RedoFormed(a) && (0 < a.undoPoint ==> Ready(a.recs[a.undoPoint - 1], t))
    ensures a.undoPoint == 0 ==> UndoOutcome(a, t) == Undone(Result(a, t, -1))
    ensures 0 < a.undoPoint ==>
      var u := a.recs[a.undoPoint - 1]; var o, m := UndoOutcome(a, t), MakeRedoRoom(SlotFilled(a, u), u.deleteLength);
      if CanKeep(a, u.deleteLength) then
        var b := WithRedoRecord(a, u, t);
        o == Undone(Result(b.(undoCharPoint := b.undoCharPoint - u.insertLength,
                              undoPoint := b.undoPoint - 1, redoPoint := b.redoPoint - 1),
                           CarriedOut(b, u, t), u.where + u.insertLength))
      else if m.Overrun? then o == OutOfArray
      else o == GivenUp(m.arena)
  {
    hide WithRedoRecord, MakeRedoRoom, RoomFor, UndoOutcome, CanKeep;
    UndoneOrNot(a, t);
  }

  lemma {:induction false} UndoneOrNot(a: Arena, t: Text)
    requires RedoFormed(a) && (0 < a.undoPoint ==> Ready(a.recs[a.undoPoint - 1], t))
    ensures UndoWorks(a) ==> UndoOutcome(a, t) == Undone(Undo(a, t))
    ensures !UndoWorks(a) ==>
      var m := MakeRedoRoom(SlotFilled(a, a.recs[a.undoPoint - 1]), a.recs[a.undoPoint - 1].deleteLength);
      UndoOutcome(a, t) == if m.Overrun? then OutOfArray else GivenUp(m.arena)
  {
    hide MakeRedoRoom, RoomFor, Undo;
    if 0 < a.undoPoint {
      var u := a.recs[a.undoPoint - 1];
      SlotKeepsRoom(a, u, u.deleteLength);
      RoomMadeIff(SlotFilled(a, u), u.deleteLength);
    }
  }

  lemma PutNothing(cs: seq<char>, at: int)
    requires 0 <= at <= |cs|
    ensures Put(cs, at, []) == cs
  {
  }

  lemma PutOneMore(cs: seq<char>, at: int, s: seq<char>, c: char)
    requires 0 <= at && at + |s| < |cs|
    ensures Put(cs, at, s + [c]) == Put(cs, at, s)[at + |s| := c]
  {
  }

  lemma NotEmpty(a: Arena)
    requires UndoTiled(a) && 0 < a.undoCharPoint
    ensures 0 < a.undoPoint
  {
  }

  lemma {:induction false} DiscardUndoIs(a: Arena, shifted: seq<Rec>, recs: seq<Rec>, chars: seq<char>)
    requires InBounds(a) && 0 < a.undoPoint && 0 <= Held(a.recs[0]) <= a.undoCharPoint && |shifted| == STATES
    requires var n := Held(a.recs[0]); var up := a.undoPoint;
      && (forall i :: 0 <= i < STATES ==> shifted[i] == if i < up then Shifted(a.recs[i], -n) else a.recs[i])
      && recs == shifted[..0] + shifted[1..1 + (up - 1)] + shifted[up - 1..]
      && (0 <= a.recs[0].charStorage ==>
            chars == a.chars[..0] + a.chars[n..n + (a.undoCharPoint - n)] + a.chars[a.undoCharPoint - n..])
      && (a.recs[0].charStorage < 0 ==> chars == a.chars)
    ensures DiscardUndo(a) == a.(recs := recs, chars := chars, undoPoint := a.undoPoint - 1,
                                 undoCharPoint := a.undoCharPoint - Held(a.recs[0]))
  {
    var d := DiscardUndo(a);
    forall i | 0 <= i < STATES ensures d.recs[i] == recs[i] {
    }
    assert d.chars == chars;
  }

  lemma {:induction false} DiscardRedoIs(a: Arena, shifted: seq<Rec>, recs: seq<Rec>, chars: seq<char>)
    requires InBounds(a) && a.redoPoint < STATES && |shifted| == STATES
    requires 0 <= Held(a.recs[STATES - 1]) <= CHARS - a.redoCharPoint
    requires var n := Held(a.recs[STATES - 1]); var rp := a.redoPoint; var rcp := a.redoCharPoint;
      && (forall i :: 0 <= i < STATES ==> shifted[i] == if rp <= i < STATES - 1 then Shifted(a.recs[i], n) else a.recs[i])
      && recs == shifted[..rp + 1] + shifted[rp..rp + (STATES - rp - 1)] + shifted[rp + 1 + (STATES - rp - 1)..]
      && (0 <= a.recs[STATES - 1].charStorage ==>
            chars == a.chars[..rcp + n] + a.chars[rcp..rcp + (CHARS - (rcp + n))] + a.chars[rcp + n + (CHARS - (rcp + n))..])
      && (a.recs[STATES - 1].charStorage < 0 ==> chars == a.chars)
    ensures DiscardRedo(a) == a.(recs := recs, chars := chars, redoPoint := a.redoPoint + 1,
                                 redoCharPoint := a.redoCharPoint + Held(a.recs[STATES - 1]))
  {
    var d := DiscardRedo(a);
    forall i | 0 <= i < STATES ensures d.recs[i] == recs[i] {
    }
    assert d.chars == chars;
  }
}
