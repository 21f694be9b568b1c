/** The text field: a text, a cursor, a selection, and the undo buffer behind every edit. */
module TextEditor {
  import opened Basics
  import opened Edits
  import opened UndoArena
  import opened UndoHistory
  import opened UndoRedo
  import opened UndoRuns
  import opened UndoBuffer
  import opened Reconcile

  /** Keys as the field receives them; `Shift` variants extend the selection. */
  datatype Key =
    | Char(c: char) | Insert | UndoKey | RedoKey
    | Left | Right | LeftShift | RightShift
    | WordLeft | WordRight | WordLeftShift | WordRightShift
    | Delete | Backspace
    | TextStart | TextEnd | TextStartShift | TextEndShift
    | LineStart | LineEnd | LineStartShift | LineEndShift
    | Up | Down | UpShift | DownShift

  predicate Vertical(k: Key) { k.Up? || k.Down? || k.UpShift? || k.DownShift? }

  predicate EditKey(k: Key) { k.Char? || k.Delete? || k.Backspace? }

  /** The keys that drop the selection, and those that extend it. */
  predicate MoveKey(k: Key) {
    k.Left? || k.Right? || k.WordLeft? || k.WordRight? || k.TextStart? || k.TextEnd? || k.LineStart? || k.LineEnd?
  }

  predicate Extends(k: Key) {
    || k.LeftShift? || k.RightShift? || k.WordLeftShift? || k.WordRightShift?
    || k.TextStartShift? || k.TextEndShift? || k.LineStartShift? || k.LineEndShift?
  }

  /** A cursor and a selection; the selection may be stale, reaching behind the text. */
  datatype Caret = Caret(cursor: int, selectStart: int, selectEnd: int) {
    ghost predicate Selects() { selectStart != selectEnd }

    ghost function First(): int { Min(selectStart, selectEnd) }

    ghost function Last(): int { Max(selectStart, selectEnd) }

    /** Where an edit begins and ends in a text of length `n`: the selection, or else the cursor. */
    ghost function From(n: int): int { Min(if Selects() then First() else cursor, n) }

    ghost function To(n: int): int { Min(if Selects() then Last() else cursor, n) }

    /** The ends of the selection to be extended; without a selection it starts at the cursor. */
    ghost function Anchor(): int { if Selects() then selectStart else cursor }

    ghost function Head(): int { if Selects() then selectEnd else cursor }
  }

  /** The nearest word boundary left of `from`, or the start of the text. */
  ghost predicate IsWordLeft(t: Text, breaks: (Text, int) -> bool, from: int, c: int) {
    && 0 <= c && (c == 0 || breaks(t, c)) && (0 < from ==> c < from) && (from <= 0 ==> c == 0)
    && forall i :: c < i < from ==> !breaks(t, i)
  }

  /** The nearest word boundary right of `from`, or the end of the text. */
  ghost predicate IsWordRight(t: Text, breaks: (Text, int) -> bool, from: int, c: int) {
    && c <= |t| && (c == |t| || breaks(t, c)) && (from < |t| ==> from < c) && (|t| <= from ==> c == |t|)
    && forall i :: from < i < c ==> !breaks(t, i)
  }

  /** The line `from` is in starts at `c`. */
  ghost predicate IsLineStart(t: Text, singleLine: bool, newline: char, from: int, c: int)
    requires from <= |t|
  {
    if singleLine then c == 0
    else 0 <= c <= from && (c == 0 || t[c - 1] == newline) && newline !in t[c..from]
  }

  ghost predicate IsLineEnd(t: Text, singleLine: bool, newline: char, from: int, c: int)
    requires 0 <= from
  {
    if singleLine then c == |t|
    else from <= c <= |t| && (c == |t| || t[c] == newline) && newline !in t[from..c]
  }

  /** The keys that put the cursor at a selection left over from a longer text without clamping it. */
  ghost predicate Escapes(k: Key, n: int, selectStart: int, selectEnd: int) {
    && selectStart != selectEnd
    && (((k.Left? || k.Up? || k.WordLeft?) && n < Min(selectStart, selectEnd))
        || ((k.RightShift? || k.DownShift?) && selectStart == selectEnd + 1 && n < selectStart))
  }

  /** All texts of the history fit in the field, and so does whatever is left of one that fits. */
  ghost predicate Holds(fits: Text -> bool, z: Zipper) {
    && (forall t, lo, hi :: 0 <= lo <= hi <= |t| && fits(t) ==> fits(Edited(t, lo, hi, [])))
    && fits(z.text)
    && (forall i :: 0 <= i < |z.past| ==> fits(z.past[i]))
    && (forall i :: 0 <= i < |z.future| ==> fits(z.future[i]))
  }

  lemma HoldsEdit(fits: Text -> bool, z: Zipper, after: Text)
    requires Holds(fits, z) && fits(after)
    ensures Holds(fits, Zipper(z.past + [z.text], after, []))
  {
  }

  lemma HoldsMoves(fits: Text -> bool, z: Zipper)
    requires Holds(fits, z)
    ensures Holds(fits, z.Undo()) && Holds(fits, z.Redo())
  {
  }

  lemma HoldsLess(fits: Text -> bool, z: Zipper, lo: int, hi: int)
    requires Holds(fits, z) && 0 <= lo <= hi <= |z.text|
    ensures fits(Edited(z.text, lo, hi, []))
  {
  }

  /** The newest undo record, made for overwriting the character at `at` of `t`, does not lead back
      to `t`; and if that was the last character, it does not even lie in the text. */
  ghost predicate CannotRestore(a: Arena, text: Text, t: Text, at: int) {
    && InBounds(a) && 0 < a.undoPoint
    && (forall past :: past != [] && LeadsBack(a, past, text) ==> past[|past| - 1] != t)
    && (Ready(a.recs[a.undoPoint - 1], text) <==> at + 1 < |t|)
  }

  class Field {
    var text: Text
    var cursor: int
    var selectStart: int
    var selectEnd: int
    var insertMode: bool
    const singleLine: bool
    const newline: char
    const leftBreak: (Text, int) -> bool
    const rightBreak: (Text, int) -> bool
    const fits: Text -> bool
    const undo: Buffer

    ghost var history: Zipper
    ghost var exact: bool

    /** The undo buffer leads through the history, all of which fits in the field; cursor and
        selection are not negative. */
    ghost predicate Valid()
      reads this, undo, undo.recs, undo.chars
    {
      && Tracks(Now(), history)
      && Holds(fits, history)
      && 0 <= cursor && 0 <= selectStart && 0 <= selectEnd
    }

    ghost predicate InText()
      reads this
    {
      0 <= cursor <= |text|
    }

    ghost function Here(): Caret
      reads this
    {
      Caret(cursor, selectStart, selectEnd)
    }

    predicate HasSelection()
      reads this
    {
      selectStart != selectEnd
    }

    constructor (singleLine: bool, newline: char, leftBreak: (Text, int) -> bool, rightBreak: (Text, int) -> bool,
                 fits: Text -> bool, text: Text)
      requires Holds(fits, Zipper([], text, []))
      ensures Valid() && InText() && !HasSelection() && exact
      ensures history == Zipper([], text, []) && this.text == text && this.fits == fits && this.singleLine == singleLine
      ensures fresh(undo) && fresh(undo.recs) && fresh(undo.chars) && undo.undoPoint == 0 && !insertMode && Forgotten() == 0
    {
      this.singleLine, this.newline, this.leftBreak, this.rightBreak := singleLine, newline, leftBreak, rightBreak;
      this.fits := fits;
      this.text, cursor, selectStart, selectEnd, insertMode := text, 0, 0, 0, false;
      var u := new Buffer();
      undo := u;
      history, exact := Zipper([], text, []), true;
      new;
      EmptyFuture(undo.Snap(), text);
    }

    // ----- selection and cursor

    method Clamp()
      modifies this`selectStart, this`selectEnd, this`cursor
      ensures cursor <= |text| && (HasSelection() ==> selectStart <= |text| && selectEnd <= |text|)
      ensures old(HasSelection()) ==>
        selectStart == Min(old(selectStart), |text|) && selectEnd == Min(old(selectEnd), |text|)
      ensures !old(HasSelection()) ==> selectStart == old(selectStart) && selectEnd == old(selectEnd)
      ensures cursor == if old(HasSelection()) && !HasSelection() then selectStart else Min(old(cursor), |text|)
    {
      var n := |text|;
      if HasSelection() {
        if selectStart > n { selectStart := n; }
        if selectEnd > n { selectEnd := n; }
        if selectStart == selectEnd { cursor := selectStart; }
      }
      if cursor > n { cursor := n; }
    }

    method SortSelection()
      modifies this`selectStart, this`selectEnd
      ensures selectStart == Min(old(selectStart), old(selectEnd))
      ensures selectStart + selectEnd == old(selectStart) + old(selectEnd)
    {
      if selectEnd < selectStart {
        selectStart, selectEnd := selectEnd, selectStart;
      }
    }

    method MoveToFirst()
      modifies this`selectStart, this`selectEnd, this`cursor
      ensures !HasSelection()
      ensures old(HasSelection()) ==> cursor == selectStart == Min(old(selectStart), old(selectEnd))
      ensures !old(HasSelection()) ==> cursor == old(cursor) && selectStart == old(selectStart)
    {
      if HasSelection() {
        SortSelection();
        cursor := selectStart;
        selectEnd := selectStart;
      }
    }

    method MoveToLast()
      modifies this`selectStart, this`selectEnd, this`cursor
      ensures !HasSelection()
      ensures old(HasSelection()) ==>
        cursor == selectStart == Min(old(selectStart) + old(selectEnd) - Min(old(selectStart), old(selectEnd)), |text|)
      ensures !old(HasSelection()) ==> cursor == old(cursor) && selectStart == old(selectStart)
    {
      if HasSelection() {
        SortSelection();
        Clamp();
        cursor := selectEnd;
        selectStart := selectEnd;
      }
    }

    method PrepSelectionAtCursor()
      modifies this`selectStart, this`selectEnd, this`cursor
      ensures cursor == selectEnd
      ensures old(HasSelection()) ==> selectStart == old(selectStart) && selectEnd == old(selectEnd)
      ensures !old(HasSelection()) ==> selectStart == cursor == old(cursor)
    {
      if !HasSelection() {
        selectStart, selectEnd := cursor, cursor;
      } else {
        cursor := selectEnd;
      }
    }

    // ----- edits

    /** Replaces `len` characters at `where` by `ins`, for which there is room, after recording it. */
    method Replace(where: int, len: int, ins: Text)
      requires Valid() && 0 <= where && 0 <= len && where + len <= |text| && fits(Edited(text, where, where + len, ins))
      modifies this`text, this`history, this`exact, undo, undo.recs, undo.chars
      ensures Valid() && exact
      ensures text == Edited(old(text), where, where + len, ins)
      ensures history == Zipper(old(history.past) + [old(text)], text, [])
      ensures OneMore(old(undo.Snap()), len, undo.Snap())
    {
      hide Tracks, Recorded, UndoTiled, Cleared, Holds, OneMore;
      ReadyToRecord(Edit(where, ins, len));
      HoldsEdit(fits, history, Edited(text, where, where + len, ins));
      undo.MakeUndoReplace(text, where, len, |ins|);
      text := DeleteChars(text, where, len);
      text := InsertChars(text, where, ins);
      history, exact := Zipper(history.past + [history.text], text, []), true;
    }

    /** The texts of the history there is no undo record for any more. */
    ghost function Forgotten(): int
      reads this, undo
    {
      |history.past| - undo.undoPoint
    }

    /** There is room for two more records, with `n` characters in all. */
    ghost predicate HasRoom(n: int)
      reads this, undo
    {
      undo.undoPoint + 2 <= STATES && undo.undoCharPoint + n <= CHARS
    }

    method DeleteSelection()
      requires Valid()
      modifies this`text, this`history, this`exact, undo, undo.recs, undo.chars
      modifies this`selectStart, this`selectEnd, this`cursor
      ensures Valid() && InText() && !HasSelection()
      ensures var t, c := old(text), old(Here()); var lo, hi := c.From(|t|), c.To(|t|);
        && text == Edited(t, lo, hi, []) && cursor == lo
        && history == (if lo < hi then Zipper(old(history.past) + [t], text, []) else old(history))
        && (lo == hi ==> undo.Snap() == old(undo.Snap()))
        && (lo < hi ==> OneMore(old(undo.Snap()), hi - lo, undo.Snap()))
        && exact == (lo < hi || old(exact))
    {
      hide Tracks;
      Clamp();
      if HasSelection() {
        if selectStart < selectEnd {
          DeleteRange(selectStart, selectEnd - selectStart);
          selectEnd, cursor := selectStart, selectStart;
        } else {
          DeleteRange(selectEnd, selectStart - selectEnd);
          selectStart, cursor := selectEnd, selectEnd;
        }
      } else {
        NothingEdited(text, cursor);
      }
    }

    /** Deletes characters, after recording it. */
    method DeleteRange(where: int, len: int)
      requires Valid() && 0 <= where && 0 <= len && where + len <= |text|
      modifies this`text, this`history, this`exact, undo, undo.recs, undo.chars
      ensures Valid() && exact
      ensures text == Edited(old(text), where, where + len, [])
      ensures history == Zipper(old(history.past) + [old(text)], text, [])
      ensures OneMore(old(undo.Snap()), len, undo.Snap())
    {
      hide Tracks, Recorded, UndoTiled, Cleared, Holds, OneMore;
      ReadyToRecord(Edit(where, [], len));
      HoldsLess(fits, history, where, where + len);
      HoldsEdit(fits, history, Edited(text, where, where + len, []));
      undo.MakeUndoDelete(text, where, len);
      text := DeleteChars(text, where, len);
      history, exact := Zipper(history.past + [history.text], text, []), true;
    }

    /** Replaces the whole text as one edit, and moves the cursor behind it. */
    method ReplaceText(ins: Text)
      requires Valid() && fits(ins)
      modifies this`text, this`history, this`exact, undo, undo.recs, undo.chars
      modifies this`selectStart, this`selectEnd, this`cursor
      ensures Valid() && InText() && exact
      ensures text == ins && Here() == Caret(|ins|, |ins|, |ins|)
      ensures history == Zipper(old(history.past) + [old(text)], text, [])
      ensures OneMore(old(undo.Snap()), old(|text|), undo.Snap())
    {
      hide Tracks, Holds, OneMore;
      assert Edited(text, 0, |text|, ins) == ins;
      Replace(0, |text|, ins);
      cursor, selectStart, selectEnd := |ins|, |ins|, |ins|;
    }

    /** The text was changed from outside: takes it over, recording what differs as one edit. */
    method TakeOver(after: Text)
      requires Valid() && fits(after)
      modifies this`text, this`history, this`exact, undo, undo.recs, undo.chars
      ensures Valid() && text == after
      ensures history == if after == old(text) then old(history) else Zipper(old(history.past) + [old(text)], after, [])
      ensures after != old(text) ==> exact
    {
      hide Tracks, Edited, Holds;
      var lo, hi, to := Difference(text, after);
      if lo == |text| && lo == |after| {
        return;
      }
      Replace(lo, hi - lo, after[lo..to]);
    }

    /** Inserts characters at the cursor if there is room, records it, and moves the cursor behind them. */
    method InsertAtCursor(ins: Text) returns (ok: bool)
      requires Valid() && InText()
      modifies this`text, this`history, this`exact, this`cursor, undo, undo.recs, undo.chars
      ensures Valid() && InText() && ok == fits(Edited(old(text), old(cursor), old(cursor), ins))
      ensures ok ==>
        && text == Edited(old(text), old(cursor), old(cursor), ins) && cursor == old(cursor) + |ins| && exact
        && history == Zipper(old(history.past) + [old(text)], text, [])
        && OneMore(old(undo.Snap()), 0, undo.Snap())
      ensures !ok ==>
        && text == old(text) && cursor == old(cursor) && history == old(history) && exact == old(exact)
        && undo.Snap() == old(undo.Snap())
    {
      hide Tracks, Recorded, UndoTiled, Cleared, Holds, OneMore;
      ok := fits(InsertChars(text, cursor, ins));
      ReadyToRecord(Edit(cursor, ins, 0));
      if ok {
        HoldsEdit(fits, history, Edited(text, cursor, cursor, ins));
        assert text[cursor..cursor] == [];
        text := InsertChars(text, cursor, ins);
        undo.MakeUndoInsert(cursor, |ins|);
        history, exact := Zipper(history.past + [history.text], text, []), true;
        cursor := cursor + |ins|;
      }
    }

    /** Replaces the character behind the cursor, after recording it.  Without room for the new one
        the old one is gone all the same, and the record does not lead back to it. */
    method Overwrite(c: char) returns (ok: bool)
      requires Valid() && 0 <= cursor < |text|
      modifies this`text, this`history, this`exact, this`cursor, undo, undo.recs, undo.chars
      ensures ok == fits(old(text)[old(cursor) := c])
      ensures ok ==>
        && Valid() && exact && text == old(text)[old(cursor) := c] && cursor == old(cursor) + 1
        && history == Zipper(old(history.past) + [old(text)], text, [])
        && OneMore(old(undo.Snap()), 1, undo.Snap())
      ensures !ok ==>
        && text == Edited(old(text), old(cursor), old(cursor) + 1, []) && cursor == old(cursor)
        && CannotRestore(undo.Snap(), text, old(text), cursor)
    {
      hide Tracks, Edited, Holds, Recorded, OneMore;
      OverwrittenOne(text, cursor, c);
      ok := fits(text[cursor := c]);
      if ok {
        Replace(cursor, 1, [c]);
        cursor := cursor + 1;
      } else {
        LoseOne(c);
      }
    }

    method LoseOne(c: char)
      requires Valid() && 0 <= cursor < |text|
      modifies this`text, undo, undo.recs, undo.chars
      ensures text == Edited(old(text), cursor, cursor + 1, []) && CannotRestore(undo.Snap(), text, old(text), cursor)
    {
      hide Tracks, Holds, Recorded, CannotRestore;
      ReadyToRecord(Edit(cursor, [c], 1));
      OverwriteRecord(undo.Snap(), text, cursor);
      undo.MakeUndoReplace(text, cursor, 1, 1);
      text := DeleteChars(text, cursor, 1);
    }

    /** Recording the edit and then carrying it out keeps the field on its history. */
    lemma ReadyToRecord(e: Edit)
      requires Valid() && FitsIn(e, text)
      ensures UndoTiled(undo.Snap())
      ensures Tracks(Session(Recorded(undo.Snap(), e.where, text[e.where..e.where + e.del], |e.ins|), Apply(e, text), true),
                     Zipper(history.past + [history.text], Apply(e, text), []))
      ensures history.text == text
      ensures e.del == 0 ==> Apply(e, text) == InsertChars(text, e.where, e.ins)
      ensures e.ins == [] ==> Apply(e, text) == DeleteChars(text, e.where, e.del)
      ensures Apply(e, text) == Edited(text, e.where, e.where + e.del, e.ins)
      ensures OneMore(undo.Snap(), e.del, Recorded(undo.Snap(), e.where, text[e.where..e.where + e.del], |e.ins|))
    {
      hide Tracks, OneMore, Recorded, Cleared, UndoTiled, Holds, RecordedOne;
      TracksTiled(Now(), history);
      RecordedIsOneMore(undo.Snap(), e.where, text[e.where..e.where + e.del], |e.ins|);
      TracksParts(Now(), history);
      RecordedTracks(undo.Snap(), history, e);
    }

    /** Takes back the newest edit there is a record of; or gives up, if the redo side does not let
        it, which loses all there was to redo and nothing else. */
    method Undo()
      requires Valid() && UndoEnds(undo.Snap())
      modifies this`text, this`history, this`exact, this`cursor, undo, undo.recs, undo.chars
      ensures Valid()
      ensures if old(undo.undoPoint == 0 || !UndoWorks(undo.Snap()))
        then text == old(text) && history == old(history) && cursor == old(cursor) && undo.undoPoint == old(undo.undoPoint)
        else old(history.past) != [] && history == old(history).Undo() && InText()
      ensures old(undo.undoPoint) == 0 ==> exact == old(exact)
      ensures !old(UndoWorks(undo.Snap())) ==> !exact && undo.redoPoint == STATES && UndoGivesUp(undo.Snap())
      ensures old(undo.undoPoint) > 0 && old(UndoWorks(undo.Snap())) ==>
        && undo.undoPoint == old(undo.undoPoint) - 1
        && exact == old(exact && UndoFits(undo.Snap()))
        && (old(RedoTiled(undo.Snap())) ==> RedoTiled(undo.Snap()) == old(KeepsLevel(undo.Snap())))
        && var u := old(undo.recs[undo.undoPoint - 1]); cursor == u.where + u.insertLength
    {
      ghost var s, z, c := Now(), history, cursor;
      hide Tracks, UndoWorks, RedoTiled, KeepsLevel, UndoFits, UndoGivesUp, RedoFormed, Holds, Settles, UndoOutcome, IsNext;
      ReadyToUndo(s, z);
      if undo.undoPoint > 0 {
        TakeBack();
        IsNextMeans(s, z, Now(), history);
        if UndoWorks(s.arena) {
          UndoneWell(s, z, c, undo.Snap(), text, cursor);
        } else {
          GivenUpWell(s, z, c, undo.Snap(), text, cursor);
        }
      } else {
        NothingToUndo(undo.Snap());
      }
    }

    /** What is put back makes up a text that was in the field before, so there is room for it. */
    method TakeBack()
      requires Valid() && UndoEnds(undo.Snap()) && 0 < undo.undoPoint
      modifies this`text, this`history, this`exact, this`cursor, undo, undo.recs, undo.chars
      ensures Valid()
      ensures IsNext(old(Now()), old(history), UndoOp, Now(), history)
      ensures Settles(old(undo.Snap()), old(text), old(cursor), undo.Snap(), text, cursor)
    {
      ghost var s, z, c := Now(), history, cursor;
      hide Tracks, Holds, Settles, UndoEnds, Next, Moved, IsNext;
      ghost var s', y := UndoneIs(s, z);
      HoldsMoves(fits, history);
      CarryOut();
      SettledIs(s, z, c, undo.Snap(), text, cursor);
      exact, history := s'.exact, y;
    }

    /** The record to be undone next does not lie in the text. */
    ghost predicate Spoilt()
      reads this, undo, undo.recs, undo.chars
    {
      var a := undo.Snap();
      InBounds(a) && 0 < a.undoPoint && !Ready(a.recs[a.undoPoint - 1], text)
    }

    /** The buffer beside the text. */
    ghost function Now(): Session
      reads this, undo, undo.recs, undo.chars
    {
      Session(undo.Snap(), text, exact)
    }

    method CarryOut()
      requires Valid() && UndoEnds(undo.Snap())
      modifies this`text, this`cursor, undo, undo.recs, undo.chars
      ensures Settles(old(undo.Snap()), old(text), old(cursor), undo.Snap(), text, cursor)
    {
      assert InBounds(undo.Snap());
      hide Tracks, UndoTiled, RedoFormed, Ready, UndoOutcome, Holds, Settles, UndoEnds;
      ReadyToUndo(Now(), history);
      text, cursor := undo.UndoNewest(text, cursor);
    }

    /** Carries the next redo record out.  While redo is exact that is the next edit; after an undo
        that had no room it may be anything.  Where there is no room for what it deletes, the history
        is lost, and the field no longer valid. */
    method Redo()
      requires Valid() && RedoReads(undo.Snap(), text)
      requires exact || undo.redoPoint == STATES || fits(Redone(undo.Snap(), text))
      modifies this`text, this`history, this`cursor, undo, undo.recs, undo.chars
      ensures old(RedoWorks(undo.Snap(), text)) ==>
        Valid() && (old(undo.redoPoint) < STATES ==> history.past == old(history.past) + [old(text)])
      ensures exact ==> old(RedoWorks(undo.Snap(), text)) && history == old(history).Redo()
      ensures text == old(Redone(undo.Snap(), text))
      ensures if old(undo.redoPoint) == STATES
        then text == old(text) && history == old(history) && cursor == old(cursor)
        else InText() && var r := old(undo.recs[undo.redoPoint]); cursor == r.where + r.insertLength
    {
      hide Tracks, Ready, RedoWorks, RedoReads, InArray, Moved, Holds, Redone, UndoArena.Redo;
      ghost var s, z := Now(), history;
      BeforeRedo(s, z);
      HoldsMoves(fits, history);
      if !exact && undo.redoPoint < STATES { HoldsEdit(fits, history, Redone(undo.Snap(), text)); }
      text, cursor := undo.RedoNext(text, cursor);
      history := if RedoWorks(s.arena, s.text) then Moved(s, z, RedoOp) else history;
    }

    /** Deletes the selection, if there is one. */
    method Cut() returns (cut: bool)
      requires Valid()
      modifies this`text, this`history, this`exact, undo, undo.recs, undo.chars
      modifies this`selectStart, this`selectEnd, this`cursor
      ensures Valid() && !HasSelection() && cut == old(HasSelection())
      ensures var t, c := old(text), old(Here()); var lo, hi := c.From(|t|), c.To(|t|);
        if cut then Deleted(t, lo, hi, old(history))
        else text == t && Here() == c && history == old(history)
    {
      hide Tracks, Edited;
      cut := HasSelection();
      if cut {
        DeleteSelection();
      }
    }

    /** The characters from `lo` to `hi` are gone, as one edit if there were any, and the cursor is there. */
    ghost predicate Deleted(t: Text, lo: int, hi: int, h: Zipper)
      requires 0 <= lo <= hi <= |t|
      reads this
    {
      && text == Edited(t, lo, hi, []) && cursor == lo
      && history == if lo < hi then Zipper(h.past + [t], text, []) else h
    }

    /** The characters from `lo` to `hi` were deleted and then `ins` inserted, as two edits if there
        was something to delete; the cursor is behind `ins`. */
    ghost predicate Put(t: Text, lo: int, hi: int, ins: Text, h: Zipper)
      requires 0 <= lo <= hi <= |t|
      reads this
    {
      && text == Edited(t, lo, hi, ins) && cursor == lo + |ins|
      && history == Zipper(h.past + [t] + (if lo < hi then [Edited(t, lo, hi, [])] else []), text, [])
    }

    /** Replaces the selection by `ins`: first it is deleted, then the characters are inserted if there
        is room.  These are two edits, so that one undo brings back the text without either. */
    method Paste(ins: Text) returns (ok: bool)
      requires Valid()
      modifies this`text, this`history, this`exact, undo, undo.recs, undo.chars
      modifies this`selectStart, this`selectEnd, this`cursor
      ensures Valid() && InText() && !HasSelection()
      ensures var t, c := old(text), old(Here()); var lo, hi := c.From(|t|), c.To(|t|);
        && ok == fits(Edited(t, lo, hi, ins)) && (ok ==> exact)
        && if ok then Put(t, lo, hi, ins, old(history)) else Deleted(t, lo, hi, old(history))
      ensures old(HasRoom(Here().To(|text|) - Here().From(|text|))) ==> Forgotten() == old(Forgotten())
    {
      hide Tracks, Edited, Holds, RecordedOne;
      ghost var t, c := text, Here();
      Clamp();
      DeleteSelection();
      PutInPlace(t, c.From(|t|), c.To(|t|), ins);
      ok := InsertAtCursor(ins);
    }

    // ----- keys

    /** A character typed: it replaces the selection, or in insert mode the character behind the
        cursor as a single edit. */
    method TypeChar(c: char)
      requires Valid() && InText()
      modifies this`text, this`history, this`exact, undo, undo.recs, undo.chars
      modifies this`selectStart, this`selectEnd, this`cursor
      ensures InText() && Typed(c, old(text), old(Here()), old(history))
      ensures Loses(Char(c), old(text), old(Here())) || (Valid() && (text == old(text) || exact))
      ensures Loses(Char(c), old(text), old(Here())) || (old(HasRoom(Taken(Char(c)))) ==> Forgotten() == old(Forgotten()))
    {
      hide Tracks, Edited, Holds, CannotRestore, RecordedOne;
      ghost var t, b := text, Here();
      TracksBounds(Now(), history);
      // character 0 is none, and a single line takes no newline
      if c as int == 0 || (c == '\n' && singleLine) {
        return;
      }
      var ok;
      if insertMode && !HasSelection() && cursor < |text| {
        ok := Overwrite(c);
      } else {
        DeleteSelection();
        PutInPlace(t, b.From(|t|), b.To(|t|), [c]);
        ok := InsertAtCursor([c]);
      }
    }

    /** As many characters as a key that edits may take out of the text. */
    ghost function Taken(k: Key): int
      reads this
    {
      if HasSelection() then Here().To(|text|) - Here().From(|text|)
      else if k.Char? && !insertMode then 0 else 1
    }

    /** What typing `c` at text `t`, caret `b` and history `h` has come to.  Only overwriting without
        room loses a character for good. */
    ghost predicate Typed(c: char, t: Text, b: Caret, h: Zipper)
      requires 0 <= b.cursor <= |t| && 0 <= b.selectStart && 0 <= b.selectEnd
      reads this, undo, undo.recs, undo.chars
    {
      var lo, hi := b.From(|t|), b.To(|t|);
      if c as int == 0 || (c == '\n' && singleLine) then text == t && Here() == b && history == h
      else if insertMode && b.selectStart == b.selectEnd && b.cursor < |t| then
        if fits(t[b.cursor := c]) then
          text == t[b.cursor := c] && cursor == b.cursor + 1 && history == Zipper(h.past + [t], text, [])
        else
          text == Edited(t, b.cursor, b.cursor + 1, []) && cursor == b.cursor && CannotRestore(undo.Snap(), text, t, b.cursor)
      else if fits(Edited(t, lo, hi, [c])) then Put(t, lo, hi, [c], h) && !HasSelection()
      else Deleted(t, lo, hi, h) && !HasSelection()
    }

    /** The key overwrites a character by one there is no room for. */
    ghost predicate Loses(k: Key, t: Text, b: Caret)
      requires 0 <= b.cursor <= |t|
      reads this
    {
      && k.Char? && k.c as int != 0 && !(k.c == '\n' && singleLine)
      && insertMode && b.selectStart == b.selectEnd && b.cursor < |t| && !fits(t[b.cursor := k.c])
    }

    method DeleteForward()
      requires Valid() && InText()
      modifies this`text, this`history, this`exact, undo, undo.recs, undo.chars
      modifies this`selectStart, this`selectEnd, this`cursor
      ensures Valid() && InText() && !HasSelection()
      ensures var t, c := old(text), old(Here());
        if c.Selects() then Deleted(t, c.From(|t|), c.To(|t|), old(history))
        else Deleted(t, c.cursor, Min(c.cursor + 1, |t|), old(history))
      ensures text != old(text) ==> exact
      ensures old(HasRoom(Taken(Delete))) ==> Forgotten() == old(Forgotten())
    {
      hide Tracks, Edited, Holds, RecordedOne;
      TracksBounds(Now(), history);
      if HasSelection() {
        DeleteSelection();
        NothingEdited(old(text), cursor);
      } else if cursor < |text| {
        DeleteRange(cursor, 1);
      } else {
        NothingEdited(text, cursor);
      }
    }

    method DeleteBackward()
      requires Valid() && InText()
      modifies this`text, this`history, this`exact, undo, undo.recs, undo.chars
      modifies this`selectStart, this`selectEnd, this`cursor
      ensures Valid() && InText() && !HasSelection()
      ensures var t, c := old(text), old(Here());
        if c.Selects() then Deleted(t, c.From(|t|), c.To(|t|), old(history))
        else Deleted(t, Max(c.cursor - 1, 0), c.cursor, old(history))
      ensures text != old(text) ==> exact
      ensures old(HasRoom(Taken(Backspace))) ==> Forgotten() == old(Forgotten())
    {
      hide Tracks, Edited, Holds, RecordedOne;
      TracksBounds(Now(), history);
      if HasSelection() {
        DeleteSelection();
        NothingEdited(old(text), cursor);
      } else {
        Clamp();
        if cursor > 0 {
          DeleteRange(cursor - 1, 1);
          cursor := cursor - 1;
        } else {
          NothingEdited(text, cursor);
        }
      }
    }

    method MoveToWordPrevious(from: int) returns (c: int)
      requires 0 <= from
      ensures 0 <= c && (c < from || c == 0) && IsWordLeft(text, leftBreak, from, c)
    {
      c := from - 1;
      while c >= 0 && !leftBreak(text, c)
        invariant -1 <= c < from && forall i :: c < i < from ==> !leftBreak(text, i)
      {
        c := c - 1;
      }
      if c < 0 { c := 0; }
    }

    method MoveToWordNext(from: int) returns (c: int)
      requires 0 <= from
      ensures 0 <= c <= |text| && IsWordRight(text, rightBreak, from, c)
    {
      c := from + 1;
      while c < |text| && !rightBreak(text, c)
        invariant from < c && forall i :: from < i < c ==> !rightBreak(text, i)
        invariant c <= |text| || c == from + 1
      {
        c := c + 1;
      }
      if c > |text| { c := |text|; }
    }

    /** The start of the line the position is in. */
    method LineStartAt(from: int) returns (c: int)
      requires 0 <= from <= |text|
      ensures 0 <= c <= from && IsLineStart(text, singleLine, newline, from, c)
    {
      if singleLine {
        return 0;
      }
      c := from;
      while c > 0 && text[c - 1] != newline
        invariant 0 <= c <= from && newline !in text[c..from]
      {
        c := c - 1;
      }
    }

    /** The end of the line the position is in. */
    method LineEndAt(from: int) returns (c: int)
      requires 0 <= from <= |text|
      ensures from <= c <= |text| && IsLineEnd(text, singleLine, newline, from, c)
    {
      if singleLine {
        return |text|;
      }
      c := from;
      while c < |text| && text[c] != newline
        invariant from <= c <= |text| && newline !in text[from..c]
      {
        c := c + 1;
      }
    }

    /** Where a key that drops the selection takes the cursor: to the end of the selection on its
        side, or else from the cursor on.  On a single line up and down are like left and right. */
    ghost predicate Lands(k: Key, b: Caret, c: int)
      requires 0 <= b.cursor <= |text| && 0 <= b.selectStart && 0 <= b.selectEnd
      reads this
    {
      var n := |text|;
      match k
      case Left | Up => c == if b.Selects() then b.First() else Max(b.cursor - 1, 0)
      case Right | Down => c == Min(if b.Selects() then b.Last() else b.cursor + 1, n)
      case WordLeft => if b.Selects() then c == b.First() else IsWordLeft(text, leftBreak, b.cursor, c)
      case WordRight => if b.Selects() then c == b.To(n) else IsWordRight(text, rightBreak, b.cursor, c)
      case TextStart => c == 0
      case TextEnd => c == n
      case LineStart => IsLineStart(text, singleLine, newline, b.From(n), c)
      case LineEnd => IsLineEnd(text, singleLine, newline, b.From(n), c)
      case _ => false
    }

    /** Where a key that extends the selection leaves its two ends: `a` and `c`. */
    ghost predicate Stretches(k: Key, b: Caret, a: int, c: int)
      requires 0 <= b.cursor <= |text| && 0 <= b.selectStart && 0 <= b.selectEnd
      reads this
    {
      var n := |text|;
      match k
      case LeftShift | UpShift => a == Min(b.Anchor(), n) && c == Max(Min(b.Head(), n) - 1, 0)
      case RightShift | DownShift =>
        if b.Anchor() == b.Head() + 1 then a == b.Anchor() && c == b.Head() + 1
        else a == Min(b.Anchor(), n) && c == Min(b.Head() + 1, n)
      case WordLeftShift => a == Min(b.Anchor(), n) && IsWordLeft(text, leftBreak, b.cursor, c)
      case WordRightShift => a == Min(b.Anchor(), n) && IsWordRight(text, rightBreak, b.cursor, c)
      case TextStartShift => a == b.Anchor() && c == 0
      case TextEndShift => a == b.Anchor() && c == n
      case LineStartShift => a == Min(b.Anchor(), n) && IsLineStart(text, singleLine, newline, Min(b.Head(), n), c)
      case LineEndShift => a == Min(b.Anchor(), n) && IsLineEnd(text, singleLine, newline, Min(b.Head(), n), c)
      case _ => false
    }

    /** Moves the cursor, dropping any selection.  The cursor stays in the text exactly unless the
        key puts it at the start of a stale selection. */
    method MoveBy(k: Key)
      requires InText() && 0 <= selectStart && 0 <= selectEnd && MoveKey(k)
      modifies this`selectStart, this`selectEnd, this`cursor
      ensures 0 <= cursor && 0 <= selectStart && 0 <= selectEnd
      ensures Lands(k, old(Here()), cursor) && !HasSelection()
      ensures InText() <==> !Escapes(k, |text|, old(selectStart), old(selectEnd))
    {
      hide IsWordLeft, IsWordRight, IsLineStart, IsLineEnd;
      match k
      case Left =>
        if HasSelection() { MoveToFirst(); } else if cursor > 0 { cursor := cursor - 1; }
      case Right =>
        if HasSelection() { MoveToLast(); } else { cursor := cursor + 1; }
        Clamp();
      case WordLeft =>
        if HasSelection() { MoveToFirst(); } else {
          cursor := MoveToWordPrevious(cursor);
          Clamp();
        }
      case WordRight =>
        if HasSelection() { MoveToLast(); } else {
          cursor := MoveToWordNext(cursor);
          Clamp();
        }
      case TextStart => cursor, selectStart, selectEnd := 0, 0, 0;
      case TextEnd => cursor, selectStart, selectEnd := |text|, 0, 0;
      case LineStart => MoveOnLine(k);
      case LineEnd => MoveOnLine(k);
    }

    method MoveOnLine(k: Key)
      requires InText() && 0 <= selectStart && 0 <= selectEnd && (k.LineStart? || k.LineEnd?)
      modifies this`selectStart, this`selectEnd, this`cursor
      ensures InText() && 0 <= selectStart && !HasSelection() && Lands(k, old(Here()), cursor)
    {
      hide IsLineStart, IsLineEnd;
      Clamp();
      MoveToFirst();
      if k.LineStart? {
        cursor := LineStartAt(cursor);
      } else {
        cursor := LineEndAt(cursor);
      }
    }

    /** Moves the end of the selection.  The cursor follows it, and stays in the text exactly unless
        the selection was stale and collapses by one step to the right. */
    method ExtendBy(k: Key)
      requires InText() && 0 <= selectStart && 0 <= selectEnd && Extends(k)
      modifies this`selectStart, this`selectEnd, this`cursor
      ensures 0 <= cursor && 0 <= selectStart && 0 <= selectEnd
      ensures Stretches(k, old(Here()), selectStart, selectEnd) && cursor == selectEnd
      ensures InText() <==> !Escapes(k, |text|, old(selectStart), old(selectEnd))
    {
      hide IsWordLeft, IsWordRight, IsLineStart, IsLineEnd;
      match k
      case LeftShift =>
        Clamp();
        PrepSelectionAtCursor();
        if selectEnd > 0 { selectEnd := selectEnd - 1; }
        cursor := selectEnd;
      case RightShift =>
        PrepSelectionAtCursor();
        selectEnd := selectEnd + 1;
        Clamp();
        cursor := selectEnd;
      case WordLeftShift => ExtendByWord(k);
      case WordRightShift => ExtendByWord(k);
      case TextStartShift =>
        PrepSelectionAtCursor();
        cursor, selectEnd := 0, 0;
      case TextEndShift =>
        PrepSelectionAtCursor();
        cursor, selectEnd := |text|, |text|;
      case LineStartShift => ExtendOnLine(k);
      case LineEndShift => ExtendOnLine(k);
    }

    method ExtendByWord(k: Key)
      requires InText() && 0 <= selectStart && 0 <= selectEnd && (k.WordLeftShift? || k.WordRightShift?)
      modifies this`selectStart, this`selectEnd, this`cursor
      ensures InText() && 0 <= selectStart && cursor == selectEnd
      ensures Stretches(k, old(Here()), selectStart, selectEnd)
    {
      hide IsWordLeft, IsWordRight;
      if !HasSelection() { PrepSelectionAtCursor(); }
      if k.WordLeftShift? {
        cursor := MoveToWordPrevious(cursor);
      } else {
        cursor := MoveToWordNext(cursor);
      }
      selectEnd := cursor;
      Clamp();
    }

    method ExtendOnLine(k: Key)
      requires InText() && 0 <= selectStart && 0 <= selectEnd && (k.LineStartShift? || k.LineEndShift?)
      modifies this`selectStart, this`selectEnd, this`cursor
      ensures InText() && 0 <= selectStart && cursor == selectEnd
      ensures Stretches(k, old(Here()), selectStart, selectEnd)
    {
      hide IsLineStart, IsLineEnd;
      Clamp();
      PrepSelectionAtCursor();
      if k.LineStartShift? {
        cursor := LineStartAt(cursor);
      } else {
        cursor := LineEndAt(cursor);
      }
      selectEnd := cursor;
    }

    /** Any key that leaves the text alone.  On a single line up and down are like left and right. */
    method Navigate(k: Key)
      requires InText() && 0 <= selectStart && 0 <= selectEnd && (MoveKey(k) || Extends(k) || Vertical(k))
      modifies this`selectStart, this`selectEnd, this`cursor
      ensures 0 <= cursor && 0 <= selectStart && 0 <= selectEnd
      ensures if MoveKey(k) || k.Up? || k.Down? then Lands(k, old(Here()), cursor) && !HasSelection()
        else Stretches(k, old(Here()), selectStart, selectEnd) && cursor == selectEnd
      ensures InText() <==> !Escapes(k, |text|, old(selectStart), old(selectEnd))
    {
      hide IsWordLeft, IsWordRight, IsLineStart, IsLineEnd;
      if MoveKey(k) {
        MoveBy(k);
      } else if Extends(k) {
        ExtendBy(k);
      } else if k.Up? || k.Down? {
        MoveBy(if k.Up? then Left else Right);
      } else {
        ExtendBy(if k.UpShift? then LeftShift else RightShift);
      }
    }

    /** How the field answers a key pressed at text `t`, caret `b` and history `h`; where undo stops
        is up to the records. */
    ghost predicate Responds(k: Key, t: Text, b: Caret, h: Zipper)
      requires 0 <= b.cursor <= |t| && 0 <= b.selectStart && 0 <= b.selectEnd
      reads this, undo, undo.recs, undo.chars
    {
      match k
      case Char(c) => Typed(c, t, b, h)
      case Delete =>
        if b.Selects() then Deleted(t, b.From(|t|), b.To(|t|), h) else Deleted(t, b.cursor, Min(b.cursor + 1, |t|), h)
      case Backspace =>
        if b.Selects() then Deleted(t, b.From(|t|), b.To(|t|), h) else Deleted(t, Max(b.cursor - 1, 0), b.cursor, h)
      case UndoKey => selectStart == b.selectStart && selectEnd == b.selectEnd
      case RedoKey => (exact ==> history == h.Redo()) && selectStart == b.selectStart && selectEnd == b.selectEnd
      case Insert => text == t && history == h && Here() == b
      case Left | Right | Up | Down | WordLeft | WordRight | TextStart | TextEnd | LineStart | LineEnd =>
        text == t && history == h && Lands(k, b, cursor) && !HasSelection()
      case _ => text == t && history == h && Stretches(k, b, selectStart, selectEnd) && cursor == selectEnd
    }

    /** A key that edits the text. */
    method PressEdit(key: Key)
      requires Valid() && InText() && EditKey(key)
      modifies this`text, this`history, this`exact, undo, undo.recs, undo.chars
      modifies this`selectStart, this`selectEnd, this`cursor
      ensures InText() && Responds(key, old(text), old(Here()), old(history))
      ensures Loses(key, old(text), old(Here())) || (Valid() && (text != old(text) ==> exact))
      ensures Loses(key, old(text), old(Here())) || (old(HasRoom(Taken(key))) ==> Forgotten() == old(Forgotten()))
    {
      hide Tracks, Holds, CannotRestore, Edited, OneMore, Typed, Deleted;
      match key
      case Char(c) => TypeChar(c);
      case Delete => DeleteForward();
      case Backspace => DeleteBackward();
    }

    method PressUndo()
      requires Valid() && InText() && UndoEnds(undo.Snap())
      modifies this`text, this`history, this`exact, this`cursor, undo, undo.recs, undo.chars
      ensures Valid() && InText()
      ensures if old(undo.undoPoint == 0 || !UndoWorks(undo.Snap()))
        then text == old(text) && cursor == old(cursor) && history == old(history)
        else text == history.text && history == old(history).Undo()
    {
      hide Tracks, Holds, UndoWorks, UndoGivesUp, RedoTiled, KeepsLevel, UndoFits;
      Undo();
      TracksCounts(Now(), history);
    }

    /** One key.  From a cursor in the text, the cursor stays in it exactly unless the key is one
        that escapes through a stale selection. */
    method Press(key: Key)
      requires Valid() && InText() && (Vertical(key) ==> singleLine)
      requires key.UndoKey? ==> UndoEnds(undo.Snap())
      requires key.RedoKey? ==> RedoReads(undo.Snap(), text)
      requires key.RedoKey? ==> exact || undo.redoPoint == STATES || fits(Redone(undo.Snap(), text))
      modifies this`text, this`history, this`exact, undo, undo.recs, undo.chars
      modifies this`selectStart, this`selectEnd, this`cursor, this`insertMode
      ensures Loses(key, old(text), old(Here())) || (key.RedoKey? && !old(RedoWorks(undo.Snap(), text)))
        || (Valid() && (text != old(text) && EditKey(key) ==> exact))
      ensures InText() <==> !Escapes(key, |old(text)|, old(selectStart), old(selectEnd))
      ensures old(selectStart) <= |old(text)| && old(selectEnd) <= |old(text)| ==> InText()
      ensures Responds(key, old(text), old(Here()), old(history))
      ensures EditKey(key) && !Loses(key, old(text), old(Here())) && old(HasRoom(Taken(key))) ==> Forgotten() == old(Forgotten())
      ensures key.UndoKey? ==> if old(undo.undoPoint == 0 || !UndoWorks(undo.Snap()))
        then text == old(text) && cursor == old(cursor) && history == old(history)
        else text == history.text && history == old(history).Undo()
      ensures key.RedoKey? ==> text == old(Redone(undo.Snap(), text))
      ensures insertMode == if key.Insert? then !old(insertMode) else old(insertMode)
    {
      hide Tracks, Holds, CannotRestore, UndoWorks, UndoGivesUp, RedoWorks, RedoReads, Redone, RedoTiled, KeepsLevel, UndoFits, Edited, OneMore, Typed, Deleted, Put, Lands, Stretches, HasRoom, Forgotten, Taken, Loses, UndoEnds;
      if EditKey(key) {
        PressEdit(key);
      } else if key.Insert? {
        insertMode := !insertMode;
      } else if key.UndoKey? {
        PressUndo();
      } else if key.RedoKey? {
        Redo();
      } else {
        Navigate(key);
      }
    }
  }

  /** One character typed into an empty field. */
  method TypeOne(fits: Text -> bool) returns (f: Field)
    requires Holds(fits, Zipper([], [], [])) && fits(['a'])
    ensures fresh(f) && fresh(f.undo) && fresh(f.undo.recs) && fresh(f.undo.chars) && f.fits == fits && !f.insertMode
    ensures f.Valid() && f.exact && f.cursor == 1 && !f.HasSelection() && f.undo.undoPoint == 1 && f.singleLine
    ensures f.history == Zipper([[]], ['a'], []) && f.text == ['a']
  {
    hide Tracks, Edited, Holds;
    f := new Field(true, '\n', (t, i) => false, (t, i) => false, fits, []);
    TypedTwice();
    TracksBounds(f.Now(), f.history);
    f.TypeChar('a');
  }

  /** Two characters, and the second one selected. */
  method TypeTwo() returns (f: Field)
    ensures fresh(f) && fresh(f.undo) && fresh(f.undo.recs) && fresh(f.undo.chars)
    ensures f.Valid() && f.exact && f.Here() == Caret(1, 2, 1) && f.undo.undoPoint == 2
    ensures f.history == Zipper([[], ['a']], ['a', 'b'], [])
  {
    hide Tracks, Edited;
    f := TypeOne(t => |t| <= 2);
    hide Holds;
    TypedTwice();
    TracksBounds(f.Now(), f.history);
    f.TypeChar('b');
    f.ExtendBy(LeftShift);
  }

  /** A field too small for wide characters, where one overwrites the only character there is: the
      text is empty, and the record to be undone next deletes behind its end. */
  method OverwriteLast() returns (f: Field)
    ensures fresh(f) && f.text == [] && f.Spoilt()
  {
    hide Tracks, Edited, Field.Spoilt, CannotRestore, Holds;
    NarrowHolds();
    f := ReadyToOverwrite(Narrow);
    assert ['a'][0 := 'W'][0] == 'W';
    OneGone();
    f.TypeChar('W');
    SpoiltBy(f, ['a']);
  }

  /** There is no wide character in the text. */
  predicate Narrow(t: Text) { 'W' !in t }

  lemma NarrowHolds()
    ensures Holds(Narrow, Zipper([], [], []))
  {
  }

  /** One character typed, and the cursor before it in insert mode. */
  method ReadyToOverwrite(fits: Text -> bool) returns (f: Field)
    requires Holds(fits, Zipper([], [], [])) && fits(['a'])
    ensures fresh(f) && fresh(f.undo) && fresh(f.undo.recs) && fresh(f.undo.chars) && f.fits == fits && f.insertMode
    ensures f.Valid() && f.cursor == 0 && !f.HasSelection() && f.text == ['a']
  {
    hide Tracks, Holds;
    f := TypeOne(fits);
    f.insertMode := true;
    f.MoveBy(Left);
  }

  lemma OneGone()
    ensures Edited(['a'], 0, 1, []) == []
  {
  }

  lemma SpoiltBy(f: Field, t: Text)
    requires CannotRestore(f.undo.Snap(), f.text, t, |t| - 1)
    ensures f.Spoilt()
  {
  }

  /** A run that ends behind the text: when both characters are undone the selection is stale, and
      left goes to its start. */
  method LeftOfStaleSelection() returns (f: Field)
    ensures fresh(f) && f.Valid() && f.text == [] && f.cursor == 1 && !f.InText()
  {
    hide Tracks, UndoWorks, UndoFits, UndoDiscards, RedoTiled, KeepsLevel;
    f := TypeTwo();
    EmptySide(Session(f.undo.Snap(), f.text, f.exact), f.history);
    f.Undo();
    TiledWorks(f.undo.Snap());
    f.Undo();
    TracksCounts(Session(f.undo.Snap(), f.text, f.exact), f.history);
    f.MoveBy(Left);
  }

  lemma TypedTwice()
    ensures Edited([], 0, 0, ['a']) == ['a'] && Edited(['a'], 1, 1, ['b']) == ['a', 'b']
  {
  }

  /** With nothing to redo, an undo works and keeps the redo side tiled. */
  lemma {:induction false} EmptySide(s: Session, z: Zipper)
    requires Tracks(s, z) && s.exact && z.future == []
    ensures RedoTiled(s.arena) && UndoWorks(s.arena) && (0 < s.arena.undoPoint ==> KeepsLevel(s.arena))
  {
    hide LeadsBack, UndoWorks;
    ExactWorks(s, z);
    NothingBehind(s.arena);
  }

  lemma NothingEdited(t: Text, at: int)
    requires 0 <= at <= |t|
    ensures Edited(t, at, at, []) == t
  {
  }

  /** The record of an overwriting that only deleted brings back too few characters. */
  lemma {:induction false} OverwriteRecord(a: Arena, text: Text, at: int)
    requires UndoTiled(a) && 0 <= at < |text|
    ensures CannotRestore(Recorded(a, at, text[at..at + 1], 1), DeleteChars(text, at, 1), text, at)
  {
    hide Recorded, Cleared, Off, UndoTiled;
    var removed, cut := text[at..at + 1], DeleteChars(text, at, 1);
    var c, b := Cleared(a, 1), Recorded(a, at, removed, 1);
    RecordedPushes(a, at, removed, 1);
    PushedTiled(c, b, b.recs[c.undoPoint], removed);
    forall past | past != [] && LeadsBack(b, past, cut) ensures past[|past| - 1] != text {
      assert Takes(EditAt(b, c.undoPoint), PastAt(past, cut, |past|), past[|past| - 1]);
    }
  }

  lemma PutInPlace(t: Text, lo: int, hi: int, ins: Text)
    requires 0 <= lo <= hi <= |t|
    ensures |Edited(t, lo, hi, [])| == |t| - (hi - lo)
    ensures Edited(Edited(t, lo, hi, []), lo, lo, ins) == Edited(t, lo, hi, ins)
    ensures lo == hi ==> Edited(t, lo, hi, []) == t
  {
  }

  lemma OverwrittenOne(t: Text, at: int, c: char)
    requires 0 <= at < |t|
    ensures Edited(t, at, at + 1, [c]) == t[at := c]
  {
  }

  lemma NothingToUndo(a: Arena)
    requires RedoFormed(a) && a.undoPoint == 0
    ensures UndoWorks(a)
  {
  }

  /** What the field relies on before an undo. */
  lemma {:induction false} ReadyToUndo(s: Session, z: Zipper)
    requires Tracks(s, z) && UndoEnds(s.arena)
    ensures UndoTiled(s.arena) && RedoFormed(s.arena) && z.text == s.text && s.arena.undoPoint <= |z.past|
    ensures 0 < s.arena.undoPoint ==> Ready(s.arena.recs[s.arena.undoPoint - 1], s.text)
    ensures !UndoOutcome(s.arena, s.text).OutOfArray?
  {
    hide LeadsOn, WithRedoRecord, Off, KeptAt, Takes, CanKeep, Formed, MakeRedoRoom, UndoOutcome, Tail;
    var past := Latest(z.past, s.arena.undoPoint);
    PastIsTiled(s.arena, past, s.text);
    if 0 < s.arena.undoPoint {
      TopIsReady(s.arena, past, s.text);
    }
    UndoneIff(s.arena, s.text);
  }

  /** One step of a session and its history. */
  ghost predicate IsNext(s: Session, z: Zipper, op: Op, s': Session, z': Zipper) {
    Tracks(s, z) && Permitted(s, op) && s' == Next(s, z, op) && z' == Moved(s, z, op)
  }

  lemma {:induction false} UndoneIs(s: Session, z: Zipper) returns (s': Session, y: Zipper)
    requires Tracks(s, z) && UndoEnds(s.arena)
    ensures IsNext(s, z, UndoOp, s', y) && Tracks(s', y) && (y == z || y == z.Undo())
  {
    hide Tracks, UndoEnds;
    StepTracks(s, z, UndoOp);
    s', y := Next(s, z, UndoOp), Moved(s, z, UndoOp);
  }

  /** And after it. */
  lemma {:induction false} SettledIs(s: Session, z: Zipper, cursor: int, b: Arena, t: Text, cursor': int)
    requires Tracks(s, z) && UndoEnds(s.arena) && 0 < s.arena.undoPoint && 0 <= cursor
    requires Settles(s.arena, s.text, cursor, b, t, cursor')
    ensures 0 <= cursor' && forall s', y :: IsNext(s, z, UndoOp, s', y) ==> s' == Session(b, t, s'.exact)
  {
    hide LeadsOn, WithRedoRecord, Off, KeptAt, Takes, CanKeep, Formed, MakeRedoRoom, Tail, UndoOutcome, LeadsBack, SlotFree;
    UndoneOrNot(s.arena, s.text);
    if UndoWorks(s.arena) {
      UndoneCursor(s.arena, Latest(z.past, s.arena.undoPoint), s.text);
    } else {
      GivenUpTracks(s, z);
    }
  }

  lemma {:induction false} IsNextMeans(s: Session, z: Zipper, s': Session, z': Zipper)
    requires IsNext(s, z, UndoOp, s', z') && 0 < s.arena.undoPoint
    ensures InBounds(s.arena) && s'.exact == (s.exact && UndoWorks(s.arena) && UndoFits(s.arena))
    ensures z' == if UndoWorks(s.arena) then z.Undo() else z
  {
    hide LeadsOn, LeadsBack, CanKeep, UndoOutcome, SlotFree;
    if s.exact { ExactWorks(s, z); }
  }

  lemma {:induction false} UndoneWell(s: Session, z: Zipper, cursor: int, b: Arena, t: Text, cursor': int)
    requires Tracks(s, z) && UndoWorks(s.arena) && 0 < s.arena.undoPoint && InBounds(s.arena)
    requires Settles(s.arena, s.text, cursor, b, t, cursor')
    ensures z.past != [] && 0 <= cursor' <= |t| && b.undoPoint == s.arena.undoPoint - 1
    ensures RedoTiled(s.arena) ==> (KeepsLevel(s.arena) <==> RedoTiled(b))
    ensures var u := s.arena.recs[s.arena.undoPoint - 1]; cursor' == u.where + u.insertLength
  {
    hide LeadsOn, WithRedoRecord, Off, KeptAt, Takes, CanKeep, Formed, MakeRedoRoom, KeepsLevel, Tail, UndoOutcome, LeadsBack;
    var past := Latest(z.past, s.arena.undoPoint);
    UndoneOrNot(s.arena, s.text);
    UndoneCursor(s.arena, past, s.text);
    if RedoTiled(s.arena) { ArenaTiledIff(s.arena, past, s.text); }
  }

  lemma {:induction false} GivenUpWell(s: Session, z: Zipper, cursor: int, b: Arena, t: Text, cursor': int)
    requires Tracks(s, z) && UndoGivesUp(s.arena) && Settles(s.arena, s.text, cursor, b, t, cursor')
    ensures t == s.text && cursor' == cursor && b.undoPoint == s.arena.undoPoint && b.redoPoint == STATES && UndoGivesUp(b)
  {
    hide LeadsOn, Off, KeptAt, Takes, CanKeep, Formed, MakeRedoRoom, Tail, UndoOutcome, LeadsBack;
    GivenUpTracks(s, z);
  }

  lemma {:induction false} UndoneCursor(a: Arena, past: seq<Text>, text: Text)
    requires LeadsBack(a, past, text) && UndoWorks(a) && 0 < a.undoPoint && Ready(a.recs[a.undoPoint - 1], text)
    ensures var r, u := UndoArena.Undo(a, text), a.recs[a.undoPoint - 1];
      0 <= r.cursor <= |r.text| && r.arena.undoPoint == a.undoPoint - 1 && r.cursor == u.where + u.insertLength
  {
    hide WithRedoRecord, Off, KeptAt, Takes, CanKeep, Formed;
    UndoLeadsBack(a, past, text);
  }

  /** What redo will do, from any record it can read. */
  lemma {:induction false} BeforeRedo(s: Session, z: Zipper)
    requires Tracks(s, z) && RedoReads(s.arena, s.text)
    ensures z.text == s.text && InBounds(s.arena) && (s.exact ==> RedoWorks(s.arena, s.text))
    ensures s.arena.redoPoint < STATES ==> Ready(s.arena.recs[s.arena.redoPoint], s.text) && InArray(s.arena.recs[s.arena.redoPoint])
    ensures var r := UndoArena.Redo(s.arena, s.text);
      && Redone(s.arena, s.text) == r.text
      && (if s.arena.redoPoint == STATES then r == Result(s.arena, s.text, -1) && RedoWorks(s.arena, s.text)
          else var u := s.arena.recs[s.arena.redoPoint]; r.cursor == u.where + u.insertLength && 0 <= r.cursor <= |r.text|)
      && (RedoWorks(s.arena, s.text) ==>
            var y := Moved(s, z, RedoOp);
            && Tracks(Session(r.arena, r.text, s.exact), y) && (s.exact ==> y == z.Redo())
            && (s.arena.redoPoint == STATES ==> y == z)
            && (s.arena.redoPoint < STATES ==> y.past == z.past + [z.text])
            && (!s.exact && s.arena.redoPoint < STATES ==> y == Zipper(z.past + [z.text], r.text, [])))
  {
    hide LeadsBack, LeadsOn, UndoTiled, SlotFree;
    if s.exact { ExactWorks(s, z); }
    if s.arena.redoPoint < STATES { RedoInText(s.arena, s.text); }
    if RedoWorks(s.arena, s.text) { ReadyToRedo(s, z); }
  }

  /** And before and after a redo. */
  lemma {:induction false} ReadyToRedo(s: Session, z: Zipper)
    requires Tracks(s, z) && RedoWorks(s.arena, s.text)
    ensures z.text == s.text && InBounds(s.arena)
    ensures s.arena.redoPoint < STATES ==> Ready(s.arena.recs[s.arena.redoPoint], s.text) && InArray(s.arena.recs[s.arena.redoPoint])
    ensures s.exact ==> Moved(s, z, RedoOp) == z.Redo()
    ensures s.arena.redoPoint == STATES ==> Moved(s, z, RedoOp) == z && UndoArena.Redo(s.arena, s.text) == Result(s.arena, s.text, -1)
    ensures s.arena.redoPoint < STATES ==> var r := UndoArena.Redo(s.arena, s.text);
      && Tracks(Session(r.arena, r.text, s.exact), Moved(s, z, RedoOp)) && 0 <= r.cursor <= |r.text|
      && Moved(s, z, RedoOp).past == z.past + [z.text]
      && var u := s.arena.recs[s.arena.redoPoint]; r.cursor == u.where + u.insertLength
  {
    hide WithUndoRecord, Off, Takes, Formed, Kept, CarriedOut, UndoTiled, Tail, RoomToRedo, KeptAt;
    RedoTracks(s, z);
    if s.exact { OnIsTiled(s.arena, s.text, z.future); }
    if s.arena.redoPoint < STATES {
      RedoStepsOn(s.arena, Latest(z.past, s.arena.undoPoint), s.text);
    }
  }
}
