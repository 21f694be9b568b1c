/** The undo buffer as data: one array of records and one of characters, each shared by undo
    (growing up from the start) and redo (growing down from the end).

    These functions say what each operation of the engine does to the two arrays; the class
    `UndoBuffer` does the same in place. */
module UndoArena {
  import opened Edits

  const STATES := 99
  const CHARS := 999

  /** `insertLength` characters, kept from `charStorage` on, are to be inserted at `where`
      after `deleteLength` characters were deleted there. */
  datatype Rec = Rec(where: int, insertLength: int, deleteLength: int, charStorage: int)

  datatype Arena = Arena(recs: seq<Rec>, chars: seq<char>, undoPoint: int, redoPoint: int,
                         undoCharPoint: int, redoCharPoint: int)

  /** The four points are where they can be. */
  ghost predicate InBounds(a: Arena) {
    && |a.recs| == STATES && |a.chars| == CHARS
    && 0 <= a.undoPoint <= a.redoPoint <= STATES
    && 0 <= a.undoCharPoint <= a.redoCharPoint <= CHARS
  }

  // ----- tiling

  /** The characters taken up by the records before `i`. */
  ghost function Off(recs: seq<Rec>, i: nat): int
    requires i <= |recs|
    decreases i
  {
    if i == 0 then 0 else Off(recs, i - 1) + recs[i - 1].insertLength
  }

  /** The characters taken up by the records from `i` on. */
  ghost function Tail(recs: seq<Rec>, i: nat): int
    requires i <= |recs|
    decreases |recs| - i
  {
    if i == |recs| then 0 else recs[i].insertLength + Tail(recs, i + 1)
  }

  /** A record with characters keeps them at `at`. */
  ghost predicate KeptAt(r: Rec, at: int) {
    && 0 <= r.where && 0 <= r.insertLength && 0 <= r.deleteLength
    && r.charStorage == if r.insertLength == 0 then -1 else at
  }

  /** The undo records' characters fill the array from the start, in order. */
  ghost predicate UndoTiled(a: Arena) {
    && InBounds(a)
    && (forall i :: 0 <= i < a.undoPoint ==> KeptAt(a.recs[i], Off(a.recs, i)))
    && a.undoCharPoint == Off(a.recs, a.undoPoint)
  }

  /** The redo records' characters fill the array up to the end, in order. */
  ghost predicate RedoTiled(a: Arena) {
    && InBounds(a)
    && (forall i :: a.redoPoint <= i < STATES ==> KeptAt(a.recs[i], CHARS - Tail(a.recs, i)))
    && a.redoCharPoint == CHARS - Tail(a.recs, a.redoPoint)
  }

  /** A record whose place and lengths make sense, wherever its characters are. */
  ghost predicate Formed(r: Rec) { 0 <= r.where && 0 <= r.insertLength && 0 <= r.deleteLength }

  /** What holds of the redo side at any time, also when a record there is not where it should be. */
  ghost predicate RedoFormed(a: Arena) {
    InBounds(a) && forall i :: a.redoPoint <= i < STATES ==> Formed(a.recs[i])
  }

  lemma TiledIsFormed(a: Arena)
    requires RedoTiled(a)
    ensures RedoFormed(a)
  {
  }

  lemma {:induction false} OffGrows(recs: seq<Rec>, i: nat, j: nat)
    requires i <= j <= |recs| && forall k :: i <= k < j ==> 0 <= recs[k].insertLength
    ensures Off(recs, i) <= Off(recs, j)
    decreases j
  {
    if i < j {
      OffGrows(recs, i, j - 1);
    }
  }

  lemma {:induction false} TailShrinks(recs: seq<Rec>, i: nat, j: nat)
    requires i <= j <= |recs| && forall k :: i <= k < j ==> 0 <= recs[k].insertLength
    ensures Tail(recs, j) <= Tail(recs, i)
    decreases j - i
  {
    if i < j {
      TailShrinks(recs, i + 1, j);
    }
  }

  /** The running totals only look at the lengths. */
  ghost predicate SameLengths(r: seq<Rec>, s: seq<Rec>, lo: int, hi: int, d: int)
    requires 0 <= lo && hi <= |r| && 0 <= lo + d && hi + d <= |s|
  {
    forall i :: lo <= i < hi ==> r[i].insertLength == s[i + d].insertLength
  }

  lemma {:induction false} OffShifted(r: seq<Rec>, s: seq<Rec>, i: nat, d: nat)
    requires i <= |r| && i + d <= |s| && SameLengths(r, s, 0, i, d)
    ensures Off(r, i) == Off(s, i + d) - Off(s, d)
    decreases i
  {
    if 0 < i {
      OffShifted(r, s, i - 1, d);
    }
  }

  lemma {:induction false} TailSame(r: seq<Rec>, s: seq<Rec>, i: nat)
    requires |r| == |s| && i <= |r| && SameLengths(r, s, i, |r|, 0)
    ensures Tail(r, i) == Tail(s, i)
    decreases |r| - i
  {
    if i < |r| {
      TailSame(r, s, i + 1);
    }
  }

  /** Dropping the last record and moving the others up by one. */
  lemma {:induction false} TailMoved(r: seq<Rec>, s: seq<Rec>, i: nat)
    requires |r| == |s| && 0 < |s| && 1 <= i <= |r| && SameLengths(r, s, i, |r|, -1)
    ensures Tail(r, i) == Tail(s, i - 1) - s[|s| - 1].insertLength
    decreases |r| - i
  {
    if i < |r| {
      TailMoved(r, s, i + 1);
    }
  }

  // ----- the operations

  function Put(cs: seq<char>, at: int, s: seq<char>): (r: seq<char>)
    requires 0 <= at && at + |s| <= |cs|
    ensures |r| == |cs|
  {
    cs[..at] + s + cs[at + |s|..]
  }

  function Shifted(r: Rec, n: int): Rec {
    if 0 <= r.charStorage then r.(charStorage := r.charStorage + n) else r
  }

  ghost function AllShifted(rs: seq<Rec>, n: int): (r: seq<Rec>)
    ensures |r| == |rs| && forall i :: 0 <= i < |rs| ==> r[i] == Shifted(rs[i], n)
  {
    if rs == [] then [] else AllShifted(rs[..|rs| - 1], n) + [Shifted(rs[|rs| - 1], n)]
  }

  /** How many characters the record takes up. */
  function Held(r: Rec): int { if 0 <= r.charStorage then r.insertLength else 0 }

  ghost function FlushRedo(a: Arena): Arena {
    a.(redoPoint := STATES, redoCharPoint := CHARS)
  }

  /** Drops the oldest undo record; the other ones and their characters move down. */
  ghost function DiscardUndo(a: Arena): (r: Arena)
    requires InBounds(a) && 0 < a.undoPoint && 0 <= Held(a.recs[0]) <= a.undoCharPoint
    ensures InBounds(r)
  {
    var n, up, ucp := Held(a.recs[0]), a.undoPoint, a.undoCharPoint;
    a.(undoPoint := up - 1,
       undoCharPoint := ucp - n,
       chars := a.chars[n..ucp] + a.chars[ucp - n..],
       recs := AllShifted(a.recs[1..up], -n) + [Shifted(a.recs[up - 1], -n)] + a.recs[up..])
  }

  /** Drops the oldest redo record; the other ones and their characters move up. */
  ghost function DiscardRedo(a: Arena): (r: Arena)
    requires InBounds(a) && a.redoPoint < STATES
    requires 0 <= Held(a.recs[STATES - 1]) <= CHARS - a.redoCharPoint
    ensures InBounds(r)
  {
    var n, rp, rcp := Held(a.recs[STATES - 1]), a.redoPoint, a.redoCharPoint;
    a.(redoPoint := rp + 1,
       redoCharPoint := rcp + n,
       chars := a.chars[..rcp + n] + a.chars[rcp..CHARS - n],
       recs := a.recs[..rp]
               + [if rp < STATES - 1 then Shifted(a.recs[rp], n) else a.recs[rp]]
               + AllShifted(a.recs[rp..STATES - 1], n))
  }

  lemma {:induction false} DiscardUndoRecs(a: Arena)
    requires UndoTiled(a) && 0 < a.undoPoint
    ensures 0 <= a.recs[0].insertLength == Held(a.recs[0]) == Off(a.recs, 1) <= a.undoCharPoint
    ensures var r := DiscardUndo(a);
      && (forall i :: 0 <= i < r.undoPoint ==> r.recs[i] == Shifted(a.recs[i + 1], -a.recs[0].insertLength))
      && (forall i :: a.undoPoint <= i < STATES ==> r.recs[i] == a.recs[i])
  {
    OffGrows(a.recs, 1, a.undoPoint);
    assert KeptAt(a.recs[0], 0);
  }

  lemma {:induction false} DiscardUndoTiled(a: Arena)
    requires UndoTiled(a) && 0 < a.undoPoint
    ensures 0 <= Held(a.recs[0]) <= a.undoCharPoint
    ensures var r := DiscardUndo(a);
      && InBounds(a) && UndoTiled(r) && r.undoPoint == a.undoPoint - 1 && r.undoCharPoint == a.undoCharPoint - Held(a.recs[0])
      && r.redoPoint == a.redoPoint && r.redoCharPoint == a.redoCharPoint
  {
    hide DiscardUndo, Off, Shifted;
    DiscardUndoRecs(a);
    DiscardUndoPoints(a);
    var r, n := DiscardUndo(a), a.recs[0].insertLength;
    forall i: nat | i <= r.undoPoint ensures Off(r.recs, i) == Off(a.recs, i + 1) - n {
      DiscardedOff(a, r, i);
    }
    forall i | 0 <= i < r.undoPoint ensures KeptAt(r.recs[i], Off(r.recs, i)) {
      assert KeptAt(a.recs[i + 1], Off(a.recs, i + 1));
      OffGrows(a.recs, 1, i + 1);
      ShiftKept(a.recs[i + 1], Off(a.recs, i + 1), -n);
    }
  }

  lemma ShiftKept(r: Rec, at: int, n: int)
    requires KeptAt(r, at) && 0 <= at
    ensures KeptAt(Shifted(r, n), at + n)
    ensures Shifted(r, n).(charStorage := 0) == r.(charStorage := 0)
  {
  }

  lemma DiscardUndoPoints(a: Arena)
    requires InBounds(a) && 0 < a.undoPoint && 0 <= Held(a.recs[0]) <= a.undoCharPoint
    ensures var r := DiscardUndo(a);
      && InBounds(r) && r.undoPoint == a.undoPoint - 1 && r.undoCharPoint == a.undoCharPoint - Held(a.recs[0])
      && r.redoPoint == a.redoPoint && r.redoCharPoint == a.redoCharPoint
  {
  }

  lemma {:induction false} DiscardedOff(a: Arena, r: Arena, i: nat)
    requires InBounds(a) && InBounds(r) && i <= r.undoPoint < a.undoPoint
    requires forall k :: 0 <= k < r.undoPoint ==> r.recs[k] == Shifted(a.recs[k + 1], -a.recs[0].insertLength)
    ensures Off(r.recs, i) == Off(a.recs, i + 1) - a.recs[0].insertLength
  {
    OffShifted(r.recs, a.recs, i, 1);
    assert Off(a.recs, 1) == Off(a.recs, 0) + a.recs[0].insertLength;
  }

  lemma {:induction false} DiscardRedoRecs(a: Arena)
    requires RedoFormed(a) && a.redoPoint < STATES && Held(a.recs[STATES - 1]) <= CHARS - a.redoCharPoint
    ensures var r, n := DiscardRedo(a), Held(a.recs[STATES - 1]);
      && RedoFormed(r)
      && (forall i :: r.redoPoint <= i < STATES ==> r.recs[i] == Shifted(a.recs[i - 1], n))
      && (forall i :: 0 <= i < a.redoPoint ==> r.recs[i] == a.recs[i])
      && r.redoPoint == a.redoPoint + 1 && r.redoCharPoint == a.redoCharPoint + n
      && r.undoPoint == a.undoPoint && r.undoCharPoint == a.undoCharPoint
      && Formed(r.recs[a.redoPoint])
      && r.recs[a.redoPoint] == if r.redoPoint < STATES then Shifted(a.recs[a.redoPoint], n) else a.recs[a.redoPoint]
  {
  }

  /** On a tiled side the last record holds all its characters, and they are above the redo point. */
  lemma {:induction false} LastHeld(a: Arena)
    requires RedoTiled(a) && a.redoPoint < STATES
    ensures 0 <= a.recs[STATES - 1].insertLength == Held(a.recs[STATES - 1]) <= CHARS - a.redoCharPoint
  {
    TailShrinks(a.recs, a.redoPoint, STATES - 1);
    assert KeptAt(a.recs[STATES - 1], CHARS - Tail(a.recs, STATES - 1));
    assert Tail(a.recs, STATES) == 0;
  }

  lemma {:induction false} DiscardRedoTiled(a: Arena)
    requires RedoTiled(a) && a.redoPoint < STATES
    ensures 0 <= Held(a.recs[STATES - 1]) <= CHARS - a.redoCharPoint
    ensures RedoTiled(DiscardRedo(a))
  {
    hide DiscardRedo, Tail, Shifted;
    LastHeld(a);
    DiscardRedoRecs(a);
    var r, n := DiscardRedo(a), a.recs[STATES - 1].insertLength;
    assert forall i :: r.redoPoint <= i < STATES ==> r.recs[i].insertLength == a.recs[i - 1].insertLength by {
      forall i | r.redoPoint <= i < STATES ensures r.recs[i].insertLength == a.recs[i - 1].insertLength {
        ShiftLength(a.recs[i - 1], n);
      }
    }
    TailMoved(r.recs, a.recs, r.redoPoint);
    forall i | r.redoPoint <= i < STATES ensures KeptAt(r.recs[i], CHARS - Tail(r.recs, i)) {
      TailMoved(r.recs, a.recs, i);
      assert KeptAt(a.recs[i - 1], CHARS - Tail(a.recs, i - 1));
      TailShrinks(a.recs, a.redoPoint, i - 1);
      ShiftKept(a.recs[i - 1], CHARS - Tail(a.recs, i - 1), n);
    }
  }

  lemma ShiftLength(r: Rec, n: int)
    ensures Shifted(r, n).insertLength == r.insertLength
  {
  }

  /** Drops undo records, oldest first, until `n` more characters fit. */
  ghost function MakeRoom(a: Arena, n: int): (r: Arena)
    requires UndoTiled(a) && 0 <= n <= CHARS
    ensures UndoTiled(r) && r.undoCharPoint + n <= CHARS
    ensures r.undoPoint <= a.undoPoint && r.redoPoint == a.redoPoint && r.redoCharPoint == a.redoCharPoint
    ensures r.undoCharPoint <= a.undoCharPoint
    ensures forall i :: a.undoPoint <= i < STATES ==> r.recs[i] == a.recs[i]
    ensures forall i :: a.undoCharPoint <= i < CHARS ==> r.chars[i] == a.chars[i]
    decreases a.undoPoint
  {
    if a.undoCharPoint + n <= CHARS then a
    else
      DiscardUndoTiled(a);
      DiscardUndoRecs(a);
      DiscardUndoChars(a);
      MakeRoom(DiscardUndo(a), n)
  }

  lemma DiscardUndoChars(a: Arena)
    requires InBounds(a) && 0 < a.undoPoint && 0 <= Held(a.recs[0]) <= a.undoCharPoint
    ensures forall i :: a.undoCharPoint <= i < CHARS ==> DiscardUndo(a).chars[i] == a.chars[i]
  {
  }

  /** Dropping the `k` oldest undo records leaves a free record slot and room for `n` characters,
      and dropping fewer does not. */
  ghost predicate FewestDropped(a: Arena, n: int, k: int)
    requires InBounds(a)
  {
    && 0 <= k <= a.undoPoint && SlotAndRoom(a, n, k)
    && forall j :: 0 <= j < k ==> !SlotAndRoom(a, n, j)
  }

  ghost predicate SlotAndRoom(a: Arena, n: int, k: int)
    requires InBounds(a) && 0 <= k <= a.undoPoint
  {
    a.undoPoint - k < STATES && a.undoCharPoint - Off(a.recs, k) + n <= CHARS
  }

  /** `k` records fewer leave the characters at `left`, and any fewer are not enough for `n` more. */
  ghost predicate JustEnough(a: Arena, n: int, k: int, left: int)
    requires InBounds(a)
  {
    && 0 <= k <= a.undoPoint && left == a.undoCharPoint - Off(a.recs, k)
    && forall j: nat :: j < k ==> CHARS < a.undoCharPoint - Off(a.recs, j) + n
  }

  /** Making room drops no record it could keep. */
  lemma {:induction false} RoomDropsFewest(a: Arena, n: int)
    requires UndoTiled(a) && 0 <= n <= CHARS
    ensures var r := MakeRoom(a, n); JustEnough(a, n, a.undoPoint - r.undoPoint, r.undoCharPoint)
    decreases a.undoPoint
  {
    if CHARS < a.undoCharPoint + n {
      hide DiscardUndo, JustEnough, KeptAt;
      DiscardUndoTiled(a);
      DiscardUndoRecs(a);
      RoomDropsFewest(DiscardUndo(a), n);
      var r := MakeRoom(a, n);
      JustOneMore(a, DiscardUndo(a), n, a.undoPoint - r.undoPoint, r.undoCharPoint);
    } else {
      assert Off(a.recs, 0) == 0;
    }
  }

  lemma {:induction false} JustOneMore(a: Arena, d: Arena, n: int, k: int, left: int)
    requires InBounds(a) && InBounds(d) && d.undoPoint == a.undoPoint - 1 && CHARS < a.undoCharPoint + n
    requires d.undoCharPoint == a.undoCharPoint - a.recs[0].insertLength
    requires forall i :: 0 <= i < d.undoPoint ==> d.recs[i] == Shifted(a.recs[i + 1], -a.recs[0].insertLength)
    requires JustEnough(d, n, k - 1, left)
    ensures JustEnough(a, n, k, left)
  {
    hide Shifted;
    DiscardedOff(a, d, k - 1);
    forall j: nat | j < k ensures CHARS < a.undoCharPoint - Off(a.recs, j) + n {
      if 0 < j {
        DiscardedOff(a, d, j - 1);
      } else {
        assert Off(a.recs, 0) == 0;
      }
    }
  }

  // ----- making room on the redo side

  /** The characters held by the records from `i` on, as the records tell. */
  ghost function HeldFrom(recs: seq<Rec>, i: nat): int
    requires i <= |recs|
    decreases |recs| - i
  {
    if i == |recs| then 0 else Held(recs[i]) + HeldFrom(recs, i + 1)
  }

  lemma {:induction false} HeldGrows(recs: seq<Rec>, i: nat, j: nat)
    requires i <= j <= |recs| && forall k :: i <= k < j ==> Formed(recs[k])
    ensures HeldFrom(recs, j) <= HeldFrom(recs, i)
    decreases j - i
  {
    if i < j {
      HeldGrows(recs, i + 1, j);
    }
  }

  lemma {:induction false} HeldMoved(r: seq<Rec>, s: seq<Rec>, i: nat)
    requires |r| == |s| && 0 < |s| && 1 <= i <= |r| && forall k :: i <= k < |r| ==> Held(r[k]) == Held(s[k - 1])
    ensures HeldFrom(r, i) == HeldFrom(s, i - 1) - Held(s[|s| - 1])
    decreases |r| - i
  {
    if i < |r| {
      HeldMoved(r, s, i + 1);
    }
  }

  lemma {:induction false} HeldSame(r: seq<Rec>, s: seq<Rec>, i: nat)
    requires |r| == |s| && i <= |r| && forall k :: i <= k < |r| ==> r[k] == s[k]
    ensures HeldFrom(r, i) == HeldFrom(s, i)
    decreases |r| - i
  {
    if i < |r| {
      HeldSame(r, s, i + 1);
    }
  }

  /** How making room ends: with room, with nothing left to drop, or with a record that claims
      more characters than there are above the redo point, which would be moved out of the array. */
  datatype Room = Made(arena: Arena) | Short(arena: Arena) | Overrun

  /** Drops redo records, oldest first, until `n` characters fit between undo and redo. */
  ghost function MakeRedoRoom(a: Arena, n: int): (r: Room)
    requires RedoFormed(a)
    ensures !r.Overrun? ==>
      && RedoFormed(r.arena) && r.arena.undoPoint == a.undoPoint && r.arena.undoCharPoint == a.undoCharPoint
      && a.redoPoint <= r.arena.redoPoint && a.redoCharPoint <= r.arena.redoCharPoint
    ensures r.Made? ==> a.undoCharPoint + n <= r.arena.redoCharPoint
    ensures r.Short? ==> r.arena.redoPoint == STATES && r.arena.redoCharPoint < a.undoCharPoint + n
    decreases STATES - a.redoPoint
  {
    if a.undoCharPoint + n <= a.redoCharPoint then Made(a)
    else if a.redoPoint == STATES then Short(a)
    else if CHARS - a.redoCharPoint < Held(a.recs[STATES - 1]) then Overrun
    else
      DiscardRedoRecs(a);
      MakeRedoRoom(DiscardRedo(a), n)
  }

  /** Dropping a suffix of the redo records, as they tell their lengths, leaves room for `n`
      characters and does not reach beyond the array. */
  ghost predicate RoomFor(a: Arena, n: int)
    requires InBounds(a)
  {
    exists i: nat :: a.redoPoint <= i <= STATES && Frees(a, n, i)
  }

  ghost predicate Frees(a: Arena, n: int, i: nat)
    requires InBounds(a) && i <= STATES
  {
    a.undoCharPoint + n <= a.redoCharPoint + HeldFrom(a.recs, i) <= CHARS
  }

  /** Room is made exactly when some suffix of the records frees it; and it is short exactly when
      not even all of them do. */
  lemma {:induction false} RoomMadeIff(a: Arena, n: int)
    requires RedoFormed(a)
    ensures MakeRedoRoom(a, n).Made? <==> RoomFor(a, n)
    ensures a.undoCharPoint + n <= CHARS ==>
      (MakeRedoRoom(a, n).Short? <==> a.redoCharPoint + HeldFrom(a.recs, a.redoPoint) < a.undoCharPoint + n)
    decreases STATES - a.redoPoint
  {
    if a.undoCharPoint + n <= a.redoCharPoint {
      assert Frees(a, n, STATES);
      HeldGrows(a.recs, a.redoPoint, STATES);
    } else if a.redoPoint < STATES {
      hide DiscardRedo;
      forall i: nat | a.redoPoint <= i < STATES ensures Held(a.recs[STATES - 1]) <= HeldFrom(a.recs, i) {
        HeldGrows(a.recs, i, STATES - 1);
        assert HeldFrom(a.recs, STATES) == 0;
      }
      if Held(a.recs[STATES - 1]) <= CHARS - a.redoCharPoint {
        RoomMadeIff(DiscardRedo(a), n) by { DiscardRedoRecs(a); }
        DiscardKeepsRoom(a, n);
      }
    }
  }

  /** Dropping the redo records from `i` on leaves room for `n` characters, and dropping fewer does not. */
  ghost predicate FewestFreed(a: Arena, n: int, i: int)
    requires InBounds(a)
  {
    && a.redoPoint <= i <= STATES && a.undoCharPoint + n <= a.redoCharPoint + HeldFrom(a.recs, i)
    && forall j: nat :: i < j <= STATES ==> a.redoCharPoint + HeldFrom(a.recs, j) < a.undoCharPoint + n
  }

  lemma {:induction false} RedoRoomDropsFewest(a: Arena, n: int)
    requires RedoFormed(a) && MakeRedoRoom(a, n).Made?
    ensures FewestFreed(a, n, STATES - (MakeRedoRoom(a, n).arena.redoPoint - a.redoPoint))
    decreases STATES - a.redoPoint
  {
    assert HeldFrom(a.recs, STATES) == 0;
    if a.redoCharPoint < a.undoCharPoint + n {
      hide DiscardRedo, FewestFreed, Formed, Held;
      DiscardRedoRecs(a);
      ShiftedHeld(a);
      RedoRoomDropsFewest(DiscardRedo(a), n);
      FreedOneMore(a, DiscardRedo(a), n, STATES - (MakeRedoRoom(a, n).arena.redoPoint - a.redoPoint));
    }
  }

  lemma {:induction false} FreedOneMore(a: Arena, d: Arena, n: int, i: int)
    requires InBounds(a) && InBounds(d) && d.redoPoint == a.redoPoint + 1 && a.redoCharPoint < a.undoCharPoint + n
    requires d.undoCharPoint == a.undoCharPoint && d.redoCharPoint == a.redoCharPoint + Held(a.recs[STATES - 1])
    requires forall k :: a.redoPoint < k < STATES ==> Held(d.recs[k]) == Held(a.recs[k - 1])
    requires FewestFreed(d, n, i + 1)
    ensures FewestFreed(a, n, i)
  {
    hide Held;
    HeldMoved(d.recs, a.recs, i + 1);
    forall j: nat | i < j <= STATES ensures a.redoCharPoint + HeldFrom(a.recs, j) < a.undoCharPoint + n {
      if j < STATES {
        HeldMoved(d.recs, a.recs, j + 1);
      } else {
        assert HeldFrom(a.recs, STATES) == 0;
      }
    }
  }

  lemma ShiftedHeld(a: Arena)
    requires RedoFormed(a) && a.redoPoint < STATES && Held(a.recs[STATES - 1]) <= CHARS - a.redoCharPoint
    ensures forall i :: a.redoPoint < i < STATES ==> Held(DiscardRedo(a).recs[i]) == Held(a.recs[i - 1])
  {
    DiscardRedoRecs(a);
  }

  /** Dropping one record changes nothing about what can be freed. */
  lemma {:induction false} DiscardKeepsRoom(a: Arena, n: int)
    requires RedoFormed(a) && a.redoPoint < STATES && a.redoCharPoint < a.undoCharPoint + n
    requires Held(a.recs[STATES - 1]) <= CHARS - a.redoCharPoint
    ensures var r := DiscardRedo(a);
      && (RoomFor(r, n) <==> RoomFor(a, n))
      && r.redoCharPoint + HeldFrom(r.recs, r.redoPoint) == a.redoCharPoint + HeldFrom(a.recs, a.redoPoint)
  {
    hide DiscardRedo;
    DiscardRedoRecs(a);
    var r := DiscardRedo(a);
    forall i: nat | r.redoPoint <= i <= STATES
      ensures r.redoCharPoint + HeldFrom(r.recs, i) == a.redoCharPoint + HeldFrom(a.recs, i - 1)
    {
      HeldMoved(r.recs, a.recs, i);
    }
    if RoomFor(r, n) {
      var i: nat :| r.redoPoint <= i <= STATES && Frees(r, n, i);
      assert Frees(a, n, i - 1);
    }
    if RoomFor(a, n) {
      var i: nat :| a.redoPoint <= i <= STATES && Frees(a, n, i);
      assert Frees(r, n, i + 1);
    }
  }

  /** On a tiled side there is always room: with all records gone, everything above the undo
      characters is free. */
  lemma {:induction false} TiledHasRoom(a: Arena, n: int)
    requires RedoTiled(a) && a.undoCharPoint + n <= CHARS
    ensures RoomFor(a, n)
  {
    TiledHeld(a, a.redoPoint);
    assert Frees(a, n, a.redoPoint);
  }

  lemma {:induction false} TiledHeld(a: Arena, i: nat)
    requires RedoTiled(a) && a.redoPoint <= i <= STATES
    ensures HeldFrom(a.recs, i) == Tail(a.recs, i)
    decreases STATES - i
  {
    if i < STATES {
      TiledHeld(a, i + 1);
      TailShrinks(a.recs, a.redoPoint, i);
      assert KeptAt(a.recs[i], CHARS - Tail(a.recs, i));
    }
  }

  /** There making room keeps the side tiled. */
  lemma {:induction false} RoomOnTiled(a: Arena, n: int)
    requires RedoTiled(a) && a.undoCharPoint + n <= CHARS
    ensures RedoFormed(a) && MakeRedoRoom(a, n).Made? && RedoTiled(MakeRedoRoom(a, n).arena)
    decreases STATES - a.redoPoint
  {
    if a.redoCharPoint < a.undoCharPoint + n {
      assert a.redoPoint < STATES;
      LastHeld(a);
      hide DiscardRedo, Tail, KeptAt;
      DiscardRedoRecs(a);
      DiscardRedoTiled(a);
      RoomOnTiled(DiscardRedo(a), n);
    }
  }

  // ----- recording an edit

  /** Makes room for a record with `n` characters; without room even in an empty buffer, the
      whole history is dropped instead. */
  ghost function Cleared(a: Arena, n: int): (r: Arena)
    requires UndoTiled(a) && 0 <= n
    ensures UndoTiled(r) && r.redoPoint == STATES && r.redoCharPoint == CHARS
    ensures n <= CHARS ==> r.undoPoint < STATES && r.undoCharPoint + n <= CHARS
    ensures CHARS < n ==> r.undoPoint == 0
  {
    var f := FlushRedo(a);
    FlushTiled(a);
    var g := if f.undoPoint == STATES then
      DiscardUndoTiled(f);
      DiscardUndo(f) else f;
    if CHARS < n then g.(undoPoint := 0, undoCharPoint := 0) else MakeRoom(g, n)
  }

  /** Recording forgets no more than it must: the fewest oldest records that leave a slot and room
      for the characters. */
  lemma {:induction false} ClearedDropsFewest(a: Arena, n: int)
    requires UndoTiled(a) && 0 <= n <= CHARS
    ensures var r := Cleared(a, n); var k := a.undoPoint - r.undoPoint;
      FewestDropped(a, n, k) && r.undoCharPoint == a.undoCharPoint - Off(a.recs, k)
  {
    hide DiscardUndo, MakeRoom, KeptAt, JustEnough, Off;
    var f := FlushRedo(a);
    FlushTiled(a);
    var g := f;
    if f.undoPoint == STATES {
      DiscardUndoTiled(f);
      DiscardUndoRecs(f);
      g := DiscardUndo(f);
    }
    RoomDropsFewest(g, n);
    FewestOfJust(a, g, n, a.undoPoint - MakeRoom(g, n).undoPoint, MakeRoom(g, n).undoCharPoint);
  }

  /** A full record array loses one record beforehand. */
  lemma {:induction false} FewestOfJust(a: Arena, g: Arena, n: int, k: int, left: int)
    requires InBounds(a) && InBounds(g) && left + n <= CHARS
    requires if a.undoPoint < STATES then g == FlushRedo(a) else
      && g.undoPoint == a.undoPoint - 1 && g.undoCharPoint == a.undoCharPoint - a.recs[0].insertLength
      && (forall i :: 0 <= i < g.undoPoint ==> g.recs[i] == Shifted(a.recs[i + 1], -a.recs[0].insertLength))
    requires JustEnough(g, n, k - (a.undoPoint - g.undoPoint), left)
    ensures FewestDropped(a, n, k) && left == a.undoCharPoint - Off(a.recs, k)
  {
    hide Shifted;
    if a.undoPoint == STATES {
      DiscardedOff(a, g, k - 1);
      forall j | 0 <= j < k ensures !SlotAndRoom(a, n, j) {
        if 0 < j { DiscardedOff(a, g, j - 1); }
      }
    }
  }

  /** Whether a buffer with `up` undo records has one more than it can keep of those of `a`; with too
      many characters for any buffer it has none. */
  ghost predicate RecordedOne(a: Arena, n: int, up: int) {
    InBounds(a) && if n <= CHARS then FewestDropped(a, n, a.undoPoint + 1 - up) else up == 0
  }

  /** In particular none is dropped as long as there is a free slot and room. */
  lemma RecordedOneMore(a: Arena, n: int, up: int)
    requires RecordedOne(a, n, up) && a.undoPoint < STATES && a.undoCharPoint + n <= CHARS
    ensures up == a.undoPoint + 1
  {
    assert SlotAndRoom(a, n, 0);
  }

  lemma FlushTiled(a: Arena)
    requires UndoTiled(a)
    ensures UndoTiled(FlushRedo(a))
  {
  }

  /** The buffer after `removed` was replaced, at `where`, by `inserted` characters. */
  ghost function Recorded(a: Arena, where: int, removed: Text, inserted: int): (r: Arena)
    requires UndoTiled(a)
    ensures InBounds(r) && r.redoPoint == STATES && r.redoCharPoint == CHARS
  {
    var c, n := Cleared(a, |removed|), |removed|;
    if CHARS < n then c
    else
      c.(recs := c.recs[c.undoPoint := Rec(where, n, inserted, if n == 0 then -1 else c.undoCharPoint)],
         chars := Put(c.chars, c.undoCharPoint, removed),
         undoPoint := c.undoPoint + 1, undoCharPoint := c.undoCharPoint + n)
  }

  lemma {:induction false} RecordedIsOne(a: Arena, where: int, removed: Text, inserted: int)
    requires UndoTiled(a)
    ensures RecordedOne(a, |removed|, Recorded(a, where, removed, inserted).undoPoint)
  {
    hide Cleared, FewestDropped;
    if |removed| <= CHARS { ClearedDropsFewest(a, |removed|); }
  }

  /** The buffer `b` is `a` with one more undo record, with `n` characters: nothing is dropped that
      could be kept, so nothing at all as long as there is a free slot and room. */
  ghost predicate OneMore(a: Arena, n: int, b: Arena) {
    && RecordedOne(a, n, b.undoPoint)
    && (a.undoPoint < STATES && a.undoCharPoint + n <= CHARS ==>
          b.undoPoint == a.undoPoint + 1 && b.undoCharPoint == a.undoCharPoint + n)
  }

  lemma {:induction false} RecordedIsOneMore(a: Arena, where: int, removed: Text, inserted: int)
    requires UndoTiled(a)
    ensures OneMore(a, |removed|, Recorded(a, where, removed, inserted))
  {
    RecordedIsOne(a, where, removed, inserted);
    hide RecordedOne, UndoTiled;
    if a.undoPoint < STATES && a.undoCharPoint + |removed| <= CHARS {
      RecordedOneMore(a, |removed|, Recorded(a, where, removed, inserted).undoPoint);
    }
  }

  // ----- undo and redo

  /** The characters a record holds. */
  ghost function Kept(a: Arena, r: Rec): Text {
    if 0 <= r.charStorage && 0 <= r.insertLength && r.charStorage + r.insertLength <= |a.chars|
    then a.chars[r.charStorage..r.charStorage + r.insertLength] else []
  }

  /** What an undo record needs to be carried out. */
  ghost predicate Ready(r: Rec, t: Text) {
    0 <= r.where && 0 <= r.insertLength && 0 <= r.deleteLength && r.where + r.deleteLength <= |t|
  }

  /** The text, the cursor and the buffer after an operation. */
  datatype Result = Result(arena: Arena, text: Text, cursor: int)

  /** The text after a record was carried out. */
  ghost function CarriedOut(a: Arena, r: Rec, t: Text): Text
    requires Ready(r, t)
  {
    InsertChars(DeleteChars(t, r.where, r.deleteLength), r.where, Kept(a, r))
  }

  /** Whether the characters of a record to be undone can be kept for redoing it: there are none,
      they are given up, or room can be made. */
  ghost predicate CanKeep(a: Arena, d: int)
    requires InBounds(a)
  {
    d == 0 || CHARS <= a.undoCharPoint + d || RoomFor(a, d)
  }

  /** Exactly then undo does its work. */
  ghost predicate UndoWorks(a: Arena) {
    RedoFormed(a) && (a.undoPoint == 0 || CanKeep(a, a.recs[a.undoPoint - 1].deleteLength))
  }

  /** Not even all redo records dropped leave room: then undo gives up. */
  ghost predicate UndoGivesUp(a: Arena) {
    && RedoFormed(a) && !UndoWorks(a)
    && a.redoCharPoint + HeldFrom(a.recs, a.redoPoint) < a.undoCharPoint + a.recs[a.undoPoint - 1].deleteLength
  }

  /** Undo does its work or gives up, and in no case leaves the array. */
  ghost predicate UndoEnds(a: Arena) { UndoWorks(a) || UndoGivesUp(a) }

  /** The buffer with a first version of the redo record for `u` in the slot for it. */
  ghost function SlotFilled(a: Arena, u: Rec): (b: Arena)
    requires InBounds(a) && 0 < a.redoPoint
    ensures InBounds(b) && (RedoFormed(a) ==> RedoFormed(b))
  {
    a.(recs := a.recs[a.redoPoint - 1 := Rec(u.where, u.deleteLength, u.insertLength, -1)])
  }

  lemma {:induction false} SlotKeepsRoom(a: Arena, u: Rec, n: int)
    requires RedoFormed(a) && 0 < a.redoPoint
    ensures RoomFor(SlotFilled(a, u), n) <==> RoomFor(a, n)
  {
    var b := SlotFilled(a, u);
    forall i: nat | a.redoPoint <= i <= STATES ensures HeldFrom(b.recs, i) == HeldFrom(a.recs, i) {
      HeldSame(b.recs, a.recs, i);
    }
    if RoomFor(a, n) {
      var i: nat :| a.redoPoint <= i <= STATES && Frees(a, n, i);
      assert Frees(b, n, i);
    }
    if RoomFor(b, n) {
      var i: nat :| a.redoPoint <= i <= STATES && Frees(b, n, i);
      assert Frees(a, n, i);
    }
  }

  lemma {:induction false} SlotKeepsFewest(a: Arena, u: Rec, n: int, i: int)
    requires RedoFormed(a) && 0 < a.redoPoint && FewestFreed(SlotFilled(a, u), n, i)
    ensures FewestFreed(a, n, i)
  {
    var b := SlotFilled(a, u);
    forall j: nat | a.redoPoint <= j <= STATES ensures HeldFrom(b.recs, j) == HeldFrom(a.recs, j) {
      HeldSame(b.recs, a.recs, j);
    }
  }

  /** The redo record made for the undo record `u`, and the buffer it is put in.  Without room for
      the characters it forgets them; if room had to be made, its lengths and its place are
      whatever the slot held before. */
  ghost function WithRedoRecord(a: Arena, u: Rec, t: Text): (r: Arena)
    requires RedoFormed(a) && Ready(u, t) && 0 < a.undoPoint && CanKeep(a, u.deleteLength)
    ensures InBounds(r) && 0 < r.redoPoint && r.undoPoint == a.undoPoint && r.undoCharPoint == a.undoCharPoint
  {
    var slot, d, b := a.redoPoint - 1, u.deleteLength, SlotFilled(a, u);
    if d == 0 then b
    else if CHARS <= a.undoCharPoint + d then b.(recs := b.recs[slot := b.recs[slot].(insertLength := 0)])
    else
      SlotKeepsRoom(a, u, d);
      RoomMadeIff(b, d);
      SavedForRedo(MakeRedoRoom(b, d).arena, t[u.where..u.where + d])
  }

  /** Saves characters below the redo side, and tells the record in the slot there about it. */
  ghost function SavedForRedo(m: Arena, saved: Text): (r: Arena)
    requires InBounds(m) && 0 < m.redoPoint && m.undoCharPoint + |saved| <= m.redoCharPoint
    ensures InBounds(r)
  {
    var at := m.redoCharPoint - |saved|;
    m.(recs := m.recs[m.redoPoint - 1 := m.recs[m.redoPoint - 1].(charStorage := at)],
       redoCharPoint := at, chars := Put(m.chars, at, saved))
  }

  lemma {:induction false} SlotTiled(a: Arena, r: Rec)
    requires RedoTiled(a) && 0 < a.redoPoint
    ensures RedoTiled(a.(recs := a.recs[a.redoPoint - 1 := r]))
  {
    var s := a.recs[a.redoPoint - 1 := r];
    forall i: nat | a.redoPoint <= i <= STATES ensures Tail(s, i) == Tail(a.recs, i) {
      TailSame(s, a.recs, i);
    }
  }

  ghost function Undo(a: Arena, t: Text): (r: Result)
    requires UndoWorks(a)
    requires 0 < a.undoPoint ==> Ready(a.recs[a.undoPoint - 1], t)
    ensures |r.arena.recs| == STATES && 0 <= r.arena.undoPoint <= r.arena.redoPoint <= STATES
    ensures |r.arena.chars| == CHARS && r.arena.redoCharPoint <= CHARS
    ensures UndoTiled(a) ==> InBounds(r.arena)
  {
    if a.undoPoint == 0 then Result(a, t, -1)
    else
      var u := a.recs[a.undoPoint - 1];
      var b := WithRedoRecord(a, u, t);
      assert UndoTiled(a) ==> 0 <= u.insertLength <= a.undoCharPoint by {
        if UndoTiled(a) { TopHeld(a); }
      }
      Result(b.(undoCharPoint := b.undoCharPoint - u.insertLength,
                undoPoint := b.undoPoint - 1, redoPoint := b.redoPoint - 1),
             CarriedOut(b, u, t), u.where + u.insertLength)
  }

  lemma {:induction false} TopHeld(a: Arena)
    requires UndoTiled(a) && 0 < a.undoPoint
    ensures 0 <= a.recs[a.undoPoint - 1].insertLength <= a.undoCharPoint
  {
    OffGrows(a.recs, 0, a.undoPoint - 1);
    assert KeptAt(a.recs[a.undoPoint - 1], Off(a.recs, a.undoPoint - 1));
  }

  /** How an undo ends.  Short of room it gives up, with its slot filled and all redo records
      dropped; an overrun would move characters out of the array. */
  datatype Outcome = Undone(result: Result) | GivenUp(arena: Arena) | OutOfArray

  ghost function UndoOutcome(a: Arena, t: Text): (o: Outcome)
    requires RedoFormed(a)
    requires 0 < a.undoPoint ==> Ready(a.recs[a.undoPoint - 1], t)
  {
    if a.undoPoint == 0 then Undone(Undo(a, t))
    else
      var u := a.recs[a.undoPoint - 1];
      var b, d := SlotFilled(a, u), u.deleteLength;
      if d == 0 || CHARS <= a.undoCharPoint + d then Undone(Undo(a, t))
      else
        SlotKeepsRoom(a, u, d);
        RoomMadeIff(b, d);
        match MakeRedoRoom(b, d)
        case Made(_) => Undone(Undo(a, t))
        case Short(m) => GivenUp(m)
        case Overrun => OutOfArray
  }

  /** Where an outcome leaves buffer, text and cursor; a result of -1 leaves the cursor alone. */
  ghost function AfterUndo(o: Outcome, t: Text, cursor: int): Result
    requires !o.OutOfArray?
  {
    match o
    case Undone(r) => if r.cursor == -1 then Result(r.arena, r.text, cursor) else r
    case GivenUp(b) => Result(b, t, cursor)
  }

  /** An undo that leaves the array in no case takes buffer, text and cursor from one to the other. */
  ghost predicate Settles(a: Arena, t: Text, cursor: int, b: Arena, t': Text, cursor': int) {
    && RedoFormed(a) && (0 < a.undoPoint ==> Ready(a.recs[a.undoPoint - 1], t))
    && !UndoOutcome(a, t).OutOfArray?
    && Result(b, t', cursor') == AfterUndo(UndoOutcome(a, t), t, cursor)
  }

  /** Undo does its work exactly when there is nothing to keep, nothing to be kept, or room for it;
      what goes wrong otherwise shows in the lengths the redo records tell. */
  lemma {:induction false} UndoneIff(a: Arena, t: Text)
    requires RedoFormed(a) && (0 < a.undoPoint ==> Ready(a.recs[a.undoPoint - 1], t))
    ensures UndoOutcome(a, t).Undone? <==> UndoWorks(a)
    ensures UndoOutcome(a, t).GivenUp? <==> UndoGivesUp(a)
    ensures UndoOutcome(a, t).OutOfArray? <==> !UndoEnds(a)
  {
    if 0 < a.undoPoint {
      var u := a.recs[a.undoPoint - 1];
      SlotKeepsRoom(a, u, u.deleteLength);
      RoomMadeIff(SlotFilled(a, u), u.deleteLength);
      HeldSame(SlotFilled(a, u).recs, a.recs, a.redoPoint);
    }
  }

  /** The undo record made for the redo record `r`; without room it records nothing. */
  ghost function WithUndoRecord(a: Arena, r: Rec, t: Text): (b: Arena)
    requires InBounds(a) && Ready(r, t) && a.undoPoint < STATES
    ensures |b.recs| == STATES && |b.chars| == CHARS && b.undoPoint == a.undoPoint && b.redoPoint == a.redoPoint
  {
    var n := r.deleteLength;
    if n == 0 then a.(recs := a.recs[a.undoPoint := Rec(r.where, 0, r.insertLength, -1)])
    else if a.redoCharPoint < a.undoCharPoint + n then a.(recs := a.recs[a.undoPoint := Rec(r.where, 0, 0, -1)])
    else
      a.(recs := a.recs[a.undoPoint := Rec(r.where, n, r.insertLength, a.undoCharPoint)],
         chars := Put(a.chars, a.undoCharPoint, t[r.where..r.where + n]),
         undoCharPoint := a.undoCharPoint + n)
  }

  ghost function Redo(a: Arena, t: Text): Result
    requires InBounds(a)
    requires a.redoPoint < STATES ==> Ready(a.recs[a.redoPoint], t)
  {
    if a.redoPoint == STATES then Result(a, t, -1)
    else
      var r := a.recs[a.redoPoint];
      var b := WithUndoRecord(a, r, t);
      Result(b.(redoCharPoint := b.redoCharPoint + r.insertLength,
                undoPoint := b.undoPoint + 1, redoPoint := b.redoPoint + 1),
             CarriedOut(b, r, t), r.where + r.insertLength)
  }
}
