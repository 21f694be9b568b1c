/** Edits of a text and what undoing them means. */
module Edits {

  type Text = seq<char>

  /** Replaces `del` characters at `where` by `ins`. */
  datatype Edit = Edit(where: int, ins: Text, del: int)

  ghost predicate FitsIn(e: Edit, t: Text) {
    0 <= e.where && 0 <= e.del && e.where + e.del <= |t|
  }

  function DeleteChars(t: Text, where: int, n: int): Text
    requires 0 <= where && 0 <= n && where + n <= |t|
  {
    t[..where] + t[where + n..]
  }

  function InsertChars(t: Text, where: int, s: Text): Text
    requires 0 <= where <= |t|
  {
    t[..where] + s + t[where..]
  }

  /** The text with the characters from `lo` to `hi` replaced by `ins`. */
  function Edited(t: Text, lo: int, hi: int, ins: Text): (r: Text)
    requires 0 <= lo <= hi <= |t|
    ensures |r| == |t| - (hi - lo) + |ins|
  {
    t[..lo] + ins + t[hi..]
  }

  ghost function Apply(e: Edit, t: Text): Text
    requires FitsIn(e, t)
  {
    InsertChars(DeleteChars(t, e.where, e.del), e.where, e.ins)
  }

  /** The edit that takes `Apply(e, t)` back to `t`. */
  ghost function Inverse(e: Edit, t: Text): Edit
    requires FitsIn(e, t)
  {
    Edit(e.where, t[e.where..e.where + e.del], |e.ins|)
  }

  ghost predicate Takes(e: Edit, t: Text, t': Text) {
    FitsIn(e, t) && Apply(e, t) == t'
  }

  lemma {:induction false} InverseTakesBack(e: Edit, t: Text, t': Text)
    requires Takes(e, t, t')
    ensures Takes(Inverse(e, t), t', t)
    ensures Inverse(Inverse(e, t), t') == e
  {
    var w, i := e.where, Inverse(e, t);
    assert t'[w..w + |e.ins|] == e.ins;
    assert DeleteChars(t', w, i.del) == DeleteChars(t, w, e.del);
    assert InsertChars(DeleteChars(t, w, e.del), w, t[w..w + e.del]) == t;
  }

  // ----- the history as an editor's user sees it

  /** The texts undo leads back to (oldest first), the current one, and those redo leads to. */
  datatype Zipper = Zipper(past: seq<Text>, text: Text, future: seq<Text>) {
    function Undo(): Zipper {
      if past == [] then this
      else Zipper(past[..|past| - 1], past[|past| - 1], [text] + future)
    }

    function Redo(): Zipper {
      if future == [] then this
      else Zipper(past + [text], future[0], future[1..])
    }
  }

  ghost function Undos(z: Zipper, n: nat): Zipper
    decreases n
  {
    if n == 0 then z else Undos(z, n - 1).Undo()
  }

  ghost function Redos(z: Zipper, n: nat): Zipper
    decreases n
  {
    if n == 0 then z else Redos(z, n - 1).Redo()
  }

  /** `n` undos give the text `n` edits back. */
  lemma {:induction false} UndosReach(z: Zipper, n: nat)
    requires n <= |z.past|
    ensures Undos(z, n).past == z.past[..|z.past| - n]
    ensures Undos(z, n).text == if n == 0 then z.text else z.past[|z.past| - n]
    ensures n > 0 ==> |Undos(z, n).future| > 0
    decreases n
  {
    if n > 0 {
      UndosReach(z, n - 1);
      assert z.past[..|z.past| - (n - 1)][..|z.past| - n] == z.past[..|z.past| - n];
    }
  }

  lemma UndoRedo(z: Zipper)
    requires z.past != []
    ensures z.Undo().Redo() == z
  {
    assert z.past[..|z.past| - 1] + [z.past[|z.past| - 1]] == z.past;
    assert ([z.text] + z.future)[1..] == z.future;
  }

  lemma {:induction false} RedosShift(z: Zipper, n: nat)
    ensures Redos(z, n + 1) == Redos(z.Redo(), n)
    decreases n
  {
    if n > 0 {
      RedosShift(z, n - 1);
    }
  }

  /** `n` undos and then `n` redos change nothing. */
  lemma {:induction false} UndosThenRedos(z: Zipper, n: nat)
    requires n <= |z.past|
    ensures Redos(Undos(z, n), n) == z
    decreases n
  {
    if n > 0 {
      var mid := Undos(z, n - 1);
      UndosReach(z, n - 1);
      UndoRedo(mid);
      RedosShift(mid.Undo(), n - 1);
      UndosThenRedos(z, n - 1);
    }
  }
}
