/** The shortest replacement that turns one text into another. */
module Reconcile {
  import opened Edits

  /** `before` becomes `after` when `before[lo..hi]` is replaced by `after[lo..to]`. */
  ghost predicate TurnsInto(before: Text, after: Text, lo: int, hi: int, to: int) {
    0 <= lo <= hi <= |before| && lo <= to <= |after| && Edited(before, lo, hi, after[lo..to]) == after
  }

  /** Finds what has to be replaced: no other single replacement deletes or inserts fewer characters. */
  method Difference(before: Text, after: Text) returns (lo: int, hi: int, to: int)
    ensures TurnsInto(before, after, lo, hi, to)
    ensures lo == |before| == |after| <==> before == after
    ensures lo == hi == to ==> before == after
    ensures forall at, end, ins :: 0 <= at <= end <= |before| && Edited(before, at, end, ins) == after
              ==> hi - lo <= end - at && to - lo <= |ins|
  {
    lo, hi, to := 0, |before|, |after|;
    while lo < |before| && lo < |after| && before[lo] == after[lo]
      invariant 0 <= lo <= |before| && lo <= |after| && before[..lo] == after[..lo]
    {
      lo := lo + 1;
    }
    while lo < hi && lo < to && before[hi - 1] == after[to - 1]
      invariant lo <= hi <= |before| && lo <= to <= |after| && |before| - hi == |after| - to
      invariant before[hi..] == after[to..]
    {
      hi, to := hi - 1, to - 1;
    }
    Joins(before, after, lo, hi, to);
    forall at, end, ins | 0 <= at <= end <= |before| && Edited(before, at, end, ins) == after
      ensures hi - lo <= end - at && to - lo <= |ins|
    {
      Shortest(before, after, lo, hi, to, at, end, ins);
    }
  }

  lemma Joins(before: Text, after: Text, lo: int, hi: int, to: int)
    requires 0 <= lo <= hi <= |before| && lo <= to <= |after|
    requires before[..lo] == after[..lo] && before[hi..] == after[to..]
    ensures TurnsInto(before, after, lo, hi, to)
    ensures lo == hi == to ==> before == after
  {
    assert after == after[..lo] + after[lo..to] + after[to..];
    assert lo == hi ==> before == before[..lo] + before[hi..];
  }

  /** Any other replacement keeps a common prefix and a common suffix, which together are no longer. */
  lemma {:induction false} Shortest(before: Text, after: Text, lo: int, hi: int, to: int, at: int, end: int, ins: Text)
    requires 0 <= lo <= hi <= |before| && lo <= to <= |after| && |before| - hi == |after| - to
    requires lo == |before| || lo == |after| || before[lo] != after[lo]
    requires lo == hi || lo == to || before[hi - 1] != after[to - 1]
    requires 0 <= at <= end <= |before| && Edited(before, at, end, ins) == after
    ensures hi - lo <= end - at && to - lo <= |ins|
  {
    var kept := |before| - hi;
    assert forall i :: 0 <= i < at ==> after[i] == before[i];
    assert kept < |before| - end ==> after[|after| - 1 - kept] == before[|before| - 1 - kept];
  }
}
