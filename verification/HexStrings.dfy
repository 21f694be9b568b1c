/** Bytes as hexadecimal text and back. */
module HexStrings {
  import opened Basics

  type Byte = b: int | 0 <= b < 256 witness 0

  // ----- characters

  predicate IsSpace(c: char) { c in " \n\r\t\U{000B}\U{000C}" }

  predicate IsHex(c: char) { '0' <= c <= '9' || 'a' <= c <= 'f' || 'A' <= c <= 'F' }

  function Value(c: char): (v: int)
    requires IsHex(c)
    ensures 0 <= v < 16
  {
    if c <= '9' then c as int - '0' as int
    else if c <= 'F' then c as int - 'A' as int + 10
    else c as int - 'a' as int + 10
  }

  function Digit(v: int): (c: char)
    requires 0 <= v < 16
    ensures IsHex(c) && Value(c) == v
  {
    if v < 10 then ('0' as int + v) as char else ('a' as int + v - 10) as char
  }

  // ----- which characters these are

  /** The character is the digit for `v`, in lower or upper case. */
  ghost predicate Denotes(c: char, v: int) {
    0 <= v < 16 && (c == "0123456789abcdef"[v] || c == "0123456789ABCDEF"[v])
  }

  lemma HexDigits(c: char)
    ensures IsHex(c) <==> c in "0123456789abcdefABCDEF"
    ensures IsHex(c) ==> Denotes(c, Value(c))
  {
  }

  /** No character is the digit for two numbers. */
  lemma {:induction false} ValueIs(c: char, v: int)
    requires Denotes(c, v)
    ensures IsHex(c) && Value(c) == v
  {
  }

  lemma DigitIs(v: int)
    requires 0 <= v < 16
    ensures Digit(v) == "0123456789abcdef"[v]
  {
  }

  function LowerChar(c: char): char {
    if 'A' <= c <= 'F' then (c as int - 'A' as int + 'a' as int) as char else c
  }

  lemma DigitOfValue(c: char)
    requires IsHex(c)
    ensures Digit(Value(c)) == LowerChar(c)
  {
  }

  lemma LowerIs(c: char, v: int)
    requires Denotes(c, v)
    ensures LowerChar(c) == "0123456789abcdef"[v]
  {
  }

  function Lower(s: string): (r: string)
    ensures |r| == |s| && forall i :: 0 <= i < |s| ==> r[i] == LowerChar(s[i])
  {
    if s == "" then "" else [LowerChar(s[0])] + Lower(s[1..])
  }

  ghost predicate AllHex(s: string) { forall i :: 0 <= i < |s| ==> IsHex(s[i]) }

  // ----- printing and reading numbers

  /** A number as the stream prints it, in as many digits as it needs. */
  function Printed(v: int): (s: string)
    requires 0 <= v
    ensures AllHex(s) && 1 <= |s|
    decreases v
  {
    if v < 16 then [Digit(v)] else Printed(v / 16) + [Digit(v % 16)]
  }

  /** Filled up with zeros on the left. */
  function Padded(s: string, width: nat): (r: string)
    ensures |r| == if |s| < width then width else |s|
    decreases width - |s|
  {
    if |s| < width then Padded("0" + s, width) else s
  }

  /** The number a run of hexadecimal digits denotes. */
  function Read(s: string): (v: int)
    requires AllHex(s)
    ensures 0 <= v
  {
    if s == "" then 0 else 16 * Read(s[..|s| - 1]) + Value(s[|s| - 1])
  }

  lemma {:induction false} ReadPrinted(v: int)
    requires 0 <= v
    ensures Read(Printed(v)) == v
    decreases v
  {
    if 16 <= v {
      ReadPrinted(v / 16);
      var s := Printed(v);
      assert s[..|s| - 1] == Printed(v / 16);
    } else {
      assert Printed(v)[..0] == "";
    }
  }

  /** A byte takes two characters, its high and its low digit. */
  lemma {:induction false} PrintedByte(b: Byte)
    ensures Padded(Printed(b), 2) == [Digit(b / 16), Digit(b % 16)]
  {
    if b < 16 {
      assert "0" + Printed(b) == [Digit(0), Digit(b)];
      assert Padded("0" + Printed(b), 2) == "0" + Printed(b);
    } else {
      assert Printed(b / 16) == [Digit(b / 16)];
    }
  }

  // ----- whole strings

  function ToHex(bs: seq<Byte>): string {
    if bs == [] then "" else ToHex(bs[..|bs| - 1]) + Padded(Printed(bs[|bs| - 1]), 2)
  }

  /** As many hexadecimal digits as there are at the front. */
  function LeadingDigits(s: string): (r: string)
    ensures AllHex(r) && r <= s && (AllHex(s) ==> r == s)
  {
    if s != "" && IsHex(s[0]) then [s[0]] + LeadingDigits(s[1..]) else ""
  }

  function SkipSpaces(s: string): string {
    if s != "" && IsSpace(s[0]) then SkipSpaces(s[1..]) else s
  }

  /** A text as the stream gets to see it: character 0 ends it. */
  function UpToZero(s: string): string {
    if s != "" && s[0] as int != 0 then [s[0]] + UpToZero(s[1..]) else ""
  }

  /** The number the stream reads off up to two characters: past white space, perhaps a sign, and
      the digits there are; 0 if there are none. */
  function Extracted(s: string): int
    requires |s| <= 2
  {
    var t := SkipSpaces(UpToZero(s));
    if t != "" && t[0] in "+-" then (if t[0] == '-' then -Read(LeadingDigits(t[1..])) else Read(LeadingDigits(t[1..])))
    else Read(LeadingDigits(t))
  }

  /** The number cut to a byte. */
  function ReadByte(s: string): Byte
    requires |s| <= 2
  {
    Extracted(s) % 256
  }

  /** Two characters to a byte; the last one may stand alone. */
  function FromHex(s: string): (bs: seq<Byte>)
    ensures |bs| == (|s| + 1) / 2
  {
    if s == "" then []
    else
      var n := if |s| % 2 == 0 then 2 else 1;
      FromHex(s[..|s| - n]) + [ReadByte(s[|s| - n..])]
  }

  /** Of two digits the stream reads both. */
  lemma {:induction false} DigitsAreRead(s: string)
    requires AllHex(s) && |s| == 2
    ensures ReadByte(s) == Read(s)
  {
    PairIsByte(s);
    assert UpToZero(s[1..][1..]) == "";
    assert UpToZero(s[1..]) == [s[1]];
    assert UpToZero(s) == s && SkipSpaces(s) == s;
  }

  /** Of two characters the stream reads the digits there are, past white space or after a sign;
      a sign makes the byte its complement, and anything else stops it. */
  lemma {:induction false} PairRead(c: char, d: char)
    ensures IsHex(c) ==> ReadByte([c, d]) == if IsHex(d) then 16 * Value(c) + Value(d) else Value(c)
    ensures c in " \n\r\t\U{000B}\U{000C}" || c == '+' ==> ReadByte([c, d]) == if IsHex(d) then Value(d) else 0
    ensures c == '-' ==> ReadByte([c, d]) == if IsHex(d) then (256 - Value(d)) % 256 else 0
    ensures !IsHex(c) && c !in " \n\r\t\U{000B}\U{000C}+-" ==> ReadByte([c, d]) == 0
  {
    hide Value, ReadByte;
    if IsHex(c) {
      DigitFirst(c, d);
    } else if c in " \n\r\t\U{000B}\U{000C}" {
      SpaceFirst(c, d);
    } else {
      SignFirst(c, d);
    }
  }

  lemma {:induction false} DigitFirst(c: char, d: char)
    requires IsHex(c)
    ensures ReadByte([c, d]) == if IsHex(d) then 16 * Value(c) + Value(d) else Value(c)
  {
    hide Value, Read;
    var t := UpToZero([c, d]);
    OneRead(d);
    assert [c, d][1..] == [d];
    assert t == [c] + UpToZero([d]) && t[1..] == UpToZero([d]);
    assert LeadingDigits(t) == [c] + LeadingDigits(UpToZero([d]));
    DigitRead(c);
    if IsHex(d) {
      PairIsByte([c, d]);
      assert [c] + [d] == [c, d];
    } else {
      assert [c] + "" == [c];
    }
  }

  lemma {:induction false} SpaceFirst(c: char, d: char)
    requires IsSpace(c)
    ensures ReadByte([c, d]) == if IsHex(d) then Value(d) else 0
  {
    hide Value, Read;
    var t := UpToZero([c, d]);
    OneRead(d);
    assert [c, d][1..] == [d];
    assert t[1..] == UpToZero([d]);
    assert SkipSpaces(t) == SkipSpaces(UpToZero([d]));
    OneSkipped(d);
    NothingRead();
  }

  lemma OneSkipped(d: char)
    ensures SkipSpaces(UpToZero([d])) == if d as int == 0 || IsSpace(d) then "" else [d]
    ensures LeadingDigits([d][1..]) == "" && LeadingDigits("") == ""
  {
    assert [d][1..] == "";
  }

  lemma NothingRead()
    ensures AllHex("") && Read("") == 0
  {
  }

  lemma {:induction false} SignFirst(c: char, d: char)
    requires !IsHex(c) && !IsSpace(c)
    ensures c == '+' ==> ReadByte([c, d]) == if IsHex(d) then Value(d) else 0
    ensures c == '-' ==> ReadByte([c, d]) == if IsHex(d) then (256 - Value(d)) % 256 else 0
    ensures c != '+' && c != '-' ==> ReadByte([c, d]) == 0
  {
    hide Value, Read;
    var t := UpToZero([c, d]);
    OneRead(d);
    assert [c, d][1..] == [d];
    NothingRead();
    if c as int != 0 {
      assert t[1..] == UpToZero([d]) && SkipSpaces(t) == t;
    }
  }

  /** What is left of a single character. */
  lemma {:induction false} OneRead(c: char)
    ensures UpToZero([c]) == (if c as int == 0 then "" else [c])
    ensures LeadingDigits(UpToZero([c])) == if IsHex(c) then [c] else ""
    ensures Read(LeadingDigits(UpToZero([c]))) == if IsHex(c) then Value(c) else 0
  {
    assert [c][1..] == "";
    if IsHex(c) { DigitRead(c); }
  }

  lemma DigitRead(c: char)
    requires IsHex(c)
    ensures AllHex([c]) && Read([c]) == Value(c)
  {
    assert [c][..0] == "";
  }

  lemma {:induction false} PairIsByte(s: string)
    requires AllHex(s) && |s| == 2
    ensures Read(s) == 16 * Value(s[0]) + Value(s[1]) && 0 <= Read(s) < 256
  {
    assert s[..1][..0] == "";
    assert Read(s[..1]) == Value(s[0]);
  }

  lemma {:induction false} FromHexAppend(front: string, rest: string)
    requires |front| % 2 == 0 && 1 <= |rest| <= 2
    ensures FromHex(front + rest) == FromHex(front) + [ReadByte(rest)]
  {
    hide ReadByte, FromHex;
    var s := front + rest;
    var n := if |s| % 2 == 0 then 2 else 1;
    assert n == |rest|;
    FromHexLast(s);
    assert s[..|s| - n] == front && s[|s| - n..] == rest;
  }

  lemma FromHexLast(s: string)
    requires s != ""
    ensures var n := if |s| % 2 == 0 then 2 else 1; FromHex(s) == FromHex(s[..|s| - n]) + [ReadByte(s[|s| - n..])]
  {
    hide ReadByte;
  }

  lemma {:induction false} ToHexIsHex(bs: seq<Byte>)
    ensures AllHex(ToHex(bs)) && |ToHex(bs)| == 2 * |bs|
    decreases |bs|
  {
    if bs != [] {
      ToHexIsHex(bs[..|bs| - 1]);
      PrintedByte(bs[|bs| - 1]);
    }
  }

  /** The characters printed for the `i`-th byte. */
  lemma {:induction false} PrintedAt(bs: seq<Byte>, i: nat)
    requires i < |bs|
    ensures |ToHex(bs)| == 2 * |bs|
    ensures ToHex(bs)[2 * i] == "0123456789abcdef"[bs[i] / 16] && ToHex(bs)[2 * i + 1] == "0123456789abcdef"[bs[i] % 16]
    decreases |bs|
  {
    hide Printed, Padded, Digit;
    ToHexIsHex(bs);
    ToHexIsHex(bs[..|bs| - 1]);
    if i < |bs| - 1 {
      PrintedAt(bs[..|bs| - 1], i);
    } else {
      PrintedByte(bs[i]);
      DigitIs(bs[i] / 16);
      DigitIs(bs[i] % 16);
    }
  }

  /** The `i`-th byte read comes from the `i`-th pair of characters, the last of which may be single. */
  lemma {:induction false} ReadAt(s: string, i: nat)
    requires i < (|s| + 1) / 2
    ensures FromHex(s)[i] == ReadByte(s[2 * i..Min(2 * i + 2, |s|)])
    decreases |s|
  {
    hide ReadByte;
    var n := if |s| % 2 == 0 then 2 else 1;
    var front := s[..|s| - n];
    assert FromHex(s) == FromHex(front) + [ReadByte(s[|s| - n..])];
    if i < (|front| + 1) / 2 {
      ReadAt(front, i);
      assert front[2 * i..2 * i + 2] == s[2 * i..2 * i + 2];
    } else {
      assert s[|s| - n..] == s[2 * i..Min(2 * i + 2, |s|)] && |FromHex(front)| == i;
    }
  }

  /** The `i`-th pair of characters are the digits `high` and `low`. */
  ghost predicate PairIs(s: string, i: int, high: int, low: int) {
    0 <= i && 2 * i + 1 < |s| && Denotes(s[2 * i], high) && Denotes(s[2 * i + 1], low)
  }

  /** So two digits give the byte they denote. */
  lemma {:induction false} DigitsAt(s: string, i: nat, high: int, low: int)
    requires PairIs(s, i, high, low)
    ensures FromHex(s)[i] == 16 * high + low
  {
    hide ReadByte, FromHex, Denotes;
    ReadAt(s, i);
    ValueIs(s[2 * i], high);
    ValueIs(s[2 * i + 1], low);
    PairRead(s[2 * i], s[2 * i + 1]);
    assert s[2 * i..2 * i + 2] == [s[2 * i], s[2 * i + 1]];
  }

  /** Reading back what was printed gives the bytes. */
  lemma {:induction false} BytesRoundTrip(bs: seq<Byte>)
    ensures AllHex(ToHex(bs)) && |ToHex(bs)| % 2 == 0 && FromHex(ToHex(bs)) == bs
    decreases |bs|
  {
    hide Digit, Printed, Padded, FromHex, Read, ToHex, ReadByte;
    ToHexIsHex(bs);
    if bs != [] {
      var front, b := bs[..|bs| - 1], bs[|bs| - 1];
      BytesRoundTrip(front);
      assert front + [b] == bs;
      ToHexAppend(front, b);
      ToHexIsHex(front);
      ByteRoundTrip(b);
      FromHexAppend(ToHex(front), Padded(Printed(b), 2));
    } else {
      NothingPrinted();
    }
  }

  lemma NothingPrinted()
    ensures ToHex([]) == "" && FromHex("") == []
  {
  }

  lemma {:induction false} ByteRoundTrip(b: Byte)
    ensures AllHex(Padded(Printed(b), 2)) && |Padded(Printed(b), 2)| == 2 && ReadByte(Padded(Printed(b), 2)) == b
  {
    hide Printed, Padded, Read, ReadByte;
    PrintedByte(b);
    PairIsByte([Digit(b / 16), Digit(b % 16)]);
    DigitsAreRead([Digit(b / 16), Digit(b % 16)]);
  }

  lemma {:induction false} LowerAppend(s: string, t: string)
    ensures Lower(s + t) == Lower(s) + Lower(t)
  {
    hide Lower, LowerChar;
    forall i | 0 <= i < |s| + |t| ensures Lower(s + t)[i] == (Lower(s) + Lower(t))[i] {
      assert i < |s| ==> (s + t)[i] == s[i];
      assert |s| <= i ==> (s + t)[i] == t[i - |s|];
    }
  }

  /** Printing what was read gives the string in lower case. */
  lemma {:induction false} StringRoundTrip(s: string)
    requires AllHex(s) && |s| % 2 == 0
    ensures ToHex(FromHex(s)) == Lower(s)
    decreases |s|
  {
    if s != "" {
      hide Printed, Padded, FromHex, Read, Lower, ReadByte;
      var front, pair := s[..|s| - 2], s[|s| - 2..];
      StringRoundTrip(front);
      LowerAppend(front, pair);
      assert front + pair == s;
      FromHexAppend(front, pair);
      PairIsByte(pair);
      DigitsAreRead(pair);
      PairLower(pair);
      ToHexAppend(FromHex(front), Read(pair));
    }
  }

  lemma ToHexAppend(bs: seq<Byte>, b: Byte)
    ensures ToHex(bs + [b]) == ToHex(bs) + Padded(Printed(b), 2)
  {
    assert (bs + [b])[..|bs|] == bs;
  }

  lemma {:induction false} PairLower(pair: string)
    requires AllHex(pair) && |pair| == 2 && 0 <= Read(pair) < 256
    ensures Padded(Printed(Read(pair)), 2) == Lower(pair)
  {
    hide Padded, Printed, Read, Digit, Value, LowerChar, Lower;
    PairIsByte(pair);
    PrintedByte(Read(pair));
    assert Read(pair) / 16 == Value(pair[0]) && Read(pair) % 16 == Value(pair[1]);
    DigitOfValue(pair[0]);
    DigitOfValue(pair[1]);
    LowerPair(pair);
  }

  lemma LowerPair(pair: string)
    requires |pair| == 2
    ensures Lower(pair) == [LowerChar(pair[0]), LowerChar(pair[1])]
  {
    assert pair[1..] == [pair[1]] && pair[1..][1..] == "";
  }

  // ----- validation

  function WithoutSpaces(s: string): string {
    if s == "" then ""
    else WithoutSpaces(s[..|s| - 1]) + if IsSpace(s[|s| - 1]) then "" else [s[|s| - 1]]
  }

  /** The leading "0x" goes first, then all white space. */
  function Trimmed(s: string): string {
    WithoutSpaces(if "0x" <= s then s[2..] else s)
  }

  /** Where a string goes on behind a leading "0x". */
  ghost function Start(s: string): nat { if |s| >= 2 && s[0] == '0' && s[1] == 'x' then 2 else 0 }

  /** `r` is made up of the characters of `s` at the positions `p`: all those from `start` on where
      there is no white space, in order. */
  ghost predicate Picks(s: string, start: nat, r: string, p: seq<nat>) {
    && |p| == |r|
    && (forall k :: 0 <= k < |p| ==> start <= p[k] < |s| && r[k] == s[p[k]])
    && (forall k, l :: 0 <= k < l < |p| ==> p[k] < p[l])
    && (forall i: nat :: i in p <==> start <= i < |s| && s[i] !in " \n\r\t\U{000B}\U{000C}")
  }

  /** `r` is `s` without a leading "0x" and all white space. */
  ghost predicate IsTrimmed(s: string, r: string) {
    exists p :: Picks(s, Start(s), r, p)
  }

  lemma PicksNothing(s: string, start: nat)
    requires start <= |s|
    ensures Picks(s[..start], start, "", [])
  {
  }

  lemma {:induction false} PicksOneMore(s: string, start: nat, end: nat, r: string, p: seq<nat>)
    requires start <= end < |s| && Picks(s[..end], start, r, p)
    ensures IsSpace(s[end]) ==> Picks(s[..end + 1], start, r, p)
    ensures !IsSpace(s[end]) ==> Picks(s[..end + 1], start, r + [s[end]], p + [end])
  {
    var t, u := s[..end], s[..end + 1];
    assert forall i :: 0 <= i < end ==> t[i] == u[i];
    assert forall i: nat :: i in p + [end] <==> i in p || i == end;
  }

  lemma {:induction false} SpacesGo(s: string, start: nat, end: nat) returns (p: seq<nat>)
    requires start <= end <= |s|
    ensures Picks(s[..end], start, WithoutSpaces(s[start..end]), p)
    decreases end
  {
    hide Picks, IsSpace;
    if start == end {
      p := [];
      assert s[start..end] == "";
      PicksNothing(s, start);
    } else {
      p := SpacesGo(s, start, end - 1);
      var t := s[start..end];
      assert t[..|t| - 1] == s[start..end - 1] && t[|t| - 1] == s[end - 1];
      var rest := WithoutSpaces(s[start..end - 1]);
      PicksOneMore(s, start, end - 1, rest, p);
      assert rest + "" == rest;
      p := if IsSpace(s[end - 1]) then p else p + [end - 1];
    }
  }

  lemma {:induction false} TrimmedIs(s: string)
    ensures IsTrimmed(s, Trimmed(s))
  {
    hide Picks, WithoutSpaces;
    var start := Start(s);
    assert s[..|s|] == s && s[start..|s|] == if start == 2 then s[2..] else s;
    assert "0x" <= s <==> start == 2;
    var p := SpacesGo(s, start, |s|);
  }

  /** There is only one way to trim a string. */
  lemma {:induction false} TrimmedOnce(s: string, r: string)
    requires IsTrimmed(s, r)
    ensures r == Trimmed(s)
  {
    TrimmedIs(s);
    var p :| Picks(s, Start(s), r, p);
    var q :| Picks(s, Start(s), Trimmed(s), q);
    SamePicks(p, q);
  }

  lemma SomeIn(q: seq<nat>)
    ensures q != [] ==> exists i: nat :: i in q
  {
    if q != [] { assert q[0] in q; }
  }

  /** Two increasing sequences of the same numbers are the same. */
  lemma {:induction false} SamePicks(p: seq<nat>, q: seq<nat>)
    requires forall k, l :: 0 <= k < l < |p| ==> p[k] < p[l]
    requires forall k, l :: 0 <= k < l < |q| ==> q[k] < q[l]
    requires forall i: nat :: i in p <==> i in q
    ensures p == q
    decreases |p|
  {
    if p == [] {
      SomeIn(q);
    } else {
      assert p[|p| - 1] in q;
      var n, m := |p| - 1, |q| - 1;
      assert q[m] in p;
      assert p[n] == q[m];
      forall i: nat ensures i in p[..n] <==> i in q[..m] {
        assert i in p[..n] <==> i in p && i != p[n];
        assert i in q[..m] <==> i in q && i != q[m];
      }
      SamePicks(p[..n], q[..m]);
    }
  }

  method Trim(s: string) returns (r: string)
    ensures r == Trimmed(s) && IsTrimmed(s, r)
  {
    hide Picks;
    TrimmedIs(s);
    var t := if "0x" <= s then s[2..] else s;
    r := "";
    for i := 0 to |t|
      invariant r == WithoutSpaces(t[..i])
    {
      assert t[..i + 1][..i] == t[..i];
      if !IsSpace(t[i]) {
        r := r + [t[i]];
      }
    }
    assert t[..|t|] == t;
  }

  /** Trims the string and tells whether it is a string of hexadecimal digit pairs. */
  method ValidateHexString(s: string) returns (ok: bool, trimmed: string)
    ensures ok <==> 2 <= |s| && |trimmed| % 2 == 0 && forall i :: 0 <= i < |trimmed| ==> trimmed[i] in "0123456789abcdefABCDEF"
    ensures if |s| < 2 then trimmed == s else IsTrimmed(s, trimmed)
    ensures ok ==> ToHex(FromHex(trimmed)) == Lower(trimmed)
  {
    hide IsTrimmed;
    forall c: char { HexDigits(c); }
    trimmed := s;
    if |s| < 2 {
      return false, s;
    }
    trimmed := Trim(s);
    if |trimmed| % 2 != 0 {
      return false, trimmed;
    }
    var i := 0;
    while i < |trimmed|
      invariant 0 <= i <= |trimmed| && AllHex(trimmed[..i])
    {
      if !IsHex(trimmed[i]) {
        return false, trimmed;
      }
      i := i + 1;
    }
    assert trimmed[..i] == trimmed;
    StringRoundTrip(trimmed);
    return true, trimmed;
  }

  method ToHexString(data: array<Byte>) returns (dest: string)
    ensures dest == ToHex(data[..]) && |dest| == 2 * data.Length
    ensures forall i :: 0 <= i < data.Length ==>
      dest[2 * i] == "0123456789abcdef"[data[i] / 16] && dest[2 * i + 1] == "0123456789abcdef"[data[i] % 16]
  {
    hide Printed, Padded;
    dest := "";
    for i := 0 to data.Length
      invariant dest == ToHex(data[..i])
    {
      assert data[..i + 1][..i] == data[..i];
      dest := dest + Padded(Printed(data[i]), 2);
    }
    assert data[..data.Length] == data[..];
    ToHexIsHex(data[..]);
    forall i | 0 <= i < data.Length { PrintedAt(data[..], i); }
  }

  /** Converts any string; the store must have room for a byte per two characters or part of it. */
  method FromHexString(s: string, data: array<Byte>)
    requires (|s| + 1) / 2 <= data.Length
    modifies data
    ensures data[..(|s| + 1) / 2] == FromHex(s) && data[(|s| + 1) / 2..] == old(data[(|s| + 1) / 2..])
    ensures forall i, high, low :: PairIs(s, i, high, low) ==> data[i] == 16 * high + low
  {
    hide FromHex, ReadByte, Denotes;
    var strIndex, dataIndex := 0, 0;
    assert FromHex(s[..0]) == [] by { NothingToRead(s[..0]); }
    while strIndex < |s|
      invariant 0 <= strIndex && strIndex == 2 * dataIndex && dataIndex <= (|s| + 1) / 2
      invariant data[..dataIndex] == FromHex(s[..Min(strIndex, |s|)]) && data[dataIndex..] == old(data[dataIndex..])
    {
      // the character behind the last one is a zero, which ends the text
      var rest := s[strIndex..Min(strIndex + 2, |s|)];
      assert s[..Min(strIndex + 2, |s|)] == s[..strIndex] + rest;
      FromHexAppend(s[..strIndex], rest);
      data[dataIndex] := ReadByte(rest);
      strIndex := strIndex + 2;
      dataIndex := dataIndex + 1;
    }
    assert s[..Min(strIndex, |s|)] == s;
    forall i, high, low | PairIs(s, i, high, low) ensures data[i] == 16 * high + low {
      DigitsAt(s, i, high, low);
      assert data[i] == data[..(|s| + 1) / 2][i];
    }
  }

  lemma NothingToRead(s: string)
    requires s == ""
    ensures FromHex(s) == []
  {
  }
}
