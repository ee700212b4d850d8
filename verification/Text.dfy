/** The string operations the text formats are made of. A Go string is a sequence of bytes;
    here it is a sequence of characters, one for each byte. */
module Text {
  import opened Wrappers

  type Octet = n: int | 0 <= n < 256

  // ----- splitting and joining at a separator

  function SplitAt(s: string, sep: char): (parts: seq<string>)
    ensures parts != []
  {
    if s == [] then [[]]
    else
      var rest := SplitAt(s[1..], sep);
      if s[0] == sep then [[]] + rest else [[s[0]] + rest[0]] + rest[1..]
  }

  function Join(parts: seq<string>, sep: char): string
    requires parts != []
  {
    if |parts| == 1 then parts[0] else parts[0] + [sep] + Join(parts[1..], sep)
  }

  predicate Lacks(s: string, c: char) {
    c !in s
  }

  predicate AllLack(parts: seq<string>, c: char) {
    forall i :: 0 <= i < |parts| ==> Lacks(parts[i], c)
  }

  lemma {:induction false} SplitOfJoin(parts: seq<string>, sep: char)
    requires parts != [] && AllLack(parts, sep)
    ensures SplitAt(Join(parts, sep), sep) == parts
  {
    if |parts| == 1 {
      SplitOfPart(parts[0], sep);
      assert parts == [parts[0]];
    } else {
      var rest := Join(parts[1..], sep);
      SplitOfJoin(parts[1..], sep);
      SplitAtSeparator(parts[0], rest, sep);
      assert parts == [parts[0]] + parts[1..];
      assert parts[0] + [sep] + rest == parts[0] + ([sep] + rest);
    }
  }

  lemma {:induction false} SplitOfPart(s: string, sep: char)
    requires Lacks(s, sep)
    ensures SplitAt(s, sep) == [s]
  {
    if s != [] {
      SplitOfPart(s[1..], sep);
      assert [s[0]] + s[1..] == s;
    }
  }

  lemma {:induction false} SplitAtSeparator(s: string, rest: string, sep: char)
    requires Lacks(s, sep)
    ensures SplitAt(s + ([sep] + rest), sep) == [s] + SplitAt(rest, sep)
  {
    var whole := s + ([sep] + rest);
    if s == [] {
      assert whole[1..] == rest;
    } else {
      assert whole[1..] == s[1..] + ([sep] + rest);
      SplitAtSeparator(s[1..], rest, sep);
      assert [s[0]] + s[1..] == s;
    }
  }

  lemma {:induction false} JoinOfSplit(s: string, sep: char)
    ensures Join(SplitAt(s, sep), sep) == s
    ensures AllLack(SplitAt(s, sep), sep)
  {
    if s != [] {
      var rest := SplitAt(s[1..], sep);
      JoinOfSplit(s[1..], sep);
      var parts := SplitAt(s, sep);
      if s[0] == sep {
        assert parts[1..] == rest;
      } else {
        assert parts[1..] == rest[1..];
        assert rest == [rest[0]] + rest[1..];
      }
      forall i | 0 <= i < |parts|
        ensures Lacks(parts[i], sep)
      {
        if s[0] == sep {
          assert i > 0 ==> parts[i] == rest[i - 1];
        } else {
          assert i > 0 ==> parts[i] == rest[i];
          assert Lacks(rest[0], sep);
        }
      }
    }
  }

  /** The part of s before its last separator, or all of it when there is none. */
  function BeforeLast(s: string, sep: char): string {
    if s == [] then []
    else if s[|s| - 1] == sep then s[..|s| - 1]
    else if Lacks(s, sep) then s
    else BeforeLast(s[..|s| - 1], sep)
  }

  lemma {:induction false} BeforeLastOf(s: string, t: string, sep: char)
    requires Lacks(t, sep)
    ensures BeforeLast(s + [sep] + t, sep) == s
    decreases |t|
  {
    var whole := s + [sep] + t;
    assert whole[|s|] == sep;
    if t == [] {
      assert whole[..|whole| - 1] == s;
    } else {
      var shorter := t[..|t| - 1];
      assert whole[..|whole| - 1] == s + [sep] + shorter;
      BeforeLastOf(s, shorter, sep);
    }
  }

  // ----- decimal numbers

  predicate IsDigit(c: char) {
    '0' <= c <= '9'
  }

  function DigitChar(n: nat): (c: char)
    requires n < 10
    ensures IsDigit(c)
  {
    '0' + n as char
  }

  function DigitValue(c: char): (n: nat)
    requires IsDigit(c)
    ensures n < 10
  {
    c as int - '0' as int
  }

  function FormatNat(n: nat): (s: string)
    ensures s != [] && AllDigits(s)
  {
    if n < 10 then [DigitChar(n)] else FormatNat(n / 10) + [DigitChar(n % 10)]
  }

  predicate AllDigits(s: string) {
    forall i :: 0 <= i < |s| ==> IsDigit(s[i])
  }

  /** The value of a string of digits. */
  function NatValue(s: string): nat
    requires AllDigits(s)
  {
    if s == [] then 0 else 10 * NatValue(s[..|s| - 1]) + DigitValue(s[|s| - 1])
  }

  /** Digits only, at least one, leading zeros allowed. */
  function ParseNat(s: string): Option<nat> {
    if s != [] && AllDigits(s) then Some(NatValue(s)) else None
  }

  lemma DigitOfChar(n: nat)
    requires n < 10
    ensures DigitValue(DigitChar(n)) == n
  {}

  lemma {:induction false} ParseOfFormat(n: nat)
    ensures ParseNat(FormatNat(n)) == Some(n)
  {
    var s := FormatNat(n);
    if n >= 10 {
      ParseOfFormat(n / 10);
      assert s[..|s| - 1] == FormatNat(n / 10);
      DigitOfChar(n % 10);
    } else {
      DigitOfChar(n);
      assert s == [DigitChar(n)] && s[..|s| - 1] == [];
      assert NatValue(s) == 10 * NatValue(s[..|s| - 1]) + DigitValue(s[|s| - 1]);
    }
  }

  function FormatInt(n: int): string {
    if n < 0 then "-" + FormatNat(-n) else FormatNat(n)
  }

  const MAX_INT64 := 0x7fff_ffff_ffff_ffff
  const MAX_UINT32 := 0xffff_ffff

  /** An optional sign, then digits, within the range of a 64-bit integer. */
  function ParseInt(s: string): Option<int> {
    var signed := s != [] && (s[0] == '+' || s[0] == '-');
    match ParseNat(if signed then s[1..] else s)
    case None => None
    case Some(magnitude) =>
      var n: int := magnitude;
      var value := if signed && s[0] == '-' then -n else n;
      if -MAX_INT64 - 1 <= value <= MAX_INT64 then Some(value) else None
  }

  function ParseUint32(s: string): Option<nat> {
    match ParseNat(s)
    case None => None
    case Some(n) => if n <= MAX_UINT32 then Some(n) else None
  }

  lemma ParseIntOfFormat(n: nat)
    requires n <= MAX_INT64
    ensures ParseInt(FormatInt(n)) == Some(n)
  {
    ParseOfFormat(n);
    assert IsDigit(FormatNat(n)[0]);
  }

  lemma DigitsLack(s: string, c: char)
    requires AllDigits(s) && !IsDigit(c)
    ensures Lacks(s, c)
  {}

  // ----- hexadecimal

  function HexChar(n: nat): (c: char)
    requires n < 16
    ensures IsLowerHex(c)
  {
    if n < 10 then '0' + n as char else 'a' + (n - 10) as char
  }

  predicate IsLowerHex(c: char) {
    '0' <= c <= '9' || 'a' <= c <= 'f'
  }

  /** Both cases are read; only lower case is written. */
  function HexValue(c: char): (n: Option<nat>)
    ensures n.Some? ==> n.value < 16
  {
    if '0' <= c <= '9' then Some(c as int - '0' as int)
    else if 'a' <= c <= 'f' then Some(c as int - 'a' as int + 10)
    else if 'A' <= c <= 'F' then Some(c as int - 'A' as int + 10)
    else None
  }

  function EncodeHex(b: seq<Octet>): (s: string)
    ensures |s| == 2 * |b|
    ensures forall i :: 0 <= i < |s| ==> IsLowerHex(s[i])
  {
    if b == [] then [] else [HexChar(b[0] / 16), HexChar(b[0] % 16)] + EncodeHex(b[1..])
  }

  function DecodeHex(s: string): Option<seq<Octet>> {
    if s == [] then Some([])
    else if |s| == 1 then None
    else
      match (HexValue(s[0]), HexValue(s[1]), DecodeHex(s[2..]))
      case (Some(hi), Some(lo), Some(rest)) => Some([16 * hi + lo] + rest)
      case _ => None
  }

  lemma {:induction false} DecodeOfEncodeHex(b: seq<Octet>)
    ensures DecodeHex(EncodeHex(b)) == Some(b)
  {
    if b != [] {
      DecodeOfEncodeHex(b[1..]);
      assert EncodeHex(b)[2..] == EncodeHex(b[1..]);
      assert [b[0]] + b[1..] == b;
    }
  }

  // ----- surrounding space

  /** The width of the space character s begins with, or 0: the ASCII spaces, and the UTF-8
      encodings of the other characters Unicode calls white space. */
  function SpaceAtStart(s: string): (w: nat)
    ensures w <= |s|
  {
    if s != [] && IsAsciiSpace(s[0]) then 1
    else if |s| >= 2 && IsTwoByteSpace(s[0], s[1]) then 2
    else if |s| >= 3 && IsThreeByteSpace(s[0], s[1], s[2]) then 3
    else 0
  }

  function SpaceAtEnd(s: string): (w: nat)
    ensures w <= |s|
  {
    var n := |s|;
    if n >= 1 && IsAsciiSpace(s[n - 1]) then 1
    else if n >= 2 && IsTwoByteSpace(s[n - 2], s[n - 1]) then 2
    else if n >= 3 && IsThreeByteSpace(s[n - 3], s[n - 2], s[n - 1]) then 3
    else 0
  }

  predicate IsAsciiSpace(c: char) {
    c == ' ' || '\U{09}' <= c <= '\U{0d}'
  }

  predicate IsTwoByteSpace(a: char, b: char) {
    a == '\U{c2}' && (b == '\U{85}' || b == '\U{a0}')
  }

  predicate IsThreeByteSpace(a: char, b: char, c: char) {
    || (a == '\U{e1}' && b == '\U{9a}' && c == '\U{80}')
    || (a == '\U{e2}' && b == '\U{80}' && ('\U{80}' <= c <= '\U{8a}' || c in {'\U{a8}', '\U{a9}', '\U{af}'}))
    || (a == '\U{e2}' && b == '\U{81}' && c == '\U{9f}')
    || (a == '\U{e3}' && b == '\U{80}' && c == '\U{80}')
  }

  function TrimLeft(s: string): string
    decreases |s|
  {
    var w := SpaceAtStart(s);
    if w == 0 then s else TrimLeft(s[w..])
  }

  function TrimRight(s: string): string
    decreases |s|
  {
    var w := SpaceAtEnd(s);
    if w == 0 then s else TrimRight(s[..|s| - w])
  }

  function TrimSpace(s: string): string {
    TrimRight(TrimLeft(s))
  }

  predicate IsPlain(c: char) {
    '!' <= c <= '~'
  }

  /** Space around a string that begins and ends with plain characters is trimmed away. */
  lemma TrimSpaceAround(before: string, s: string, after: string)
    requires TrimLeft(before) == [] && TrimRight(after) == []
    requires s != [] && IsPlain(s[0]) && IsPlain(s[|s| - 1])
    ensures TrimSpace(before + s + after) == s
  {
    assert before + s + after == before + (s + after);
    TrimLeftOf(before, s + after);
    TrimRightOf(s, after);
  }

  lemma {:induction false} TrimLeftOf(before: string, s: string)
    requires TrimLeft(before) == [] && s != [] && IsPlain(s[0])
    ensures TrimLeft(before + s) == s
    decreases |before|
  {
    if before == [] {
      assert before + s == s;
    } else {
      var w := SpaceAtStart(before);
      assert SpaceAtStart(before + s) == w;
      assert (before + s)[w..] == before[w..] + s;
      TrimLeftOf(before[w..], s);
    }
  }

  lemma {:induction false} TrimRightOf(s: string, after: string)
    requires TrimRight(after) == [] && s != [] && IsPlain(s[|s| - 1])
    ensures TrimRight(s + after) == s
    decreases |after|
  {
    if after == [] {
      assert s + after == s;
    } else {
      var w := SpaceAtEnd(after);
      assert SpaceAtEnd(s + after) == w;
      assert (s + after)[..|s + after| - w] == s + after[..|after| - w];
      TrimRightOf(s, after[..|after| - w]);
    }
  }
}
