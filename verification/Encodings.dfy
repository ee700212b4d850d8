/** What the text encodings read and write, character by character. */
module Encodings {
  import opened Wrappers
  import opened Text
  import opened Base64

  const LOWER := "0123456789abcdef"
  const UPPER := "0123456789ABCDEF"

  // ----- hexadecimal

  lemma HexDigitExactly(c: char, n: nat)
    requires n < 16
    ensures HexValue(c) == Some(n) <==> c == LOWER[n] || c == UPPER[n]
  {}

  lemma HexCharExactly(n: nat)
    requires n < 16
    ensures HexChar(n) == LOWER[n]
  {}

  predicate HexPair(s: string, b: Octet)
    requires |s| == 2
  {
    && (s[0] == LOWER[b / 16] || s[0] == UPPER[b / 16])
    && (s[1] == LOWER[b % 16] || s[1] == UPPER[b % 16])
  }

  /** Two digits for each byte, the high one first, in either case. */
  lemma {:induction false} DecodesExactly(s: string, b: seq<Octet>)
    ensures DecodeHex(s) == Some(b) <==>
              |s| == 2 * |b| && forall i :: 0 <= i < |b| ==> HexPair(s[2 * i..2 * i + 2], b[i])
    decreases |s|
  {
    hide HexValue;
    if |s| >= 2 && b != [] {
      DecodesExactly(s[2..], b[1..]);
      PairExactly(s[0], s[1], b[0]);
      assert s[0..2] == [s[0], s[1]];
      if |s| == 2 * |b| {
        assert forall i :: 0 <= i < |b| - 1 ==> s[2..][2 * i..2 * i + 2] == s[2 * (i + 1)..2 * (i + 1) + 2];
        assert forall i :: 0 < i < |b| ==> b[i] == b[1..][i - 1];
      }
      assert b == [b[0]] + b[1..];
    }
  }

  lemma PairExactly(x: char, y: char, b: Octet)
    ensures (HexValue(x).Some? && HexValue(y).Some? && 16 * HexValue(x).value + HexValue(y).value == b)
            <==> HexPair([x, y], b)
  {
    hide HexValue, HexPair;
    DigitsPair(x, y, b);
    if HexValue(x).Some? && HexValue(y).Some? {
      NibblesExactly(HexValue(x).value, HexValue(y).value, b);
    }
  }

  lemma NibblesExactly(hi: nat, lo: nat, b: Octet)
    requires lo < 16
    ensures 16 * hi + lo == b <==> hi == b / 16 && lo == b % 16
  {}

  lemma DigitsPair(x: char, y: char, b: Octet)
    ensures HexPair([x, y], b) <==> HexValue(x) == Some(b / 16) && HexValue(y) == Some(b % 16)
  {
    hide HexValue;
    HexDigitExactly(x, b / 16);
    HexDigitExactly(y, b % 16);
  }

  predicate IsHexDigit(c: char) {
    c in LOWER || c in UPPER
  }

  lemma SomeDigitExactly(c: char)
    ensures HexValue(c).Some? <==> IsHexDigit(c)
  {
    if HexValue(c).Some? {
      HexDigitExactly(c, HexValue(c).value);
    }
  }

  /** Exactly the strings of an even number of hexadecimal digits decode. */
  lemma {:induction false} DecodableExactly(s: string)
    ensures DecodeHex(s).Some? <==> |s| % 2 == 0 && forall i :: 0 <= i < |s| ==> IsHexDigit(s[i])
    decreases |s|
  {
    hide HexValue, IsHexDigit;
    if |s| >= 2 {
      SomeDigitExactly(s[0]);
      SomeDigitExactly(s[1]);
      DecodableExactly(s[2..]);
      assert forall i :: 2 <= i < |s| ==> s[i] == s[2..][i - 2];
    }
  }

  lemma {:induction false} EncodesExactly(b: seq<Octet>, i: nat)
    requires i < |b|
    ensures EncodeHex(b)[2 * i] == LOWER[b[i] / 16] && EncodeHex(b)[2 * i + 1] == LOWER[b[i] % 16]
  {
    if i == 0 {
      HexCharExactly(b[0] / 16);
      HexCharExactly(b[0] % 16);
    } else {
      hide HexChar;
      EncodesExactly(b[1..], i - 1);
    }
  }

  lemma EncodeOfDecoded(s: string, d: seq<Octet>)
    requires DecodeHex(s) == Some(d) && forall i :: 0 <= i < |s| ==> IsLowerHex(s[i])
    ensures EncodeHex(d) == s
  {
    hide *;
    DecodedLength(s, d);
    forall i | 0 <= i < |d|
      ensures EncodeHex(d)[2 * i] == s[2 * i] && EncodeHex(d)[2 * i + 1] == s[2 * i + 1]
    {
      DigitsOf(s, d, i);
    }
    forall j | 0 <= j < |s|
      ensures EncodeHex(d)[j] == s[j]
    {
      assert j == 2 * (j / 2) || j == 2 * (j / 2) + 1;
    }
  }

  lemma DecodedLength(s: string, d: seq<Octet>)
    requires DecodeHex(s) == Some(d)
    ensures |s| == 2 * |d|
  {
    hide DecodeHex;
    DecodesExactly(s, d);
  }

  lemma DigitsOf(s: string, d: seq<Octet>, i: nat)
    requires DecodeHex(s) == Some(d) && |s| == 2 * |d| && i < |d|
    requires IsLowerHex(s[2 * i]) && IsLowerHex(s[2 * i + 1])
    ensures EncodeHex(d)[2 * i] == s[2 * i] && EncodeHex(d)[2 * i + 1] == s[2 * i + 1]
  {
    hide DecodeHex, EncodeHex, IsLowerHex;
    DecodesExactly(s, d);
    assert HexPair(s[2 * i..2 * i + 2], d[i]);
    EncodesExactly(d, i);
    LowerDigitOf(s[2 * i], d[i] / 16);
    LowerDigitOf(s[2 * i + 1], d[i] % 16);
  }

  lemma LowerDigitOf(c: char, n: nat)
    requires n < 16 && IsLowerHex(c) && (c == LOWER[n] || c == UPPER[n])
    ensures c == LOWER[n]
  {}

  // ----- decimal

  const DIGITS := "0123456789"

  function Power(n: nat): (p: nat)
    ensures p > 0
  {
    if n == 0 then 1 else 10 * Power(n - 1)
  }

  lemma DigitExactly(n: nat)
    requires n < 10
    ensures DigitChar(n) == DIGITS[n] && IsDigit(DIGITS[n]) && DigitValue(DIGITS[n]) == n
  {}

  lemma IsDigitExactly(c: char)
    ensures IsDigit(c) <==> c in DIGITS
  {
    if IsDigit(c) {
      assert DIGITS[c as int - '0' as int] == c;
    }
  }

  lemma ValueOfLast(s: string, c: char)
    requires AllDigits(s) && IsDigit(c)
    ensures AllDigits(s + [c]) && NatValue(s + [c]) == 10 * NatValue(s) + DigitValue(c)
    ensures NatValue([]) == 0
  {
    hide DigitValue;
    assert (s + [c])[..|s|] == s;
  }

  /** The digit at each place counts its power of ten. */
  lemma {:induction false} ValueByPlace(s: string, t: string)
    requires AllDigits(s) && AllDigits(t)
    ensures AllDigits(s + t) && NatValue(s + t) == NatValue(s) * Power(|t|) + NatValue(t)
    decreases |t|
  {
    hide NatValue, DigitValue;
    ValueOfLast([], '0');
    if t == [] {
      assert s + t == s;
    } else {
      var shorter, last := t[..|t| - 1], t[|t| - 1];
      ValueByPlace(s, shorter);
      ValueOfLast(s + shorter, last);
      ValueOfLast(shorter, last);
      assert t == shorter + [last] && s + t == s + shorter + [last];
      assert NatValue(s) * Power(|t|) == 10 * (NatValue(s) * Power(|t| - 1));
    }
  }

  /** A number is written without leading zeros, and is the only such string of its value. */
  lemma FormatExactly(s: string, n: nat)
    ensures s == FormatNat(n) <==> ParseNat(s) == Some(n) && (s[0] == '0' ==> |s| == 1)
  {
    if s == FormatNat(n) {
      ParseOfFormat(n);
      NoLeadingZero(n);
    } else if ParseNat(s) == Some(n) && (s[0] == '0' ==> |s| == 1) {
      CanonicalIsFormatted(s);
    }
  }

  lemma {:induction false} CanonicalIsFormatted(s: string)
    requires s != [] && AllDigits(s) && (s[0] == '0' ==> |s| == 1)
    ensures FormatNat(NatValue(s)) == s
  {
    var shorter, last := s[..|s| - 1], s[|s| - 1];
    assert DigitChar(DigitValue(last)) == last;
    assert s == shorter + [last];
    if shorter == [] {
      assert NatValue(s) == 10 * NatValue(shorter) + DigitValue(last) == DigitValue(last);
    } else {
      CanonicalIsFormatted(shorter);
      LeadingDigitCounts(shorter);
      assert NatValue(s) / 10 == NatValue(shorter) && NatValue(s) % 10 == DigitValue(last);
    }
  }

  lemma {:induction false} NoLeadingZero(n: nat)
    ensures FormatNat(n)[0] == '0' ==> |FormatNat(n)| == 1 && n == 0
  {
    if n >= 10 {
      NoLeadingZero(n / 10);
    }
  }

  lemma {:induction false} LeadingDigitCounts(s: string)
    requires s != [] && AllDigits(s) && s[0] != '0'
    ensures NatValue(s) > 0
  {
    if |s| > 1 {
      LeadingDigitCounts(s[..|s| - 1]);
    }
  }

  /** An integer is an optional sign and digits, read within 64 bits. */
  lemma IntegerExactly(sign: string, digits: string)
    requires sign in {"", "+", "-"} && (digits != [] ==> digits[0] !in {'+', '-'})
    ensures ParseInt(sign + digits) ==
      if ParseNat(digits).None? then None
      else
        var n: int := ParseNat(digits).value;
        var value := if sign == "-" then -n else n;
        if -0x8000_0000_0000_0000 <= value <= 0x7fff_ffff_ffff_ffff then Some(value) else None
  {
    var s := sign + digits;
    if sign == "" {
      assert s == digits;
    } else {
      assert s[1..] == digits;
    }
  }

  // ----- base64

  const CAPITALS := "ABCDEFGHIJKLMNOPQRSTUVWXYZ"
  const SMALLS := "abcdefghijklmnopqrstuvwxyz"
  const LETTERS := CAPITALS + SMALLS + DIGITS + "+/"

  lemma CapitalExactly(n: nat)
    requires n < 26
    ensures CAPITALS[n] == 'A' + n as char
  {}

  lemma SmallExactly(n: nat)
    requires n < 26
    ensures SMALLS[n] == 'a' + n as char
  {}

  lemma SpelledLetter(n: Sextet)
    ensures Letter(n) == LETTERS[n]
  {
    if n < 26 {
      CapitalExactly(n);
      assert LETTERS[n] == CAPITALS[n];
    } else if n < 52 {
      SmallExactly(n - 26);
      assert LETTERS[n] == SMALLS[n - 26];
    } else if n < 62 {
      DigitExactly(n - 52);
      assert LETTERS[n] == DIGITS[n - 52];
    }
  }

  lemma LetterExactly(c: char, n: Sextet)
    ensures LetterValue(c) == Some(n) <==> c == LETTERS[n]
  {
    hide Letter, LetterValue;
    SpelledLetter(n);
    ValueOfLetter(c, n);
  }

  lemma ValueOfLetter(c: char, n: Sextet)
    ensures LetterValue(c) == Some(n) <==> c == Letter(n)
  {}

  lemma Associates(a: string, b: string, c: string)
    ensures (a + b) + c == a + (b + c)
  {}

  /** Line breaks are skipped and everything else stays in order. */
  lemma {:induction false} SkipsExactly(a: string, b: string, c: char)
    ensures SkipLineBreaks(a + b) == SkipLineBreaks(a) + SkipLineBreaks(b)
    ensures SkipLineBreaks([c]) == if c == '\n' || c == '\r' then [] else [c]
  {
    hide SkipLineBreaks;
    SkipsOne(c, []);
    assert [c] + [] == [c];
    if a == [] {
      assert a + b == b && [] + SkipLineBreaks(b) == SkipLineBreaks(b);
    } else {
      var rest := a[1..];
      SkipsExactly(rest, b, c);
      SkipsOne(a[0], rest);
      SkipsOne(a[0], rest + b);
      assert a == [a[0]] + rest && a + b == [a[0]] + (rest + b);
      Associates(if a[0] == '\n' || a[0] == '\r' then [] else [a[0]], SkipLineBreaks(rest), SkipLineBreaks(b));
    }
  }

  lemma SkipsOne(c: char, s: string)
    ensures SkipLineBreaks([]) == []
    ensures SkipLineBreaks([c] + s) == (if c == '\n' || c == '\r' then [] else [c]) + SkipLineBreaks(s)
  {
    assert ([c] + s)[1..] == s;
  }

  /** The byte whose first 6 - 2r bits end one group of six and whose others begin the next. */
  function Straddle(x: Sextet, y: Sextet, r: nat): Octet {
    if r == 0 then x * 4 + y / 16 else if r == 1 then x % 16 * 16 + y / 4 else x % 4 * 64 + y
  }

  function ByteAt(v: seq<Sextet>, k: nat): Octet
    requires k / 3 * 4 + k % 3 + 1 < |v|
  {
    var j := k / 3 * 4 + k % 3;
    Straddle(v[j], v[j + 1], k % 3)
  }

  predicate ByteIs(v: seq<Sextet>, b: seq<Octet>, k: nat) {
    k < |b| && k / 3 * 4 + k % 3 + 1 < |v| && b[k] == ByteAt(v, k)
  }

  predicate Counted(v: seq<Sextet>, b: seq<Octet>) {
    |v| == |b| / 3 * 4 + (if |b| % 3 == 0 then 0 else |b| % 3 + 1)
  }

  predicate Grouped(v: seq<Sextet>, b: seq<Octet>) {
    Counted(v, b) && forall k :: 0 <= k < |b| ==> ByteIs(v, b, k)
  }

  lemma {:induction false} GroupsExactly(v: seq<Sextet>, b: seq<Octet>)
    ensures FromSextets(v) == Some(b) <==> Grouped(v, b)
  {
    if |v| >= 4 {
      if |b| >= 3 {
        GroupsExactly(v[4..], b[3..]);
        FirstGroup(v, b);
        assert b == [b[0], b[1], b[2]] + b[3..];
      }
    } else if |v| == 2 && |b| == 1 {
      LastBytes(v, b);
      assert b == [b[0]];
    } else if |v| == 3 && |b| == 2 {
      LastBytes(v, b);
      assert b == [b[0], b[1]];
    }
  }

  lemma LastBytes(v: seq<Sextet>, b: seq<Octet>)
    requires (|v| == 2 && |b| == 1) || (|v| == 3 && |b| == 2)
    ensures Counted(v, b)
    ensures ByteIs(v, b, 0) <==> b[0] == FirstOf(v[0], v[1])
    ensures |v| == 3 ==> (ByteIs(v, b, 1) <==> b[1] == SecondOf(v[1], v[2]))
  {}

  lemma FirstGroup(v: seq<Sextet>, b: seq<Octet>)
    requires |v| >= 4 && |b| >= 3
    ensures Grouped(v, b) <==>
              && b[0] == FirstOf(v[0], v[1]) && b[1] == SecondOf(v[1], v[2]) && b[2] == ThirdOf(v[2], v[3])
              && Grouped(v[4..], b[3..])
  {
    hide ByteIs;
    FirstBytes(v, b);
    CountedShifts(v, b);
    forall k | 3 <= k < |b|
      ensures ByteIs(v, b, k) <==> ByteIs(v[4..], b[3..], k - 3)
    {
      ShiftedByte(v, b, k);
    }
    hide Counted, FirstOf, SecondOf, ThirdOf;
    if Grouped(v[4..], b[3..]) {
      forall k | 3 <= k < |b|
        ensures ByteIs(v, b, k)
      {
        assert ByteIs(v[4..], b[3..], k - 3);
      }
    }
    if Grouped(v, b) {
      assert ByteIs(v, b, 0) && ByteIs(v, b, 1) && ByteIs(v, b, 2);
      forall k | 0 <= k < |b| - 3
        ensures ByteIs(v[4..], b[3..], k)
      {
        assert ByteIs(v, b, k + 3);
      }
    }
  }

  lemma CountedShifts(v: seq<Sextet>, b: seq<Octet>)
    requires |v| >= 4 && |b| >= 3
    ensures Counted(v, b) <==> Counted(v[4..], b[3..])
  {
    assert (|b| - 3) / 3 == |b| / 3 - 1 && (|b| - 3) % 3 == |b| % 3;
  }

  lemma FirstBytes(v: seq<Sextet>, b: seq<Octet>)
    requires |v| >= 4 && |b| >= 3
    ensures ByteIs(v, b, 0) <==> b[0] == FirstOf(v[0], v[1])
    ensures ByteIs(v, b, 1) <==> b[1] == SecondOf(v[1], v[2])
    ensures ByteIs(v, b, 2) <==> b[2] == ThirdOf(v[2], v[3])
  {}

  lemma ShiftedByte(v: seq<Sextet>, b: seq<Octet>, k: nat)
    requires |v| >= 4 && |b| >= 3 && 3 <= k < |b|
    ensures ByteIs(v, b, k) <==> ByteIs(v[4..], b[3..], k - 3)
  {
    assert (k - 3) / 3 == k / 3 - 1 && (k - 3) % 3 == k % 3;
  }

  lemma {:induction false} ReadsExactly(s: string, v: seq<Sextet>)
    ensures Read(s) == Some(v) <==> |s| == |v| && forall i :: 0 <= i < |s| ==> s[i] == LETTERS[v[i]]
  {
    hide LetterValue;
    if s != [] && v != [] {
      ReadsExactly(s[1..], v[1..]);
      LetterExactly(s[0], v[0]);
      assert v == [v[0]] + v[1..];
      if |s| == |v| {
        assert forall i :: 1 <= i < |s| ==> s[i] == s[1..][i - 1] && v[i] == v[1..][i - 1];
      }
    }
  }

  ghost predicate Spells(s: string, v: seq<Sextet>) {
    |s| == |v| && forall i :: 0 <= i < |s| ==> s[i] == LETTERS[v[i]]
  }

  /** The unpadded decoder accepts exactly the letters of whole bytes, whatever the unused
      bits of the last one; a single letter left over is refused. */
  lemma RawDecodesExactly(s: string, b: seq<Octet>)
    ensures DecodeRaw(s) == Some(b) <==> exists v :: Spells(SkipLineBreaks(s), v) && Grouped(v, b)
  {
    hide FromSextets, Read, Grouped;
    var t := SkipLineBreaks(s);
    if Read(t).Some? {
      ReadsExactly(t, Read(t).value);
      GroupsExactly(Read(t).value, b);
    }
    forall v | Spells(t, v) && Grouped(v, b)
      ensures DecodeRaw(s) == Some(b)
    {
      ReadsExactly(t, v);
      GroupsExactly(v, b);
    }
  }

  /** The padded decoder accepts exactly whole groups of four characters: letters the unpadded
      one would read, and none, one or two signs of padding. */
  lemma PaddedDecodesExactly(s: string, b: seq<Octet>)
    ensures DecodePadded(s) == Some(b) <==>
              && |SkipLineBreaks(s)| % 4 == 0
              && exists v :: Grouped(v, b) && Padded(SkipLineBreaks(s), v)
  {
    hide FromSextets, Read, Grouped, SkipLineBreaks, Padded, Spells;
    var t := SkipLineBreaks(s);
    var n := |t|;
    if n % 4 == 0 {
      var letters := if n > 0 && t[n - 1] == '=' then (if t[n - 2] == '=' then t[..n - 2] else t[..n - 1]) else t;
      if DecodePadded(s) == Some(b) {
        var v := Read(letters).value;
        ReadsExactly(letters, v);
        GroupsExactly(v, b);
        assert t == letters || t == letters + "=" || t == letters + "==";
        LettersThenPadding(t, letters, v);
      }
      forall v | Grouped(v, b) && Padded(t, v)
        ensures DecodePadded(s) == Some(b)
      {
        PaddingIsFound(t, v);
        ReadsExactly(letters, v);
        GroupsExactly(v, b);
      }
    }
  }

  lemma LettersThenPadding(t: string, letters: string, v: seq<Sextet>)
    requires (t == letters || t == letters + "=" || t == letters + "==") && Spells(letters, v)
    ensures Padded(t, v)
  {
    assert t[..|v|] == letters;
    assert t[|v|..] == "" || t[|v|..] == "=" || t[|v|..] == "==";
  }

  ghost predicate Padded(t: string, v: seq<Sextet>) {
    |v| <= |t| && t[|v|..] in {"", "=", "=="} && Spells(t[..|v|], v)
  }

  lemma PaddingIsFound(t: string, v: seq<Sextet>)
    requires |t| % 4 == 0 && Padded(t, v)
    ensures Spells(t[..|v|], v)
    ensures
      var n := |t|;
      t[..|v|] == if n > 0 && t[n - 1] == '=' then (if t[n - 2] == '=' then t[..n - 2] else t[..n - 1]) else t
  {
    var pad := t[|v|..];
    if v != [] {
      NoLetterPads(v[|v| - 1]);
      assert t[|v| - 1] == t[..|v|][|v| - 1];
    }
    if pad != "" {
      assert t[|t| - 1] == pad[|pad| - 1];
    }
  }

  lemma NoLetterPads(n: Sextet)
    ensures LETTERS[n] != '='
  {
    LetterExactly('=', n);
  }

  /** The encoder leaves the unused bits of the last letter zero. */
  lemma {:induction false} UnusedBitsAreZero(b: seq<Octet>)
    ensures |b| % 3 == 1 ==> ToSextets(b) != [] && ToSextets(b)[|ToSextets(b)| - 1] % 16 == 0
    ensures |b| % 3 == 2 ==> ToSextets(b) != [] && ToSextets(b)[|ToSextets(b)| - 1] % 4 == 0
  {
    if |b| > 2 {
      UnusedBitsAreZero(b[3..]);
    }
  }

  // ----- white space

  /** The code points Unicode gives the White_Space property. */
  predicate IsWhiteSpace(c: nat) {
    || 0x09 <= c <= 0x0d || c == 0x20 || c == 0x85 || c == 0xa0 || c == 0x1680
    || 0x2000 <= c <= 0x200a || c == 0x2028 || c == 0x2029 || c == 0x202f || c == 0x205f || c == 0x3000
  }

  type WhiteSpace = c: nat | IsWhiteSpace(c) witness 0x20

  /** UTF-8, as section 3 of RFC 3629 defines it, below U+10000. */
  function Utf8(c: WhiteSpace): (w: string)
    ensures 1 <= |w| <= 3
  {
    if c < 0x80 then [c as char]
    else if c < 0x800 then [(0xc0 + c / 64) as char, (0x80 + c % 64) as char]
    else
      assert IsWhiteSpace(c);
      assert c <= 0x3000;
      [(0xe0 + c / 4096) as char, (0x80 + c / 64 % 64) as char, (0x80 + c % 64) as char]
  }

  function Utf8All(cs: seq<WhiteSpace>): string {
    if cs == [] then [] else Utf8(cs[0]) + Utf8All(cs[1..])
  }

  /** The bytes of one space, as trimming looks for them. */
  predicate IsSpace(w: string) {
    || (|w| == 1 && IsAsciiSpace(w[0]))
    || (|w| == 2 && IsTwoByteSpace(w[0], w[1]))
    || (|w| == 3 && IsThreeByteSpace(w[0], w[1], w[2]))
  }

  function CodePoint(w: string): (c: WhiteSpace)
    requires IsSpace(w)
    ensures Utf8(c) == w
  {
    if |w| == 1 then w[0] as int
    else if |w| == 2 then (w[0] as int - 0xc0) * 64 + (w[1] as int - 0x80)
    else (w[0] as int - 0xe0) * 4096 + (w[1] as int - 0x80) * 64 + (w[2] as int - 0x80)
  }

  lemma WhiteSpaceIsSpace(c: WhiteSpace)
    ensures IsSpace(Utf8(c))
  {
    assert IsWhiteSpace(c);
    if 0x2000 <= c <= 0x205f {
      assert c / 4096 == 2 && (c / 64 % 64 == 0 || c / 64 % 64 == 1);
    }
  }

  lemma FoundAtStart(s: string)
    ensures SpaceAtStart(s) > 0 ==> IsSpace(s[..SpaceAtStart(s)])
  {}

  lemma FoundAtEnd(s: string)
    ensures SpaceAtEnd(s) > 0 ==> IsSpace(s[|s| - SpaceAtEnd(s)..])
  {}

  lemma NotMissedAtStart(s: string, c: WhiteSpace)
    ensures StartsWith(s, Utf8(c)) ==> SpaceAtStart(s) > 0
  {
    WhiteSpaceIsSpace(c);
  }

  lemma NotMissedAtEnd(s: string, c: WhiteSpace)
    ensures EndsWith(s, Utf8(c)) ==> SpaceAtEnd(s) > 0
  {
    WhiteSpaceIsSpace(c);
  }

  predicate StartsWith(s: string, t: string) {
    t <= s
  }

  predicate EndsWith(s: string, t: string) {
    |t| <= |s| && s[|s| - |t|..] == t
  }

  lemma TrimLeftUnfolds(s: string)
    ensures TrimLeft(s) == if SpaceAtStart(s) == 0 then s else TrimLeft(s[SpaceAtStart(s)..])
  {}

  lemma TrimRightUnfolds(s: string)
    ensures TrimRight(s) == if SpaceAtEnd(s) == 0 then s else TrimRight(s[..|s| - SpaceAtEnd(s)])
  {}

  lemma {:induction false} TrimsLeft(s: string) returns (cs: seq<WhiteSpace>)
    ensures s == Utf8All(cs) + TrimLeft(s)
    ensures forall c: WhiteSpace :: !StartsWith(TrimLeft(s), Utf8(c))
    decreases |s|
  {
    hide *;
    NoSpaces();
    TrimLeftUnfolds(s);
    var w := SpaceAtStart(s);
    if w == 0 {
      cs := [];
      forall c: WhiteSpace
        ensures !StartsWith(s, Utf8(c))
      {
        NotMissedAtStart(s, c);
      }
      assert [] + s == s;
    } else {
      FoundAtStart(s);
      var rest := TrimsLeft(s[w..]);
      var first := CodePoint(s[..w]);
      cs := [first] + rest;
      Utf8AllBegins(first, rest);
      assert s == s[..w] + s[w..];
      Associates(s[..w], Utf8All(rest), TrimLeft(s));
    }
  }

  lemma {:induction false} TrimsRight(s: string) returns (cs: seq<WhiteSpace>)
    ensures s == TrimRight(s) + Utf8All(cs)
    ensures forall c: WhiteSpace :: !EndsWith(TrimRight(s), Utf8(c))
    decreases |s|
  {
    hide *;
    NoSpaces();
    TrimRightUnfolds(s);
    var w := SpaceAtEnd(s);
    if w == 0 {
      cs := [];
      forall c: WhiteSpace
        ensures !EndsWith(s, Utf8(c))
      {
        NotMissedAtEnd(s, c);
      }
      assert s + [] == s;
    } else {
      FoundAtEnd(s);
      var front, back := s[..|s| - w], s[|s| - w..];
      var rest := TrimsRight(front);
      var last := CodePoint(back);
      Utf8AllExtends(rest, last);
      cs := rest + [last];
      assert s == front + back;
      Associates(TrimRight(s), Utf8All(rest), back);
    }
  }

  lemma NoSpaces()
    ensures Utf8All([]) == []
  {}

  lemma Utf8AllBegins(c: WhiteSpace, cs: seq<WhiteSpace>)
    ensures Utf8All([c] + cs) == Utf8(c) + Utf8All(cs)
  {
    hide Utf8;
    assert ([c] + cs)[1..] == cs;
  }

  lemma {:induction false} Utf8AllExtends(cs: seq<WhiteSpace>, c: WhiteSpace)
    ensures Utf8All(cs + [c]) == Utf8All(cs) + Utf8(c)
  {
    hide Utf8;
    if cs == [] {
      assert [c][1..] == [];
      assert [] + [c] == [c];
    } else {
      Utf8AllExtends(cs[1..], c);
      assert (cs + [c])[1..] == cs[1..] + [c];
    }
  }

  /** Trimming takes white space, all of it, and nothing else off both ends. */
  lemma TrimsExactly(s: string) returns (before: seq<WhiteSpace>, after: seq<WhiteSpace>)
    ensures s == Utf8All(before) + TrimSpace(s) + Utf8All(after)
    ensures forall c: WhiteSpace :: !StartsWith(TrimSpace(s), Utf8(c)) && !EndsWith(TrimSpace(s), Utf8(c))
  {
    hide TrimLeft, TrimRight, Utf8, EndsWith;
    before := TrimsLeft(s);
    var t := TrimLeft(s);
    after := TrimsRight(t);
    assert TrimSpace(s) <= t;
  }
}
