/** Base64 as section 4 of RFC 4648 defines it, without padding and with it, and the decoder's
    tolerances: line breaks are skipped and the unused bits of a last group are ignored. */
module Base64 {
  import opened Wrappers
  import opened Text

  type Sextet = n: int | 0 <= n < 64

  function Letter(n: Sextet): char {
    if n < 26 then 'A' + n as char
    else if n < 52 then 'a' + (n - 26) as char
    else if n < 62 then '0' + (n - 52) as char
    else if n == 62 then '+'
    else '/'
  }

  function LetterValue(c: char): Option<Sextet> {
    if 'A' <= c <= 'Z' then Some(c as int - 'A' as int)
    else if 'a' <= c <= 'z' then Some(c as int - 'a' as int + 26)
    else if '0' <= c <= '9' then Some(c as int - '0' as int + 52)
    else if c == '+' then Some(62)
    else if c == '/' then Some(63)
    else None
  }

  lemma LetterRoundTrip(n: Sextet)
    ensures LetterValue(Letter(n)) == Some(n)
    ensures IsPlain(Letter(n)) && Letter(n) !in "$,=-"
  {}

  // ----- groups of six bits

  /** Three bytes make four groups; one or two left over make two or three. */
  function ToSextets(b: seq<Octet>): seq<Sextet> {
    if b == [] then []
    else if |b| == 1 then [b[0] / 4, b[0] % 4 * 16]
    else if |b| == 2 then [b[0] / 4, b[0] % 4 * 16 + b[1] / 16, b[1] % 16 * 4]
    else [b[0] / 4, b[0] % 4 * 16 + b[1] / 16, b[1] % 16 * 4 + b[2] / 64, b[2] % 64] + ToSextets(b[3..])
  }

  function FirstOf(a: Sextet, b: Sextet): Octet {
    a * 4 + b / 16
  }

  function SecondOf(b: Sextet, c: Sextet): Octet {
    b % 16 * 16 + c / 4
  }

  function ThirdOf(c: Sextet, d: Sextet): Octet {
    c % 4 * 64 + d
  }

  /** The inverse, which drops the unused low bits of a last group of two or three; a last
      group of one is an error. */
  function FromSextets(v: seq<Sextet>): Option<seq<Octet>> {
    if v == [] then Some([])
    else if |v| == 1 then None
    else if |v| == 2 then Some([FirstOf(v[0], v[1])])
    else if |v| == 3 then Some([FirstOf(v[0], v[1]), SecondOf(v[1], v[2])])
    else
      match FromSextets(v[4..])
      case None => None
      case Some(rest) => Some([FirstOf(v[0], v[1]), SecondOf(v[1], v[2]), ThirdOf(v[2], v[3])] + rest)
  }

  lemma GroupRoundTrip(x: Octet, y: Octet, z: Octet)
    ensures FirstOf(x / 4, x % 4 * 16 + y / 16) == x
    ensures SecondOf(x % 4 * 16 + y / 16, y % 16 * 4 + z / 64) == y
    ensures ThirdOf(y % 16 * 4 + z / 64, z % 64) == z
  {}

  lemma {:induction false} SextetsRoundTrip(b: seq<Octet>)
    ensures FromSextets(ToSextets(b)) == Some(b)
  {
    hide FirstOf, SecondOf, ThirdOf;
    if |b| == 1 {
      GroupRoundTrip(b[0], 0, 0);
      assert b == [b[0]];
    } else if |b| == 2 {
      GroupRoundTrip(b[0], b[1], 0);
      assert b == [b[0], b[1]];
    } else if |b| > 2 {
      GroupRoundTrip(b[0], b[1], b[2]);
      SextetsRoundTrip(b[3..]);
      assert ToSextets(b)[4..] == ToSextets(b[3..]);
      assert b == [b[0], b[1], b[2]] + b[3..];
    }
  }

  // ----- letters

  function Spell(v: seq<Sextet>): (s: string)
    ensures |s| == |v|
    ensures forall i :: 0 <= i < |s| ==> s[i] == Letter(v[i])
  {
    seq(|v|, i requires 0 <= i < |v| => Letter(v[i]))
  }

  /** The groups spelled by s, or None when some character is not a letter. */
  function Read(s: string): Option<seq<Sextet>> {
    if s == [] then Some([])
    else
      match (LetterValue(s[0]), Read(s[1..]))
      case (Some(n), Some(rest)) => Some([n] + rest)
      case _ => None
  }

  lemma {:induction false} ReadOfSpell(v: seq<Sextet>)
    ensures Read(Spell(v)) == Some(v)
  {
    if v != [] {
      LetterRoundTrip(v[0]);
      ReadOfSpell(v[1..]);
      assert Spell(v)[1..] == Spell(v[1..]);
      assert [v[0]] + v[1..] == v;
    }
  }

  function SkipLineBreaks(s: string): string {
    if s == [] then []
    else if s[0] == '\n' || s[0] == '\r' then SkipLineBreaks(s[1..])
    else [s[0]] + SkipLineBreaks(s[1..])
  }

  lemma {:induction false} NothingToSkip(s: string)
    requires forall i :: 0 <= i < |s| ==> s[i] != '\n' && s[i] != '\r'
    ensures SkipLineBreaks(s) == s
  {
    if s != [] {
      NothingToSkip(s[1..]);
    }
  }

  // ----- the two encodings

  function EncodeRaw(b: seq<Octet>): string {
    Spell(ToSextets(b))
  }

  function DecodeRaw(s: string): Option<seq<Octet>> {
    match Read(SkipLineBreaks(s))
    case None => None
    case Some(v) => FromSextets(v)
  }

  lemma {:induction false} DecodableLacksDollars(s: string)
    requires Read(SkipLineBreaks(s)).Some?
    ensures Lacks(s, '$')
  {
    if s != [] {
      if s[0] != '\n' && s[0] != '\r' {
        assert SkipLineBreaks(s)[1..] == SkipLineBreaks(s[1..]);
      }
      DecodableLacksDollars(s[1..]);
    }
  }

  function Padding(n: nat): string {
    if n % 3 == 0 then "" else if n % 3 == 1 then "==" else "="
  }

  function EncodePadded(b: seq<Octet>): string {
    EncodeRaw(b) + Padding(|b|)
  }

  /** Whole groups of four characters, of which only the last may end in padding. */
  function DecodePadded(s: string): Option<seq<Octet>> {
    var t := SkipLineBreaks(s);
    var n := |t|;
    if n % 4 != 0 then None
    else
      var letters := if n > 0 && t[n - 1] == '=' then (if t[n - 2] == '=' then t[..n - 2] else t[..n - 1]) else t;
      match Read(letters)
      case None => None
      case Some(v) => FromSextets(v)
  }

  lemma {:induction false} SextetCount(b: seq<Octet>)
    ensures |ToSextets(b)| == |b| / 3 * 4 + (if |b| % 3 == 0 then 0 else |b| % 3 + 1)
  {
    if |b| > 2 {
      SextetCount(b[3..]);
    }
  }

  lemma RawIsPlain(b: seq<Octet>)
    ensures forall i :: 0 <= i < |EncodeRaw(b)| ==> IsPlain(EncodeRaw(b)[i]) && EncodeRaw(b)[i] !in "$,=-"
  {
    forall i | 0 <= i < |EncodeRaw(b)|
      ensures IsPlain(EncodeRaw(b)[i]) && EncodeRaw(b)[i] !in "$,=-"
    {
      LetterRoundTrip(ToSextets(b)[i]);
    }
  }

  lemma RawRoundTrip(b: seq<Octet>)
    ensures DecodeRaw(EncodeRaw(b)) == Some(b)
  {
    RawIsPlain(b);
    NothingToSkip(EncodeRaw(b));
    ReadOfSpell(ToSextets(b));
    SextetsRoundTrip(b);
  }

  lemma PaddedRoundTrip(b: seq<Octet>)
    ensures DecodePadded(EncodePadded(b)) == Some(b)
  {
    hide *;
    var raw, s := EncodeRaw(b), EncodePadded(b);
    PaddedShape(b);
    LettersOf(b);
    NothingToSkip(s);
    RawRoundTrip(b);
    NothingToSkip(raw);
    DecodeOfPadded(raw, s);
  }

  /** A whole number of groups of four, letters first and at most two signs of padding. */
  lemma PaddedShape(b: seq<Octet>)
    ensures |EncodePadded(b)| % 4 == 0
    ensures
      var raw := EncodeRaw(b);
      EncodePadded(b) == raw || EncodePadded(b) == raw + "=" || EncodePadded(b) == raw + "=="
  {
    hide EncodeRaw;
    RawCount(b);
    var groups := if |b| % 3 == 0 then |b| / 3 else |b| / 3 + 1;
    assert |EncodePadded(b)| == 4 * groups;
  }

  lemma RawCount(b: seq<Octet>)
    ensures |EncodeRaw(b)| == 4 * (|b| / 3) + (if |b| % 3 == 0 then 0 else |b| % 3 + 1)
  {
    hide ToSextets;
    SextetCount(b);
  }

  lemma LettersOf(b: seq<Octet>)
    ensures forall i :: 0 <= i < |EncodeRaw(b)| ==> EncodeRaw(b)[i] !in "=\n\r"
    ensures forall i :: 0 <= i < |EncodePadded(b)| ==> EncodePadded(b)[i] !in "\n\r"
  {
    hide EncodeRaw;
    RawIsPlain(b);
  }

  lemma DecodeOfPadded(raw: string, s: string)
    requires s == raw || s == raw + "=" || s == raw + "=="
    requires |s| % 4 == 0 && (forall i :: 0 <= i < |raw| ==> raw[i] != '=')
    requires SkipLineBreaks(s) == s && SkipLineBreaks(raw) == raw
    ensures DecodePadded(s) == DecodeRaw(raw)
  {
    hide Read, FromSextets, SkipLineBreaks;
    assert s[..|raw|] == raw;
    if s != raw {
      assert s[|s| - 1] == '=';
      assert s == raw + "==" ==> s[|s| - 2] == '=';
    }
  }
}
