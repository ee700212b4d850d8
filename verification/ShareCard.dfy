/** The text a custodian's card carries, and reading it back. SHA-256 is a parameter: any
    function from text to 32 bytes. */
module ShareCard {
  import opened ByteValues
  import opened Wrappers
  import opened Gf256
  import opened Shamir
  import opened Text

  const VERSION := "ky2"

  type Digest = d: seq<Octet> | |d| == 32 witness seq(32, _ => 0)
  type Sha256 = string -> Digest

  function Octets(b: seq<Byte>): (o: seq<Octet>)
    ensures |o| == |b|
  {
    seq(|b|, i requires 0 <= i < |b| => b[i] as int)
  }

  function Bytes(o: seq<Octet>): (b: seq<Byte>)
    ensures |b| == |o|
  {
    seq(|o|, i requires 0 <= i < |o| => ToByte(o[i]))
  }

  lemma BytesOfOctets(b: seq<Byte>)
    ensures Bytes(Octets(b)) == b
  {
    forall i | 0 <= i < |b|
      ensures Bytes(Octets(b))[i] == b[i]
    {
      ByteOfValue(b[i]);
    }
  }

  function Body(s: Share): string {
    Join([VERSION, FormatInt(s.threshold), EncodeHex(Octets(s.setId)), FormatInt(s.index as int),
          EncodeHex(Octets(s.value))], '-')
  }

  function Checksum(sha: Sha256, body: string): string {
    EncodeHex(sha(body)[..2])
  }

  function Print(sha: Sha256, s: Share): string {
    Body(s) + "-" + Checksum(sha, Body(s))
  }

  function ParseShare(sha: Sha256, card: string): Result<Share, Error> {
    var text := TrimSpace(card);
    var parts := SplitAt(text, '-');
    if |parts| != 6 then Err(ShareVersion)
    else if parts[0] != VERSION then Err(ShareVersion)
    else if parts[5] != Checksum(sha, BeforeLast(text, '-')) then Err(MalformedShare)
    else
      var threshold := ParseInt(parts[1]);
      if threshold.None? || threshold.value < 2 || threshold.value > 255 then Err(MalformedShare)
      else
        var setId := DecodeHex(parts[2]);
        if setId.None? || |setId.value| != SET_ID_BYTES then Err(MalformedShare)
        else
          var index := ParseInt(parts[3]);
          if index.None? then Err(MalformedShare)
          else if index.value < 1 || index.value > 255 then Err(ShareIndex)
          else
            var value := DecodeHex(parts[4]);
            if value.None? then Err(MalformedShare)
            else if |value.value| == 0 then Err(ShareLength)
            else Ok(Share(threshold.value, Bytes(setId.value), ToByte(index.value), Bytes(value.value)))
  }

  /** The shares Split deals and a card can carry. */
  predicate Printable(s: Share) {
    2 <= s.threshold <= 255 && s.index != 0 && s.value != []
  }

  function Fields(sha: Sha256, s: Share): seq<string> {
    [VERSION, FormatInt(s.threshold), EncodeHex(Octets(s.setId)), FormatInt(s.index as int),
     EncodeHex(Octets(s.value)), Checksum(sha, Body(s))]
  }

  lemma HexLacks(b: seq<Octet>, c: char)
    requires !IsLowerHex(c)
    ensures Lacks(EncodeHex(b), c)
  {}

  lemma FieldsLackDashes(sha: Sha256, s: Share)
    requires Printable(s)
    ensures AllLack(Fields(sha, s), '-')
  {
    hide EncodeHex, FormatNat;
    HexLacks(Octets(s.setId), '-');
    HexLacks(Octets(s.value), '-');
    HexLacks(sha(Body(s))[..2], '-');
    DigitsLack(FormatNat(s.threshold), '-');
    DigitsLack(FormatNat(s.index as int), '-');
  }

  lemma {:induction false} JoinAppend(parts: seq<string>, last: string, sep: char)
    requires parts != []
    ensures Join(parts + [last], sep) == Join(parts, sep) + [sep] + last
  {
    if |parts| > 1 {
      JoinAppend(parts[1..], last, sep);
      assert (parts + [last])[1..] == parts[1..] + [last];
    }
  }

  lemma PrintIsJoin(sha: Sha256, s: Share)
    ensures Print(sha, s) == Join(Fields(sha, s), '-')
  {
    hide Join, EncodeHex;
    var body := Fields(sha, s)[..5];
    JoinAppend(body, Fields(sha, s)[5], '-');
    assert Fields(sha, s) == body + [Fields(sha, s)[5]];
    assert body == [VERSION, FormatInt(s.threshold), EncodeHex(Octets(s.setId)), FormatInt(s.index as int),
                    EncodeHex(Octets(s.value))];
  }

  /** A card begins with the version and ends with a hexadecimal digit. */
  lemma PrintIsPlain(sha: Sha256, s: Share)
    ensures Print(sha, s) != [] && IsPlain(Print(sha, s)[0]) && IsPlain(Print(sha, s)[|Print(sha, s)| - 1])
  {
    hide EncodeHex, Octets, FormatInt;
    var c := Checksum(sha, Body(s));
    assert IsLowerHex(c[|c| - 1]);
    assert Body(s)[0] == VERSION[0];
  }

  /** Reading a printed card, with or without space around it, gives the share back. */
  lemma ParseOfPrint(sha: Sha256, s: Share, before: string, after: string)
    requires Printable(s)
    requires TrimLeft(before) == [] && TrimRight(after) == []
    ensures ParseShare(sha, before + Print(sha, s) + after) == Ok(s)
  {
    hide Join, EncodeHex, DecodeHex, FormatInt, ParseInt, TrimSpace, SplitAt, BeforeLast, Octets, Bytes, ToByte;
    var text := Print(sha, s);
    var fields := Fields(sha, s);
    PrintIsPlain(sha, s);
    TrimSpaceAround(before, text, after);
    FieldsLackDashes(sha, s);
    PrintIsJoin(sha, s);
    SplitOfJoin(fields, '-');
    BeforeLastOf(Body(s), fields[5], '-');
    ParseIntOfFormat(s.threshold);
    ParseIntOfFormat(s.index as int);
    DecodeOfEncodeHex(Octets(s.setId));
    DecodeOfEncodeHex(Octets(s.value));
    BytesOfOctets(s.setId);
    BytesOfOctets(s.value);
    ByteOfValue(s.index);
    assert Lacks(fields[5], '-');
  }

  /** Five fields and their checksum spell a share, though not always as Print would. */
  predicate Spells(sha: Sha256, text: string, body: string, s: Share) {
    var parts := SplitAt(body, '-');
    && text == body + "-" + Checksum(sha, body)
    && |parts| == 5 && parts[0] == VERSION
    && ParseInt(parts[1]) == Some(s.threshold)
    && DecodeHex(parts[2]) == Some(Octets(s.setId))
    && ParseInt(parts[3]) == Some(s.index as int)
    && DecodeHex(parts[4]) == Some(Octets(s.value))
  }

  /** A card is accepted exactly when, trimmed, it is five fields under their own checksum
      that spell a printable share. */
  lemma AcceptedExactly(sha: Sha256, card: string, s: Share)
    ensures ParseShare(sha, card) == Ok(s) <==>
              Printable(s) && exists body :: Spells(sha, TrimSpace(card), body, s)
  {
    hide Join, EncodeHex, DecodeHex, ParseInt, TrimSpace, SplitAt, BeforeLast, Octets, Bytes, ToByte;
    var text := TrimSpace(card);
    if ParseShare(sha, card) == Ok(s) {
      var parts := SplitAt(text, '-');
      var body := Join(parts[..5], '-');
      JoinOfSplit(text, '-');
      assert parts == parts[..5] + [parts[5]];
      JoinAppend(parts[..5], parts[5], '-');
      assert Lacks(parts[5], '-');
      assert AllLack(parts[..5], '-');
      BeforeLastOf(body, parts[5], '-');
      SplitOfJoin(parts[..5], '-');
      OctetsOfBytes(DecodeHex(parts[2]).value);
      OctetsOfBytes(DecodeHex(parts[4]).value);
      ByteValue(ParseInt(parts[3]).value);
      assert Spells(sha, text, body, s);
    }
    if Printable(s) && exists body :: Spells(sha, text, body, s) {
      var body :| Spells(sha, text, body, s);
      SpelledCardIsRead(sha, card, body, s);
    }
  }

  lemma OctetsOfBytes(o: seq<Octet>)
    ensures Octets(Bytes(o)) == o
  {
    hide ToByte;
    forall i | 0 <= i < |o|
      ensures Octets(Bytes(o))[i] == o[i]
    {
      ByteValue(o[i]);
    }
  }

  lemma SpelledCardIsRead(sha: Sha256, card: string, body: string, s: Share)
    requires Printable(s) && Spells(sha, TrimSpace(card), body, s)
    ensures ParseShare(sha, card) == Ok(s)
  {
    hide Join, EncodeHex, DecodeHex, ParseInt, TrimSpace, SplitAt, BeforeLast, Octets, Bytes, ToByte;
    var parts, check := SplitAt(body, '-'), Checksum(sha, body);
    JoinOfSplit(body, '-');
    HexLacks(sha(body)[..2], '-');
    JoinAppend(parts, check, '-');
    SplitOfJoin(parts + [check], '-');
    BeforeLastOf(body, check, '-');
    BytesOfOctets(s.setId);
    BytesOfOctets(s.value);
    ByteOfValue(s.index);
  }

  /** Whatever is read off a card can be printed again, and the reprint reads the same. */
  lemma AcceptedCardsReprint(sha: Sha256, card: string)
    requires ParseShare(sha, card).Ok?
    ensures Printable(ParseShare(sha, card).value)
    ensures ParseShare(sha, Print(sha, ParseShare(sha, card).value)) == ParseShare(sha, card)
  {
    hide Join, EncodeHex, DecodeHex, FormatInt, ParseInt, TrimSpace, SplitAt, BeforeLast, Print, ToByte;
    var s := ParseShare(sha, card).value;
    ByteValue(ParseInt(SplitAt(TrimSpace(card), '-')[3]).value);
    ParseOfPrint(sha, s, "", "");
    assert "" + Print(sha, s) + "" == Print(sha, s);
  }

  /** Different shares never print the same card. */
  lemma PrintIsInjective(sha: Sha256, s: Share, t: Share)
    requires Printable(s) && Printable(t) && Print(sha, s) == Print(sha, t)
    ensures s == t
  {
    hide Print, ParseShare;
    ParseOfPrint(sha, s, "", "");
    ParseOfPrint(sha, t, "", "");
  }

  /** Every share of a split can be printed. */
  lemma SplitSharesPrint(shares: seq<Share>, secret: seq<Byte>, threshold: int, setId: SetId,
                         polys: seq<seq<Byte>>, i: nat)
    requires IsSplit(shares, secret, threshold, setId, polys) && i < |shares|
    ensures Printable(shares[i])
  {
    hide IndexAt;
    IndexAtIsInjective(i, i);
  }
}
