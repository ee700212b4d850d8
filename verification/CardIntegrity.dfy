/** What a custodian's card says field by field, what its last field protects, and when each
    refusal is given. */
module CardIntegrity {
  import opened Wrappers
  import opened Gf256
  import opened Shamir
  import opened ShareCard
  import opened Text
  import opened Encodings

  /** Two bodies whose digests begin with the same two bytes. */
  predicate CheckCollision(sha: Sha256, a: string, b: string) {
    a != b && sha(a)[..2] == sha(b)[..2]
  }

  lemma ChecksumDetermines(sha: Sha256, a: string, b: string)
    requires Checksum(sha, a) == Checksum(sha, b)
    ensures sha(a)[..2] == sha(b)[..2]
  {
    hide EncodeHex, DecodeHex;
    DecodeOfEncodeHex(sha(a)[..2]);
    DecodeOfEncodeHex(sha(b)[..2]);
  }

  /** The text of an accepted card is a body, a dash and four lower-case digits that read as
      the first two bytes of the body's digest. */
  lemma AcceptedUnderItsCheck(sha: Sha256, card: string) returns (body: string, check: string)
    requires ParseShare(sha, card).Ok?
    ensures TrimSpace(card) == body + "-" + check && |check| == 4
    ensures DecodeHex(check) == Some(sha(body)[..2])
    ensures forall i :: 0 <= i < 4 ==> IsLowerHex(check[i])
  {
    hide ParseShare, ShareCard.Spells, EncodeHex, DecodeHex, TrimSpace;
    var s := ParseShare(sha, card).value;
    AcceptedExactly(sha, card, s);
    body :| ShareCard.Spells(sha, TrimSpace(card), body, s);
    check := Checksum(sha, body);
    SpelledText(sha, TrimSpace(card), body, s);
    DecodeOfEncodeHex(sha(body)[..2]);
  }

  lemma SpelledText(sha: Sha256, text: string, body: string, s: Share)
    requires ShareCard.Spells(sha, text, body, s)
    ensures text == body + "-" + Checksum(sha, body)
  {}

  /** What Print writes, field by field. */
  lemma PrintedFields(sha: Sha256, s: Share) returns (setId: string, value: string, check: string)
    ensures Print(sha, s) ==
      "ky2-" + FormatInt(s.threshold) + "-" + setId + "-" + FormatInt(s.index as int) + "-" + value + "-" + check
    ensures
      var ids, values := DecodeHex(setId), DecodeHex(value);
      && ids.Some? && |ids.value| == 16 && (forall i :: 0 <= i < 16 ==> ids.value[i] == s.setId[i] as int)
      && values.Some? && |values.value| == |s.value|
      && forall i :: 0 <= i < |s.value| ==> values.value[i] == s.value[i] as int
    ensures DecodeHex(check) == Some(sha(Print(sha, s)[..|Print(sha, s)| - 5])[..2])
    ensures |check| == 4
  {
    hide EncodeHex, DecodeHex, FormatInt, Octets;
    setId, value := EncodeHex(Octets(s.setId)), EncodeHex(Octets(s.value));
    check := Checksum(sha, Body(s));
    DecodeOfEncodeHex(Octets(s.setId));
    DecodeOfEncodeHex(Octets(s.value));
    DecodeOfEncodeHex(sha(Body(s))[..2]);
    OctetsAre(s.setId);
    OctetsAre(s.value);
    JoinOfFive(VERSION, FormatInt(s.threshold), setId, FormatInt(s.index as int), value);
    assert Print(sha, s)[..|Print(sha, s)| - 5] == Body(s);
  }

  lemma OctetsAre(b: seq<Byte>)
    ensures forall i :: 0 <= i < |b| ==> Octets(b)[i] == b[i] as int
  {}

  lemma JoinOfFive(a: string, b: string, c: string, d: string, e: string)
    ensures Join([a, b, c, d, e], '-') == a + "-" + b + "-" + c + "-" + d + "-" + e
  {
    assert [a, b, c, d, e][1..] == [b, c, d, e] && [b, c, d, e][1..] == [c, d, e];
    assert [c, d, e][1..] == [d, e] && [d, e][1..] == [e];
    assert Join([d, e], '-') == d + "-" + e;
    assert Join([c, d, e], '-') == c + "-" + (d + "-" + e);
    assert Join([b, c, d, e], '-') == b + "-" + (c + "-" + (d + "-" + e));
  }

  // ----- mistyped cards

  /** A card that carries a printed card's last field under another body is refused, unless
      the two bodies collide. */
  lemma OtherBodyIsRefused(sha: Sha256, s: Share, card: string, other: string)
    requires other != Body(s) && TrimSpace(card) == other + "-" + Checksum(sha, Body(s))
    ensures ParseShare(sha, card).Err? || CheckCollision(sha, other, Body(s))
  {
    hide ParseShare, Checksum, Body, TrimSpace, DecodeHex;
    if ParseShare(sha, card).Ok? {
      var body, check := AcceptedUnderItsCheck(sha, card);
      var text, own := TrimSpace(card), Checksum(sha, Body(s));
      OwnCheck(sha, Body(s));
      assert text[|text| - 4..] == check && text[|text| - 4..] == own;
      assert text[..|text| - 5] == body && text[..|text| - 5] == other;
    }
  }

  lemma OwnCheck(sha: Sha256, body: string)
    ensures |Checksum(sha, body)| == 4 && DecodeHex(Checksum(sha, body)) == Some(sha(body)[..2])
    ensures forall i :: 0 <= i < |Checksum(sha, body)| ==> IsLowerHex(Checksum(sha, body)[i])
  {
    DecodeOfEncodeHex(sha(body)[..2]);
  }

  /** One character of a printed card mistyped, in any field and as anything: the card is
      refused, unless the digests of the two bodies begin with the same two bytes. */
  lemma MistypedCardIsRefused(sha: Sha256, s: Share, card: string, i: nat, c: char)
    requires i < |Print(sha, s)| && c != Print(sha, s)[i] && TrimSpace(card) == Print(sha, s)[i := c]
    ensures
      || ParseShare(sha, card).Err?
      || (i < |Body(s)| && CheckCollision(sha, Body(s)[i := c], Body(s)))
  {
    hide ParseShare, Checksum, Body, TrimSpace, DecodeHex, EncodeHex;
    var own, text := Checksum(sha, Body(s)), TrimSpace(card);
    OwnCheck(sha, Body(s));
    if i < |Body(s)| {
      assert text == Body(s)[i := c] + "-" + own;
      OtherBodyIsRefused(sha, s, card, Body(s)[i := c]);
    } else if ParseShare(sha, card).Ok? {
      var body, check := AcceptedUnderItsCheck(sha, card);
      assert |body| == |Body(s)| && text[|body|] == '-';
      assert body == text[..|body|] && Body(s) == text[..|body|];
      SameDigits(check, own, sha(body)[..2]);
    }
  }

  lemma SameDigits(a: string, b: string, d: seq<Octet>)
    requires DecodeHex(a) == Some(d) && DecodeHex(b) == Some(d)
    requires forall i :: 0 <= i < |a| ==> IsLowerHex(a[i])
    requires forall i :: 0 <= i < |b| ==> IsLowerHex(b[i])
    ensures a == b
  {
    EncodeOfDecoded(a, d);
    EncodeOfDecoded(b, d);
  }

  // ----- refusals

  /** The number a field spells, when it lies between low and 255. */
  predicate InRange(field: string, low: int) {
    ParseInt(field).Some? && low <= ParseInt(field).value <= 255
  }

  /** A card of six fields under the version tag whose last field is right for the others. */
  predicate Sound(sha: Sha256, parts: seq<string>) {
    |parts| == 6 && parts[0] == "ky2" && DecodeHex(parts[5]) == Some(sha(Join(parts[..5], '-'))[..2])
    && forall i :: 0 <= i < |parts[5]| ==> IsLowerHex(parts[5][i])
  }

  lemma SoundExactly(sha: Sha256, text: string)
    ensures
      var parts := SplitAt(text, '-');
      |parts| == 6 && parts[0] == VERSION ==>
        (parts[5] == Checksum(sha, BeforeLast(text, '-')) <==> Sound(sha, parts))
    ensures
      var parts := SplitAt(text, '-');
      Sound(sha, parts) ==> |parts| == 6 && parts[0] == VERSION
  {
    hide SplitAt, Join, BeforeLast, EncodeHex, DecodeHex;
    var parts := SplitAt(text, '-');
    if |parts| == 6 {
      var body := Join(parts[..5], '-');
      JoinOfSplit(text, '-');
      assert parts == parts[..5] + [parts[5]];
      JoinAppend(parts[..5], parts[5], '-');
      assert Lacks(parts[5], '-');
      BeforeLastOf(body, parts[5], '-');
      DecodeOfEncodeHex(sha(body)[..2]);
      if Sound(sha, parts) {
        EncodeOfDecoded(parts[5], sha(body)[..2]);
      }
    }
  }

  /** Every refusal, by the first field at fault. */
  lemma RefusedExactly(sha: Sha256, card: string)
    ensures
      var r, parts := ParseShare(sha, card), SplitAt(TrimSpace(card), '-');
      && (r == Err(ShareVersion) <==> |parts| != 6 || parts[0] != "ky2")
      && (r == Err(ShareIndex) <==>
            Sound(sha, parts) && Headed(parts) && ParseInt(parts[3]).Some? && !InRange(parts[3], 1))
      && (r == Err(ShareLength) <==> Sound(sha, parts) && Headed(parts) && InRange(parts[3], 1) && parts[4] == "")
      && (r == Err(MalformedShare) <==>
            && |parts| == 6 && parts[0] == "ky2"
            && !(&& Sound(sha, parts) && Headed(parts) && ParseInt(parts[3]).Some?
                 && (InRange(parts[3], 1) ==> DecodeHex(parts[4]).Some?)))
      && (r.Err? ==> r.error in {ShareVersion, ShareIndex, ShareLength, MalformedShare})
  {
    hide SplitAt, BeforeLast, ParseInt, TrimSpace, EncodeHex, DecodeHex, Bytes, Checksum, Sound;
    SoundExactly(sha, TrimSpace(card));
    var parts := SplitAt(TrimSpace(card), '-');
    if |parts| == 6 {
      EmptyDecodes(parts[4]);
    }
  }

  /** A threshold a split can have and a set identifier of sixteen bytes. */
  predicate Headed(parts: seq<string>)
    requires |parts| == 6
  {
    InRange(parts[1], 2) && DecodeHex(parts[2]).Some? && |DecodeHex(parts[2]).value| == 16
  }

  lemma EmptyDecodes(s: string)
    ensures DecodeHex(s) == Some([]) <==> s == ""
  {}
}
