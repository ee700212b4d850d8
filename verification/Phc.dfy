/** The stored form of a password hash, printed one way and parsed strictly. */
module Phc {
  import opened Wrappers
  import opened Text
  import opened Base64

  datatype Params = Params(memory: nat, time: nat, threads: nat)

  const MIN_MEMORY := 8 * 1024
  const MAX_MEMORY := 256 * 1024
  const MIN_TIME := 1
  const MAX_TIME := 10
  const MIN_THREADS := 1
  const MAX_THREADS := 16
  const MIN_SALT := 8
  const MIN_KEY := 16
  const MAX_DECODED := 1024

  /** The band a stored hash's parameters may lie in. */
  predicate Valid(p: Params) {
    && MIN_MEMORY <= p.memory <= MAX_MEMORY
    && MIN_TIME <= p.time <= MAX_TIME
    && MIN_THREADS <= p.threads <= MAX_THREADS
  }

  const VERSION_SEGMENT := "v=19"
  const PREFIXES := ["m=", "t=", "p="]

  function ParamFields(p: Params): seq<string> {
    ["m=" + FormatNat(p.memory), "t=" + FormatNat(p.time), "p=" + FormatNat(p.threads)]
  }

  /** The one spelling of these parameters. */
  function Segment(p: Params): string {
    Join(ParamFields(p), ',')
  }

  function HashFields(p: Params, salt: seq<Octet>, key: seq<Octet>): seq<string> {
    ["", "argon2id", VERSION_SEGMENT, Segment(p), EncodeRaw(salt), EncodeRaw(key)]
  }

  function Encode(p: Params, salt: seq<Octet>, key: seq<Octet>): string {
    "$argon2id$" + VERSION_SEGMENT + "$" + Segment(p) + "$" + EncodeRaw(salt) + "$" + EncodeRaw(key)
  }

  // ----- parameters

  /** A field's number, when the field begins with its prefix. */
  function ParamValue(field: string, prefix: string): Option<nat> {
    if prefix <= field then ParseUint32(field[|prefix|..]) else None
  }

  /** The parameters of a segment: three prefixed numbers that re-spell it, inside the band. */
  function ParseParams(segment: string): Option<Params> {
    var fields := SplitAt(segment, ',');
    if |fields| != 3 then None
    else
      match (ParamValue(fields[0], "m="), ParamValue(fields[1], "t="), ParamValue(fields[2], "p="))
      case (Some(m), Some(t), Some(p)) =>
        var params := Params(m, t, p);
        if p <= 255 && Segment(params) == segment && Valid(params) then Some(params) else None
      case _ => None
  }

  /** The same, field by field. */
  method ReadParams(segment: string) returns (r: Option<Params>)
    ensures r == ParseParams(segment)
  {
    hide Segment, Valid;
    var fields := SplitAt(segment, ',');
    if |fields| != 3 {
      return None;
    }
    var values := new nat[3](_ => 0);
    for i := 0 to 3
      invariant forall k :: 0 <= k < i ==> ParamValue(fields[k], PREFIXES[k]) == Some(values[k])
    {
      if !(PREFIXES[i] <= fields[i]) {
        return None;
      }
      var v := ParseUint32(fields[i][|PREFIXES[i]|..]);
      if v.None? {
        return None;
      }
      values[i] := v.value;
    }
    assert ParamValue(fields[0], PREFIXES[0]) == Some(values[0]);
    assert ParamValue(fields[1], PREFIXES[1]) == Some(values[1]);
    assert ParamValue(fields[2], PREFIXES[2]) == Some(values[2]);
    if values[2] > 255 {
      return None;
    }
    var p := Params(values[0], values[1], values[2]);
    if Segment(p) != segment || !Valid(p) {
      return None;
    }
    return Some(p);
  }

  lemma FieldsOfSegment(p: Params)
    ensures SplitAt(Segment(p), ',') == ParamFields(p)
  {
    hide FormatNat, SplitAt;
    DigitsLack(FormatNat(p.memory), ',');
    DigitsLack(FormatNat(p.time), ',');
    DigitsLack(FormatNat(p.threads), ',');
    SplitOfJoin(ParamFields(p), ',');
  }

  lemma ParamValueOf(n: nat, prefix: string)
    requires n <= MAX_UINT32
    ensures ParamValue(prefix + FormatNat(n), prefix) == Some(n)
  {
    hide FormatNat, ParseNat;
    ParseOfFormat(n);
    assert (prefix + FormatNat(n))[|prefix|..] == FormatNat(n);
  }

  /** A segment is accepted exactly when it is the canonical spelling of in-band parameters. */
  lemma ParamsAcceptedExactly(segment: string, p: Params)
    ensures ParseParams(segment) == Some(p) <==> Valid(p) && segment == Segment(p)
  {
    hide FormatNat, SplitAt, ParamValue, Segment;
    if Valid(p) && segment == Segment(p) {
      FieldsOfSegment(p);
      ParamValueOf(p.memory, "m=");
      ParamValueOf(p.time, "t=");
      ParamValueOf(p.threads, "p=");
    }
  }

  // ----- the whole string

  function Decode(s: string, min: nat): Option<seq<Octet>> {
    match DecodeRaw(s)
    case None => None
    case Some(b) => if |b| < min || |b| > MAX_DECODED then None else Some(b)
  }

  function Parse(encoded: string): Option<(Params, seq<Octet>, seq<Octet>)> {
    var parts := SplitAt(encoded, '$');
    if |parts| != 6 || parts[0] != "" then None
    else if parts[1] != "argon2id" then None
    else if parts[2] != VERSION_SEGMENT then None
    else
      match (ParseParams(parts[3]), Decode(parts[4], MIN_SALT), Decode(parts[5], MIN_KEY))
      case (Some(p), Some(salt), Some(key)) => Some((p, salt, key))
      case _ => None
  }

  lemma FieldsLackDollars(p: Params, salt: seq<Octet>, key: seq<Octet>)
    ensures AllLack(HashFields(p, salt, key), '$')
  {
    hide FormatNat, EncodeRaw;
    DigitsLack(FormatNat(p.memory), '$');
    DigitsLack(FormatNat(p.time), '$');
    DigitsLack(FormatNat(p.threads), '$');
    RawIsPlain(salt);
    RawIsPlain(key);
    SegmentLacks(p, '$');
  }

  lemma SegmentLacks(p: Params, c: char)
    requires !IsDigit(c) && c !in "mtp=,"
    ensures Lacks(Segment(p), c)
  {
    hide FormatNat;
    DigitsLack(FormatNat(p.memory), c);
    DigitsLack(FormatNat(p.time), c);
    DigitsLack(FormatNat(p.threads), c);
    var f := ParamFields(p);
    assert f[1..][1..] == f[2..];
    assert Join(f[2..], ',') == f[2];
    assert Join(f[1..], ',') == f[1] + "," + f[2];
    assert Join(f, ',') == f[0] + "," + (f[1] + "," + f[2]);
  }

  lemma JoinOfSix(f: seq<string>, sep: char)
    requires |f| == 6
    ensures Join(f, sep) == f[0] + [sep] + (f[1] + [sep] + (f[2] + [sep] + (f[3] + [sep] + (f[4] + [sep] + f[5]))))
  {
    assert f[4..][1..] == f[5..] && f[3..][1..] == f[4..] && f[2..][1..] == f[3..] && f[1..][1..] == f[2..];
    assert Join(f[5..], sep) == f[5];
    assert Join(f[4..], sep) == f[4] + [sep] + f[5];
    assert Join(f[3..], sep) == f[3] + [sep] + (f[4] + [sep] + f[5]);
    assert Join(f[2..], sep) == f[2] + [sep] + (f[3] + [sep] + (f[4] + [sep] + f[5]));
  }

  lemma EncodeIsJoin(p: Params, salt: seq<Octet>, key: seq<Octet>)
    ensures Encode(p, salt, key) == Join(HashFields(p, salt, key), '$')
  {
    hide Segment, EncodeRaw, Join;
    JoinOfSix(HashFields(p, salt, key), '$');
  }

  ghost predicate IsStored(encoded: string, p: Params, saltText: string, keyText: string) {
    encoded == "$argon2id$" + VERSION_SEGMENT + "$" + Segment(p) + "$" + saltText + "$" + keyText
  }

  predicate SizesFit(salt: seq<Octet>, key: seq<Octet>) {
    MIN_SALT <= |salt| <= MAX_DECODED && MIN_KEY <= |key| <= MAX_DECODED
  }

  /** A string parses exactly when it is the fixed header, the canonical spelling of in-band
      parameters, and two base64 texts that decode to a salt and a key of fitting sizes. */
  lemma ParseAcceptsExactly(encoded: string, p: Params, salt: seq<Octet>, key: seq<Octet>)
    ensures Parse(encoded) == Some((p, salt, key)) <==>
              && Valid(p) && SizesFit(salt, key)
              && exists saltText, keyText ::
                   && IsStored(encoded, p, saltText, keyText)
                   && DecodeRaw(saltText) == Some(salt) && DecodeRaw(keyText) == Some(key)
  {
    hide Parse, Valid, SizesFit, IsStored, DecodeRaw;
    if Parse(encoded) == Some((p, salt, key)) {
      var saltText, keyText := ParseAcceptsOnly(encoded, p, salt, key);
    }
    forall saltText, keyText | Valid(p) && SizesFit(salt, key) && IsStored(encoded, p, saltText, keyText) &&
                               DecodeRaw(saltText) == Some(salt) && DecodeRaw(keyText) == Some(key)
      ensures Parse(encoded) == Some((p, salt, key))
    {
      StoredIsParsed(encoded, p, salt, key, saltText, keyText);
    }
  }

  lemma ParseAcceptsOnly(encoded: string, p: Params, salt: seq<Octet>, key: seq<Octet>)
    returns (saltText: string, keyText: string)
    requires Parse(encoded) == Some((p, salt, key))
    ensures Valid(p) && SizesFit(salt, key) && IsStored(encoded, p, saltText, keyText)
    ensures DecodeRaw(saltText) == Some(salt) && DecodeRaw(keyText) == Some(key)
  {
    hide Segment, DecodeRaw, SplitAt, Join, ParseParams, Valid;
    var parts := SplitAt(encoded, '$');
    JoinOfSplit(encoded, '$');
    JoinOfSix(parts, '$');
    ParamsAcceptedExactly(parts[3], p);
    saltText, keyText := parts[4], parts[5];
  }

  lemma StoredIsParsed(encoded: string, p: Params, salt: seq<Octet>, key: seq<Octet>, saltText: string, keyText: string)
    requires Valid(p) && SizesFit(salt, key) && IsStored(encoded, p, saltText, keyText)
    requires DecodeRaw(saltText) == Some(salt) && DecodeRaw(keyText) == Some(key)
    ensures Parse(encoded) == Some((p, salt, key))
  {
    hide Segment, SplitAt, Join, ParseParams, Valid, DecodeRaw, IsStored, Lacks;
    DecodedLacksDollars(saltText);
    DecodedLacksDollars(keyText);
    StoredIsSplit(encoded, p, saltText, keyText);
    ParamsAcceptedExactly(Segment(p), p);
  }

  lemma DecodedLacksDollars(text: string)
    requires DecodeRaw(text).Some?
    ensures Lacks(text, '$')
  {
    DecodableLacksDollars(text);
  }

  lemma StoredIsSplit(encoded: string, p: Params, saltText: string, keyText: string)
    requires IsStored(encoded, p, saltText, keyText)
    requires Lacks(saltText, '$') && Lacks(keyText, '$')
    ensures SplitAt(encoded, '$') == ["", "argon2id", VERSION_SEGMENT, Segment(p), saltText, keyText]
  {
    hide Segment, SplitAt, Join;
    var fields := ["", "argon2id", VERSION_SEGMENT, Segment(p), saltText, keyText];
    SegmentLacks(p, '$');
    assert AllLack(fields, '$');
    SplitOfJoin(fields, '$');
    JoinOfSix(fields, '$');
    assert encoded == Join(fields, '$');
  }

  /** What encode printed, parse gives back exactly when Validate and decode allow it. */
  lemma ParseOfEncode(p: Params, salt: seq<Octet>, key: seq<Octet>)
    ensures Parse(Encode(p, salt, key)) == Some((p, salt, key)) <==>
              Valid(p) && SizesFit(salt, key)
    ensures Parse(Encode(p, salt, key)).Some? ==> Parse(Encode(p, salt, key)) == Some((p, salt, key))
  {
    hide Segment, EncodeRaw, DecodeRaw, SplitAt, Join, Valid, ParseParams, Encode;
    EncodeIsJoin(p, salt, key);
    FieldsLackDollars(p, salt, key);
    SplitOfJoin(HashFields(p, salt, key), '$');
    ParamsAcceptedExactly(Segment(p), p);
    SegmentIsInjective(p);
    RawRoundTrip(salt);
    RawRoundTrip(key);
  }

  /** A canonical segment spells one set of parameters only. */
  lemma SegmentIsInjective(p: Params)
    ensures ParseParams(Segment(p)).Some? ==> ParseParams(Segment(p)) == Some(p)
  {
    hide SplitAt, ParamValue, Segment;
    if ParseParams(Segment(p)).Some? {
      var q := ParseParams(Segment(p)).value;
      FieldsOfSegment(p);
      FieldsOfSegment(q);
      assert ParamFields(p)[0][2..] == FormatNat(p.memory) && ParamFields(q)[0][2..] == FormatNat(q.memory);
      assert ParamFields(p)[1][2..] == FormatNat(p.time) && ParamFields(q)[1][2..] == FormatNat(q.time);
      assert ParamFields(p)[2][2..] == FormatNat(p.threads) && ParamFields(q)[2][2..] == FormatNat(q.threads);
      ParseOfFormat(p.memory);
      ParseOfFormat(q.memory);
      ParseOfFormat(p.time);
      ParseOfFormat(q.time);
      ParseOfFormat(p.threads);
      ParseOfFormat(q.threads);
    }
  }
}
