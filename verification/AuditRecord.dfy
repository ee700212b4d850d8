/** Audit records, the bytes each one's digest covers, and the check that a log is the whole
    log its anchor describes. HMAC-SHA256 is a parameter: any function of a key and a text
    to 32 bytes. Nothing is assumed of it; where two inputs would have to share an output,
    the lemmas hand out those inputs. */
module AuditRecord {
  import opened Text

  const TWO_TO_64 := 0x1_0000_0000_0000_0000

  type Uint64 = n: int | 0 <= n < TWO_TO_64

  /** Counters wrap. */
  function Wrap(n: int): Uint64 {
    n % TWO_TO_64
  }

  lemma WrapNext(k: nat)
    ensures Wrap(Wrap(k) + 1) == Wrap(k + 1)
  {}

  /** A string as long as a Go string can be. */
  type Bounded = s: string | |s| <= MAX_INT64
  type Fields = f: seq<Bounded> | |f| <= MAX_INT64

  type Key = seq<Octet>
  type MacValue = d: seq<Octet> | |d| == 32 witness seq(32, _ => 0)
  type Mac = (Key, string) -> MacValue

  const MIN_KEY_BYTES := 32

  function ZeroDigits(n: nat): (s: string)
    ensures |s| == n && forall i :: 0 <= i < n ==> s[i] == '0'
  {
    if n == 0 then [] else ZeroDigits(n - 1) + ['0']
  }

  /** The predecessor hash of the first record. */
  function Genesis(): (hash: Bounded)
    ensures ValidHash(hash)
  {
    ZeroDigits(64)
  }

  datatype Record = Record(seqNo: Uint64, prev: Bounded, hash: Bounded, fields: Fields)

  datatype Anchor = Anchor(count: Uint64, hash: Bounded)

  // ----- the digest and its pre-image

  /** n in k bytes, most significant first. */
  function BigEndian(n: nat, k: nat): (s: string)
    ensures |s| == k
  {
    if k == 0 then [] else BigEndian(n / 256, k - 1) + [(n % 256) as char]
  }

  function Number(n: Uint64): string {
    BigEndian(n, 8)
  }

  function Prefixed(s: Bounded): string {
    Number(|s|) + s
  }

  function PrefixedAll(fields: seq<Bounded>): string {
    if fields == [] then [] else Prefixed(fields[0]) + PrefixedAll(fields[1..])
  }

  /** Everything the digest covers, each part preceded by its length. */
  function PreImage(seqNo: Uint64, prev: Bounded, fields: Fields): string {
    Number(seqNo) + Prefixed(prev) + Number(|fields|) + PrefixedAll(fields)
  }

  function DigestOf(mac: Mac, key: Key, seqNo: Uint64, prev: Bounded, fields: Fields): (hash: Bounded)
    ensures ValidHash(hash)
  {
    EncodeHex(mac(key, PreImage(seqNo, prev, fields)))
  }

  predicate ValidHash(s: string) {
    |s| == 64 && forall i :: 0 <= i < |s| ==> IsLowerHex(s[i])
  }

  function Bound(k: nat): nat {
    if k == 0 then 1 else 256 * Bound(k - 1)
  }

  lemma {:induction false} BigEndianIsInjective(m: nat, n: nat, k: nat)
    requires m < Bound(k) && n < Bound(k)
    requires BigEndian(m, k) == BigEndian(n, k)
    ensures m == n
  {
    if k > 0 {
      var s, t := BigEndian(m, k), BigEndian(n, k);
      assert s[..k - 1] == BigEndian(m / 256, k - 1) && t[..k - 1] == BigEndian(n / 256, k - 1);
      assert s[k - 1] == (m % 256) as char && t[k - 1] == (n % 256) as char;
      assert (m % 256) as char as int == m % 256 && (n % 256) as char as int == n % 256;
      BigEndianIsInjective(m / 256, n / 256, k - 1);
    }
  }

  lemma NumberPrefix(m: Uint64, n: Uint64, s: string, t: string)
    requires Number(m) + s == Number(n) + t
    ensures m == n && s == t
  {
    assert (Number(m) + s)[..8] == Number(m) && (Number(n) + t)[..8] == Number(n);
    assert (Number(m) + s)[8..] == s && (Number(n) + t)[8..] == t;
    assert Bound(8) == TWO_TO_64;
    BigEndianIsInjective(m, n, 8);
  }

  lemma StringPrefix(a: Bounded, b: Bounded, s: string, t: string)
    requires Prefixed(a) + s == Prefixed(b) + t
    ensures a == b && s == t
  {
    assert Prefixed(a) + s == Number(|a|) + (a + s);
    assert Prefixed(b) + t == Number(|b|) + (b + t);
    NumberPrefix(|a|, |b|, a + s, b + t);
    assert (a + s)[..|a|] == a && (b + t)[..|b|] == b;
    assert (a + s)[|a|..] == s && (b + t)[|b|..] == t;
  }

  lemma {:induction false} FieldsPrefix(f: seq<Bounded>, g: seq<Bounded>)
    requires |f| == |g| && PrefixedAll(f) == PrefixedAll(g)
    ensures f == g
  {
    if f != [] {
      StringPrefix(f[0], g[0], PrefixedAll(f[1..]), PrefixedAll(g[1..]));
      FieldsPrefix(f[1..], g[1..]);
      assert f == [f[0]] + f[1..] && g == [g[0]] + g[1..];
    }
  }

  /** No field can be shifted into its neighbour: the pre-image determines every part. */
  lemma PreImageIsInjective(m: Uint64, prev: Bounded, f: Fields, n: Uint64, prev': Bounded, g: Fields)
    requires PreImage(m, prev, f) == PreImage(n, prev', g)
    ensures m == n && prev == prev' && f == g
  {
    hide Number, Prefixed, PrefixedAll;
    var s, t := Number(|f|) + PrefixedAll(f), Number(|g|) + PrefixedAll(g);
    assert PreImage(m, prev, f) == Number(m) + (Prefixed(prev) + s);
    assert PreImage(n, prev', g) == Number(n) + (Prefixed(prev') + t);
    NumberPrefix(m, n, Prefixed(prev) + s, Prefixed(prev') + t);
    StringPrefix(prev, prev', s, t);
    NumberPrefix(|f|, |g|, PrefixedAll(f), PrefixedAll(g));
    FieldsPrefix(f, g);
  }

  /** Two different texts the MAC cannot tell apart. */
  predicate Collision(mac: Mac, key: Key, x: string, y: string) {
    x != y && mac(key, x) == mac(key, y)
  }

  /** Equal digests come from equal records, unless the MAC collides on them. */
  lemma DigestDetermines(mac: Mac, key: Key, m: Uint64, prev: Bounded, f: Fields,
                         n: Uint64, prev': Bounded, g: Fields)
    requires DigestOf(mac, key, m, prev, f) == DigestOf(mac, key, n, prev', g)
    ensures (m == n && prev == prev' && f == g) ||
            Collision(mac, key, PreImage(m, prev, f), PreImage(n, prev', g))
  {
    hide PreImage, EncodeHex, DecodeHex;
    DecodeOfEncodeHex(mac(key, PreImage(m, prev, f)));
    DecodeOfEncodeHex(mac(key, PreImage(n, prev', g)));
    if PreImage(m, prev, f) == PreImage(n, prev', g) {
      PreImageIsInjective(m, prev, f, n, prev', g);
    }
  }

  // ----- logs

  function Head(log: seq<Record>): Bounded {
    if log == [] then Genesis() else log[|log| - 1].hash
  }

  /** A record with well-formed hashes, the expected number and predecessor, and its own digest. */
  predicate Follows(mac: Mac, key: Key, rec: Record, prev: Bounded, count: Uint64) {
    && ValidHash(rec.hash) && ValidHash(rec.prev)
    && rec.seqNo == count
    && rec.prev == prev
    && rec.hash == DigestOf(mac, key, rec.seqNo, rec.prev, rec.fields)
  }

  /** The i-th record carries the next number, its predecessor's hash and its own digest. */
  predicate Links(mac: Mac, key: Key, log: seq<Record>, i: nat)
    requires i < |log|
  {
    Follows(mac, key, log[i], Head(log[..i]), Wrap(i + 1))
  }

  predicate Linked(mac: Mac, key: Key, log: seq<Record>) {
    forall i :: 0 <= i < |log| ==> Links(mac, key, log, i)
  }

  /** The whole log its anchor describes. */
  predicate Accepted(mac: Mac, key: Key, log: seq<Record>, anchor: Anchor) {
    && |key| >= MIN_KEY_BYTES
    && Linked(mac, key, log)
    && anchor == Anchor(Wrap(|log|), Head(log))
  }

  datatype Verdict = Verified | WeakKey | Broken | Truncated | ReadFailed

  /** What a store yields: records, and possibly a failure to read one. */
  datatype Item = Read(record: Record) | Failure

  function Items(log: seq<Record>): (items: seq<Item>)
    ensures |items| == |log|
  {
    seq(|log|, i requires 0 <= i < |log| => Read(log[i]))
  }

  /** The records before the first failure. */
  function Readable(items: seq<Item>): seq<Record> {
    if items == [] || items[0].Failure? then [] else [items[0].record] + Readable(items[1..])
  }

  /** VerifyStream's answer: the first fault in reading order, then the comparison with the
      anchor. */
  function Judge(mac: Mac, key: Key, items: seq<Item>, anchor: Anchor): Verdict {
    var log := Readable(items);
    if |key| < MIN_KEY_BYTES then WeakKey
    else if !ValidHash(anchor.hash) then Broken
    else if !Linked(mac, key, log) then Broken
    else if |log| < |items| then ReadFailed
    else if Wrap(|log|) < anchor.count then Truncated
    else if anchor != Anchor(Wrap(|log|), Head(log)) then Broken
    else Verified
  }

  /** The records checked so far, as the walk sees them. */
  ghost predicate Walked(mac: Mac, key: Key, items: seq<Item>, k: nat, prev: Bounded, count: Uint64)
    requires k <= |items|
  {
    && (forall i :: 0 <= i < k ==> items[i].Read?)
    && var log := Readable(items[..k]);
       |log| == k && Linked(mac, key, log) && prev == Head(log) && count == Wrap(k)
  }

  method VerifyStream(mac: Mac, key: Key, items: seq<Item>, anchor: Anchor) returns (verdict: Verdict)
    ensures verdict == Judge(mac, key, items, anchor)
  {
    hide DigestOf, ValidHash, Links, Wrap, Readable, Follows;
    if |key| < MIN_KEY_BYTES {
      return WeakKey;
    }
    if !ValidHash(anchor.hash) {
      return Broken;
    }
    var prev := Genesis();
    var count: Uint64 := 0;
    NothingWalked(mac, key, items);
    for k := 0 to |items|
      invariant Walked(mac, key, items, k, prev, count)
    {
      if items[k].Failure? {
        StopsAtFailure(items, k);
        return ReadFailed;
      }
      WrapNext(k);
      count := Wrap(count + 1);
      NextRecord(mac, key, items, k, prev, count);
      var ok := CheckRecord(mac, key, items[k].record, prev, count);
      if !ok {
        return Broken;
      }
      prev := items[k].record.hash;
    }
    StopsAtEnd(items);
    if count < anchor.count {
      return Truncated;
    } else if count > anchor.count {
      return Broken;
    } else if prev != anchor.hash {
      return Broken;
    }
    return Verified;
  }

  lemma NothingWalked(mac: Mac, key: Key, items: seq<Item>)
    ensures Walked(mac, key, items, 0, Genesis(), 0)
  {}

  method CheckRecord(mac: Mac, key: Key, rec: Record, prev: Bounded, count: Uint64) returns (ok: bool)
    ensures ok <==> Follows(mac, key, rec, prev, count)
  {
    hide DigestOf, ValidHash;
    if !ValidHash(rec.hash) || !ValidHash(rec.prev) {
      return false;
    }
    if rec.seqNo != count {
      return false;
    }
    if rec.prev != prev {
      return false;
    }
    return DigestOf(mac, key, rec.seqNo, rec.prev, rec.fields) == rec.hash;
  }

  lemma StopsAtFailure(items: seq<Item>, k: nat)
    requires k < |items| && items[k].Failure? && forall i :: 0 <= i < k ==> items[i].Read?
    ensures Readable(items) == Readable(items[..k]) && |Readable(items)| < |items|
  {
    ReadableSplit(items, k);
  }

  lemma StopsAtEnd(items: seq<Item>)
    requires forall i :: 0 <= i < |items| ==> items[i].Read?
    ensures |Readable(items)| == |items| && items[..|items|] == items
  {
    ReadableSplit(items, |items|);
    assert items[..|items|] == items;
  }

  /** The readable part, seen from position k, everything before k being readable. */
  lemma {:induction false} ReadableSplit(items: seq<Item>, k: nat)
    requires k <= |items| && forall i :: 0 <= i < k ==> items[i].Read?
    ensures Readable(items[..k]) + Readable(items[k..]) == Readable(items)
    ensures |Readable(items[..k])| == k
    ensures forall i :: 0 <= i < k ==> Readable(items[..k])[i] == items[i].record
  {
    if k > 0 {
      ReadableSplit(items[1..], k - 1);
      assert items[..k][1..] == items[1..][..k - 1] && items[1..][k - 1..] == items[k..];
    } else {
      assert items[0..] == items;
    }
  }

  lemma OneMoreReadable(items: seq<Item>, k: nat)
    requires k < |items| && forall i :: 0 <= i <= k ==> items[i].Read?
    ensures
      var log, before := Readable(items), Readable(items[..k]);
      && |before| == k < |log| && log[..k] == before && log[k] == items[k].record
      && Readable(items[..k + 1]) == before + [items[k].record]
  {
    hide Readable;
    ReadableSplit(items, k);
    ReadableSplit(items, k + 1);
    assert Readable(items)[..k] == Readable(items[..k]);
    assert Readable(items)[k] == Readable(items[..k + 1])[k];
    assert Readable(items[..k + 1])[..k] == Readable(items[..k]);
  }

  lemma NextRecord(mac: Mac, key: Key, items: seq<Item>, k: nat, prev: Bounded, count: Uint64)
    requires k < |items| && items[k].Read?
    requires Walked(mac, key, items, k, prev, Wrap(k)) && count == Wrap(k + 1)
    ensures Follows(mac, key, items[k].record, prev, count) ==>
              Walked(mac, key, items, k + 1, items[k].record.hash, count)
    ensures Linked(mac, key, Readable(items)) ==> Follows(mac, key, items[k].record, prev, count)
  {
    hide Readable, Follows, Wrap, Linked;
    OneMoreReadable(items, k);
    if Follows(mac, key, items[k].record, prev, count) {
      ExtendLinked(mac, key, Readable(items[..k]), items[k].record);
    }
    if Linked(mac, key, Readable(items)) {
      LinkedAt(mac, key, Readable(items), k);
    }
  }

  lemma LinkedAt(mac: Mac, key: Key, log: seq<Record>, k: nat)
    requires Linked(mac, key, log) && k < |log|
    ensures Follows(mac, key, log[k], Head(log[..k]), Wrap(k + 1))
  {
    hide Follows;
    assert Links(mac, key, log, k);
  }

  /** A linked log stays linked exactly when the record put after it follows its head. */
  lemma ExtendLinked(mac: Mac, key: Key, log: seq<Record>, rec: Record)
    requires Linked(mac, key, log)
    ensures Linked(mac, key, log + [rec]) <==> Follows(mac, key, rec, Head(log), Wrap(|log| + 1))
  {
    hide Follows;
    var longer := log + [rec];
    assert longer[..|log|] == log;
    assert Links(mac, key, longer, |log|) <==> Follows(mac, key, rec, Head(log), Wrap(|log| + 1));
    forall i | 0 <= i < |log|
      ensures Links(mac, key, longer, i)
    {
      assert Links(mac, key, log, i) && longer[..i] == log[..i] && longer[i] == log[i];
    }
  }
}
