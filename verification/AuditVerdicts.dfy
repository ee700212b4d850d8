/** When each answer of the audit log's checks is given, said of the store's items alone: what
    was read, whether it links, and whether the reading reached the end. */
module AuditVerdicts {
  import opened Wrappers
  import opened Text
  import opened Encodings
  import opened AuditRecord
  import opened AuditChain

  // ----- the verdicts of a stream

  lemma {:induction false} ReadableBeforeFailure(log: seq<Record>, rest: seq<Item>)
    ensures Readable(Items(log) + [Failure] + rest) == log
  {
    var items := Items(log) + [Failure] + rest;
    if log == [] {
      assert items[0].Failure?;
    } else {
      ReadableBeforeFailure(log[1..], rest);
      assert items[1..] == Items(log[1..]) + [Failure] + rest;
      assert items[0] == Read(log[0]);
      assert [log[0]] + log[1..] == log;
    }
  }

  /** Every stream is records to the end, or records, a failure and whatever follows. */
  lemma {:induction false} StreamShape(items: seq<Item>) returns (rest: seq<Item>)
    ensures
      var log := Readable(items);
      items == Items(log) || items == Items(log) + [Failure] + rest
  {
    rest := [];
    if items != [] {
      if items[0].Failure? {
        rest := items[1..];
        assert items == [] + [Failure] + rest;
      } else {
        rest := StreamShape(items[1..]);
        var log := Readable(items[1..]);
        assert Items([items[0].record] + log) == [items[0]] + Items(log);
        assert items == [items[0]] + items[1..];
        assert [items[0]] + (Items(log) + [Failure] + rest) == [items[0]] + Items(log) + [Failure] + rest;
      }
    }
  }

  /** What the verifier demands before it reads anything. */
  predicate Ready(key: Key, anchor: Anchor) {
    |key| >= 32 && ValidHash(anchor.hash)
  }

  /** A store that fails after records that link is a failed read, whatever the anchor counts. */
  lemma FailureIsReported(mac: Mac, key: Key, log: seq<Record>, rest: seq<Item>, anchor: Anchor)
    requires Ready(key, anchor) && Linked(mac, key, log)
    ensures Judge(mac, key, Items(log) + [Failure] + rest, anchor) == ReadFailed
  {
    hide Linked, ValidHash, Readable;
    ReadableBeforeFailure(log, rest);
  }

  /** And after records that do not link, the fault in them is reported first. */
  lemma FaultIsReportedFirst(mac: Mac, key: Key, log: seq<Record>, rest: seq<Item>, anchor: Anchor)
    requires Ready(key, anchor) && !Linked(mac, key, log)
    ensures Judge(mac, key, Items(log), anchor) == Broken
    ensures Judge(mac, key, Items(log) + [Failure] + rest, anchor) == Broken
  {
    hide Linked, ValidHash, Readable;
    ReadableBeforeFailure(log, rest);
    ReadableOfItems(log);
  }

  /** A linked log read to its end is compared with the anchor: short, past it, of another
      head, or verified. */
  lemma CompleteLogIsCompared(mac: Mac, key: Key, log: seq<Record>, anchor: Anchor)
    requires Ready(key, anchor) && Linked(mac, key, log)
    ensures
      var verdict, count := Judge(mac, key, Items(log), anchor), |log| % 0x1_0000_0000_0000_0000;
      && (verdict == Truncated <==> count < anchor.count)
      && (verdict == Broken <==> count > anchor.count || (count == anchor.count && Head(log) != anchor.hash))
      && (verdict == Verified <==> count == anchor.count && Head(log) == anchor.hash)
  {
    hide Linked, ValidHash, Readable;
    ReadableOfItems(log);
  }

  /** A weak key and a malformed anchor are refused before anything is read. */
  lemma RefusedUnread(mac: Mac, key: Key, items: seq<Item>, anchor: Anchor)
    ensures Judge(mac, key, items, anchor) == WeakKey <==> |key| < 32
    ensures |key| >= 32 && !ValidHash(anchor.hash) ==> Judge(mac, key, items, anchor) == Broken
  {
    hide Linked, ValidHash, Readable;
  }

  /** A log is called truncated exactly when all of it was read and links, and it has fewer
      records than the anchor counts. */
  lemma TruncatedExactly(mac: Mac, key: Key, items: seq<Item>, anchor: Anchor)
    ensures Judge(mac, key, items, anchor) == Truncated <==>
              && Ready(key, anchor)
              && exists log: seq<Record> ::
                   items == Items(log) && Linked(mac, key, log) && |log| % 0x1_0000_0000_0000_0000 < anchor.count
  {
    hide Linked, ValidHash, Readable, Judge, Items;
    RefusedUnread(mac, key, items, anchor);
    if Ready(key, anchor) {
      var log := Readable(items);
      var rest := StreamShape(items);
      JudgedByShape(mac, key, items, log, rest, anchor);
      forall log': seq<Record> | items == Items(log')
        ensures log' == log
      {
        ReadableOfItems(log');
      }
    }
  }

  /** A read is called failed exactly when it failed after records that link. */
  lemma ReadFailedExactly(mac: Mac, key: Key, items: seq<Item>, anchor: Anchor)
    ensures Judge(mac, key, items, anchor) == ReadFailed <==>
              && Ready(key, anchor)
              && exists log: seq<Record>, rest ::
                   items == Items(log) + [Failure] + rest && Linked(mac, key, log)
  {
    hide Linked, ValidHash, Readable, Judge, Items;
    RefusedUnread(mac, key, items, anchor);
    if Ready(key, anchor) {
      var log := Readable(items);
      var rest := StreamShape(items);
      JudgedByShape(mac, key, items, log, rest, anchor);
      forall log': seq<Record>, rest' | items == Items(log') + [Failure] + rest'
        ensures Linked(mac, key, log') ==> Judge(mac, key, items, anchor) == ReadFailed
      {
        JudgedByShape(mac, key, items, log', rest', anchor);
      }
    }
  }

  lemma JudgedByShape(mac: Mac, key: Key, items: seq<Item>, log: seq<Record>, rest: seq<Item>, anchor: Anchor)
    requires Ready(key, anchor) && (items == Items(log) || items == Items(log) + [Failure] + rest)
    ensures
      var verdict := Judge(mac, key, items, anchor);
      && (verdict == Truncated ==> items == Items(log) && Linked(mac, key, log) && |log| % TWO_TO_64 < anchor.count)
      && (items == Items(log) && Linked(mac, key, log) && |log| % TWO_TO_64 < anchor.count ==> verdict == Truncated)
      && (verdict == ReadFailed ==> items == Items(log) + [Failure] + rest && Linked(mac, key, log))
      && (items == Items(log) + [Failure] + rest && Linked(mac, key, log) ==> verdict == ReadFailed)
  {
    hide Linked, ValidHash, Readable, Judge, Items;
    if Linked(mac, key, log) {
      FailureIsReported(mac, key, log, rest, anchor);
      CompleteLogIsCompared(mac, key, log, anchor);
    } else {
      FaultIsReportedFirst(mac, key, log, rest, anchor);
    }
  }

  // ----- single records and hashes

  /** The well-formed hashes are exactly the hexadecimal forms of 32 bytes. */
  lemma ValidHashExactly(s: string)
    ensures ValidHash(s) <==> exists d: MacValue :: s == EncodeHex(d)
  {
    hide DecodeHex, EncodeHex;
    if ValidHash(s) {
      LowerHexDecodes(s);
      var d: MacValue := DecodeHex(s).value;
      EncodeOfDecoded(s, d);
    }
  }

  lemma LowerHexDecodes(s: string)
    requires ValidHash(s)
    ensures DecodeHex(s).Some? && |DecodeHex(s).value| == 32
  {
    hide DecodeHex;
    forall i | 0 <= i < |s|
      ensures IsHexDigit(s[i])
    {
      LowerDigit(s[i]);
    }
    DecodableExactly(s);
    DecodesExactly(s, DecodeHex(s).value);
  }

  lemma LowerDigit(c: char)
    requires IsLowerHex(c)
    ensures IsHexDigit(c)
  {
    SomeDigitExactly(c);
  }

  /** The first record follows sixty-four zeros. */
  lemma GenesisIsZeros()
    ensures Genesis() == EncodeHex(seq(32, _ => 0))
  {
    var zeros := seq(32, _ => 0);
    forall i | 0 <= i < 64
      ensures EncodeHex(zeros)[i] == '0'
    {
      EncodesExactly(zeros, i / 2);
    }
  }

  /** A record verifies by itself exactly when it is one Append could have built, on some head
      and on any count but the last. */
  lemma VerifiesExactlyWhatIsMinted(mac: Mac, key: Key, r: Record)
    ensures VerifyRecord(mac, key, r) <==>
              && |key| >= 32 && ValidHash(r.prev)
              && exists count: Uint64 | count != 0xffff_ffff_ffff_ffff :: r == Minted(mac, key, count, r.prev, r.fields)
  {
    hide ValidHash, DigestOf;
    if VerifyRecord(mac, key, r) {
      var count: Uint64 := r.seqNo - 1;
      assert r == Minted(mac, key, count, r.prev, r.fields);
    }
  }

  // ----- the bytes under the digest

  function BytesValue(s: string): nat {
    if s == [] then 0 else 256 * BytesValue(s[..|s| - 1]) + s[|s| - 1] as int
  }

  /** Numbers are written in eight bytes, most significant first. */
  lemma NumberExactly(n: Uint64)
    ensures |Number(n)| == 8 && BytesValue(Number(n)) == n
    ensures forall i :: 0 <= i < 8 ==> Number(n)[i] as int < 256
  {
    assert Bound(8) == TWO_TO_64;
    BigEndianValue(n, 8);
  }

  lemma {:induction false} BigEndianValue(n: nat, k: nat)
    requires n < Bound(k)
    ensures BytesValue(BigEndian(n, k)) == n
    ensures forall i :: 0 <= i < k ==> BigEndian(n, k)[i] as int < 256
  {
    if k > 0 {
      BigEndianValue(n / 256, k - 1);
      assert BigEndian(n, k)[..k - 1] == BigEndian(n / 256, k - 1);
    }
  }

  /** The pre-image opens with the number and the length of the predecessor's hash, which it
      then spells; the count of the fields follows. */
  lemma PreImageOpens(seqNo: Uint64, prev: Bounded, fields: Fields)
    ensures
      var text, at := PreImage(seqNo, prev, fields), 16 + |prev|;
      && |text| >= at + 8
      && BytesValue(text[..8]) == seqNo && BytesValue(text[8..16]) == |prev|
      && text[16..at] == prev && BytesValue(text[at..at + 8]) == |fields|
      && text[at + 8..] == PrefixedAll(fields)
  {
    hide BytesValue, Number;
    NumberExactly(seqNo);
    NumberExactly(|prev|);
    NumberExactly(|fields|);
    var text := PreImage(seqNo, prev, fields);
    assert text == Number(seqNo) + Number(|prev|) + prev + Number(|fields|) + PrefixedAll(fields);
    assert text[..8] == Number(seqNo) && text[8..16] == Number(|prev|);
    assert text[16..16 + |prev|] == prev && text[16 + |prev|..24 + |prev|] == Number(|fields|);
  }

  /** Each field is spelled after its length, in order. */
  lemma {:induction false} FieldsFollow(before: seq<Bounded>, f: Bounded, after: seq<Bounded>)
    ensures PrefixedAll(before + [f] + after) == PrefixedAll(before) + Number(|f|) + f + PrefixedAll(after)
  {
    hide Number;
    var all := before + [f] + after;
    if before == [] {
      assert all[1..] == after;
    } else {
      FieldsFollow(before[1..], f, after);
      assert all[1..] == before[1..] + [f] + after;
      assert all[0] == before[0];
      hide Prefixed;
    }
  }
}
