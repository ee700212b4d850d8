/** What verification establishes about a log, and the chain that appends to one. */
module AuditChain {
  import opened Wrappers
  import opened Text
  import opened AuditRecord

  // ----- what a verified log is

  /** Verification succeeds exactly on the complete, fully read, linked log of the anchor. */
  lemma VerifiedExactly(mac: Mac, key: Key, items: seq<Item>, anchor: Anchor)
    ensures Judge(mac, key, items, anchor) == Verified <==>
              Items(Readable(items)) == items && Accepted(mac, key, Readable(items), anchor)
  {
    hide Links, Wrap;
    ReadableRecords(items);
    if Linked(mac, key, Readable(items)) {
      HeadIsValid(mac, key, Readable(items));
    }
  }

  lemma {:induction false} ReadableRecords(items: seq<Item>)
    ensures |Readable(items)| <= |items|
    ensures |Readable(items)| == |items| <==> Items(Readable(items)) == items
  {
    if items != [] && items[0].Read? {
      ReadableRecords(items[1..]);
      var rest := Readable(items[1..]);
      assert Items([items[0].record] + rest) == [items[0]] + Items(rest);
      assert items == [items[0]] + items[1..];
    }
  }

  lemma {:induction false} ReadableOfItems(log: seq<Record>)
    ensures Readable(Items(log)) == log
  {
    if log != [] {
      ReadableOfItems(log[1..]);
      assert Items(log)[1..] == Items(log[1..]);
      assert [log[0]] + log[1..] == log;
    }
  }

  lemma HeadIsValid(mac: Mac, key: Key, log: seq<Record>)
    requires Linked(mac, key, log)
    ensures ValidHash(Head(log))
  {
    hide ValidHash, DigestOf;
    if log != [] {
      assert Links(mac, key, log, |log| - 1);
    }
  }

  lemma LinkedPrefix(mac: Mac, key: Key, log: seq<Record>, k: nat)
    requires Linked(mac, key, log) && k <= |log|
    ensures Linked(mac, key, log[..k])
  {
    hide ValidHash, DigestOf, Wrap;
    forall i | 0 <= i < k
      ensures Links(mac, key, log[..k], i)
    {
      assert Links(mac, key, log, i) && log[..k][..i] == log[..i];
    }
  }

  lemma WrapOfSmall(n: nat)
    requires n < TWO_TO_64
    ensures Wrap(n) == n
  {}

  /** Records missing from the end are always noticed. */
  lemma PrefixIsTruncated(mac: Mac, key: Key, log: seq<Record>, anchor: Anchor, k: nat)
    requires Accepted(mac, key, log, anchor) && |log| < TWO_TO_64 && k < |log|
    ensures Judge(mac, key, Items(log[..k]), anchor) == Truncated
  {
    hide Links, Wrap, Readable;
    ReadableOfItems(log[..k]);
    LinkedPrefix(mac, key, log, k);
    HeadIsValid(mac, key, log);
    WrapOfSmall(|log|);
    WrapOfSmall(k);
  }

  /** Two logs accepted under one key against one anchor are the same log, or else two of
      their records give two different texts with the same MAC. */
  lemma OneLogPerAnchor(mac: Mac, key: Key, a: seq<Record>, b: seq<Record>, anchor: Anchor)
    returns (x: string, y: string)
    requires Accepted(mac, key, a, anchor) && |a| < TWO_TO_64
    requires Accepted(mac, key, b, anchor) && |b| < TWO_TO_64
    ensures a == b || Collision(mac, key, x, y)
  {
    hide Links, Wrap, Collision;
    WrapOfSmall(|a|);
    WrapOfSmall(|b|);
    x, y := SameHeadSameLog(mac, key, a, b);
  }

  lemma {:induction false} SameHeadSameLog(mac: Mac, key: Key, a: seq<Record>, b: seq<Record>)
    returns (x: string, y: string)
    requires Linked(mac, key, a) && Linked(mac, key, b)
    requires |a| == |b| && Head(a) == Head(b)
    ensures a == b || Collision(mac, key, x, y)
    decreases |a|
  {
    hide ValidHash, DigestOf, Wrap, PreImage, Collision;
    if a == [] {
      x, y := "", "";
    } else {
      var n := |a| - 1;
      assert Links(mac, key, a, n) && Links(mac, key, b, n);
      DigestDetermines(mac, key, a[n].seqNo, a[n].prev, a[n].fields, b[n].seqNo, b[n].prev, b[n].fields);
      x := PreImage(a[n].seqNo, a[n].prev, a[n].fields);
      y := PreImage(b[n].seqNo, b[n].prev, b[n].fields);
      if !Collision(mac, key, x, y) {
        LinkedPrefix(mac, key, a, n);
        LinkedPrefix(mac, key, b, n);
        x, y := SameHeadSameLog(mac, key, a[..n], b[..n]);
        assert a == a[..n] + [a[n]] && b == b[..n] + [b[n]];
      }
    }
  }

  // ----- single records

  /** A record carries its own digest under this key. */
  predicate VerifyRecord(mac: Mac, key: Key, r: Record) {
    && |key| >= MIN_KEY_BYTES
    && ValidHash(r.hash) && ValidHash(r.prev)
    && r.seqNo != 0
    && r.hash == DigestOf(mac, key, r.seqNo, r.prev, r.fields)
  }

  /** What Resume demands of the record and anchor it continues from. */
  predicate Resumable(mac: Mac, key: Key, last: Record, anchor: Anchor) {
    && VerifyRecord(mac, key, last)
    && last.seqNo != TWO_TO_64 - 1
    && anchor.count == last.seqNo && anchor.hash == last.hash
  }

  /** Of a verified log's own records, only the last can be resumed from, and it always can
      unless its number is the largest there is. */
  lemma OnlyTheTailResumes(mac: Mac, key: Key, log: seq<Record>, anchor: Anchor, i: nat)
    requires Accepted(mac, key, log, anchor) && |log| < TWO_TO_64 && i < |log|
    ensures Resumable(mac, key, log[i], anchor) <==> i == |log| - 1 && |log| != TWO_TO_64 - 1
  {
    hide ValidHash, DigestOf, Wrap;
    assert Links(mac, key, log, i);
    WrapOfSmall(i + 1);
    WrapOfSmall(|log|);
  }

  /** Any record at all that can be resumed from under a verified log's anchor is that log's
      tail, or else the MAC collides. */
  lemma ResumedRecordIsTheTail(mac: Mac, key: Key, log: seq<Record>, anchor: Anchor, r: Record)
    requires Accepted(mac, key, log, anchor) && 0 < |log| < TWO_TO_64
    requires Resumable(mac, key, r, anchor)
    ensures
      var tail := log[|log| - 1];
      r == tail || Collision(mac, key, PreImage(r.seqNo, r.prev, r.fields),
                             PreImage(tail.seqNo, tail.prev, tail.fields))
  {
    hide ValidHash, DigestOf, Wrap, PreImage;
    var tail := log[|log| - 1];
    assert Links(mac, key, log, |log| - 1);
    DigestDetermines(mac, key, r.seqNo, r.prev, r.fields, tail.seqNo, tail.prev, tail.fields);
  }

  // ----- appending

  /** The record Append builds after a head. */
  function Minted(mac: Mac, key: Key, count: Uint64, head: Bounded, fields: Fields): Record {
    var seqNo := Wrap(count + 1);
    Record(seqNo, head, DigestOf(mac, key, seqNo, head, fields), fields)
  }

  /** The chain's memory agrees with what is stored. */
  predicate InStep(mac: Mac, key: Key, count: Uint64, head: Bounded, log: seq<Record>) {
    Accepted(mac, key, log, Anchor(count, head))
  }

  /** Storing the minted record and moving to it keeps the log verifiable. */
  lemma MintedExtends(mac: Mac, key: Key, count: Uint64, head: Bounded, log: seq<Record>, fields: Fields)
    requires InStep(mac, key, count, head, log)
    ensures
      var rec := Minted(mac, key, count, head, fields);
      InStep(mac, key, rec.seqNo, rec.hash, log + [rec])
  {
    hide DigestOf, ValidHash, Links, Wrap;
    WrapNext(|log|);
    HeadIsValid(mac, key, log);
    var rec := Minted(mac, key, count, head, fields);
    assert ValidHash(rec.hash) by { DigestIsValid(mac, key, rec.seqNo, head, fields); }
    ExtendLinked(mac, key, log, rec);
  }

  /** A chain that is never stopped reaches every length, in step with its log all the way. */
  lemma {:induction false} LogOfLength(mac: Mac, key: Key, n: nat) returns (log: seq<Record>)
    requires |key| >= MIN_KEY_BYTES
    ensures |log| == n && Accepted(mac, key, log, Anchor(Wrap(n), Head(log)))
  {
    log := [];
    if n > 0 {
      hide Accepted, InStep, Wrap, Minted;
      var shorter := LogOfLength(mac, key, n - 1);
      var anchor := Anchor(Wrap(n - 1), Head(shorter));
      assert InStep(mac, key, anchor.count, anchor.hash, shorter) by {
        InStepMeans(mac, key, anchor, shorter);
      }
      MintedExtends(mac, key, anchor.count, anchor.hash, shorter, []);
      var rec := Minted(mac, key, anchor.count, anchor.hash, []);
      log := shorter + [rec];
      InStepMeans(mac, key, Anchor(rec.seqNo, rec.hash), log);
      AcceptedAnchor(mac, key, log, Anchor(rec.seqNo, rec.hash));
    }
  }

  lemma InStepMeans(mac: Mac, key: Key, anchor: Anchor, log: seq<Record>)
    ensures InStep(mac, key, anchor.count, anchor.hash, log) <==> Accepted(mac, key, log, anchor)
  {}

  lemma AcceptedAnchor(mac: Mac, key: Key, log: seq<Record>, anchor: Anchor)
    requires Accepted(mac, key, log, anchor)
    ensures anchor == Anchor(Wrap(|log|), Head(log))
  {}

  /** A wrapped chain does verify: the record after the highest number carries zero, and so
      does the count that the verifier and the anchor hold against it. */
  lemma WrappedLogVerifies(mac: Mac, key: Key) returns (log: seq<Record>)
    requires |key| >= MIN_KEY_BYTES
    ensures |log| == TWO_TO_64 && log[|log| - 1].seqNo == 0
    ensures Judge(mac, key, Items(log), Anchor(0, Head(log))) == Verified
  {
    hide Accepted, Links, Judge, Readable, Head;
    log := LogOfLength(mac, key, TWO_TO_64);
    ReadableOfItems(log);
    VerifiedExactly(mac, key, Items(log), Anchor(0, Head(log)));
    LastNumber(mac, key, log, Anchor(0, Head(log)));
  }

  lemma LastNumber(mac: Mac, key: Key, log: seq<Record>, anchor: Anchor)
    requires Accepted(mac, key, log, anchor) && log != []
    ensures log[|log| - 1].seqNo == Wrap(|log|)
  {
    assert Links(mac, key, log, |log| - 1);
  }

  lemma DigestIsValid(mac: Mac, key: Key, seqNo: Uint64, prev: Bounded, fields: Fields)
    ensures ValidHash(DigestOf(mac, key, seqNo, prev, fields))
  {}

  datatype Error = WeakChainKey | BadRecord | NotTheTail | NoPersist | Cancelled | PersistFailed

  /** A store that keeps a record, with the anchor it produces, exactly when it reports success. */
  class Store {
    var log: seq<Record>
    var anchor: Anchor

    constructor (log: seq<Record>, anchor: Anchor)
      ensures this.log == log && this.anchor == anchor
    {
      this.log, this.anchor := log, anchor;
    }

    method Persist(rec: Record, anchor: Anchor, fails: bool) returns (ok: bool)
      modifies this
      ensures ok == !fails
      ensures log == (if ok then old(log) + [rec] else old(log))
      ensures this.anchor == (if ok then anchor else old(this.anchor))
    {
      ok := !fails;
      if ok {
        log := log + [rec];
        this.anchor := anchor;
      }
    }
  }

  /** The persist argument: absent, one that accepts everything and keeps nothing, or a store. */
  datatype Persist = NoFunction | AcceptAll | Into(store: Store, fails: bool)

  class Chain {
    const mac: Mac
    const key: Key
    var count: Uint64
    var head: Bounded

    predicate Matches(log: seq<Record>)
      reads this
    {
      InStep(mac, key, count, head, log)
    }

    constructor (mac: Mac, key: Key)
      requires |key| >= MIN_KEY_BYTES
      ensures this.mac == mac && this.key == key
      ensures count == 0 && head == Genesis() && Matches([])
    {
      this.mac, this.key := mac, key;
      count, head := 0, Genesis();
    }

    static method New(mac: Mac, key: Key) returns (r: Result<Chain, Error>)
      ensures r.Ok? <==> |key| >= MIN_KEY_BYTES
      ensures r.Ok? ==> fresh(r.value) && r.value.mac == mac && r.value.key == key && r.value.Matches([])
      ensures r.Err? ==> r.error == WeakChainKey
    {
      if |key| < MIN_KEY_BYTES {
        return Err(WeakChainKey);
      }
      var c := new Chain(mac, key);
      return Ok(c);
    }

    static method Resume(mac: Mac, key: Key, last: Record, anchor: Anchor) returns (r: Result<Chain, Error>)
      ensures r.Ok? <==> Resumable(mac, key, last, anchor)
      ensures r.Ok? ==> fresh(r.value) && r.value.mac == mac && r.value.key == key
      ensures r.Ok? ==> Anchor(r.value.count, r.value.head) == anchor
      ensures r.Ok? ==> forall log :: Accepted(mac, key, log, anchor) ==> r.value.Matches(log)
      ensures r.Err? ==>
                r.error == if |key| < MIN_KEY_BYTES then WeakChainKey
                           else if VerifyRecord(mac, key, last) && last.seqNo != TWO_TO_64 - 1 then NotTheTail
                           else BadRecord
    {
      hide VerifyRecord, Accepted;
      if |key| < MIN_KEY_BYTES {
        assert !VerifyRecord(mac, key, last) by { WeakKeyVerifiesNothing(mac, key, last); }
        return Err(WeakChainKey);
      }
      var c := new Chain(mac, key);
      if !VerifyRecord(mac, key, last) {
        return Err(BadRecord);
      }
      if last.seqNo == TWO_TO_64 - 1 {
        return Err(BadRecord);
      }
      if anchor.count != last.seqNo || anchor.hash != last.hash {
        return Err(NotTheTail);
      }
      c.count, c.head := last.seqNo, last.hash;
      return Ok(c);
    }

    /** admitted says whether the wait for the chain's lock ended with the lock or with the
        caller's context. */
    method Append(admitted: bool, persist: Persist, fields: Fields) returns (r: Result<Record, Error>)
      modifies this, if persist.Into? then {persist.store} else {}
      ensures r.Ok? <==> !persist.NoFunction? && admitted && (persist.Into? ==> !persist.fails)
      ensures r.Ok? ==> r.value == Minted(mac, key, old(count), old(head), fields)
      ensures r.Ok? ==> count == r.value.seqNo && head == r.value.hash
      ensures r.Err? ==> count == old(count) && head == old(head)
      ensures r.Err? ==>
                r.error == if persist.NoFunction? then NoPersist else if !admitted then Cancelled else PersistFailed
      ensures persist.Into? ==> persist.store.log == old(persist.store.log) + (if r.Ok? then [r.value] else [])
      ensures persist.Into? && r.Ok? ==> persist.store.anchor == Anchor(count, head)
      ensures forall log :: old(Matches(log)) ==> Matches(log + (if r.Ok? then [r.value] else []))
    {
      hide InStep, Minted;
      if persist.NoFunction? {
        KeptWithoutRecord();
        return Err(NoPersist);
      }
      if !admitted {
        KeptWithoutRecord();
        return Err(Cancelled);
      }
      var rec := Mint(fields);
      var ok := true;
      if persist.Into? {
        ok := persist.store.Persist(rec, Anchor(rec.seqNo, rec.hash), persist.fails);
      }
      if !ok {
        KeptWithoutRecord();
        return Err(PersistFailed);
      }
      MintedExtendsAll(mac, key, count, head, fields);
      count, head := rec.seqNo, rec.hash;
      return Ok(rec);
    }

    method Mint(fields: Fields) returns (rec: Record)
      ensures rec == Minted(mac, key, count, head, fields)
    {
      var seqNo := Wrap(count + 1);
      var hash := DigestOf(mac, key, seqNo, head, fields);
      return Record(seqNo, head, hash, fields);
    }

    /** What to keep outside the log: it accounts for every log the chain is in step with. */
    method CurrentAnchor() returns (anchor: Anchor)
      ensures anchor == Anchor(count, head)
      ensures forall log :: Matches(log) ==> Judge(mac, key, Items(log), anchor) == Verified
    {
      hide Judge, Accepted, Items, Readable;
      anchor := Anchor(count, head);
      forall log | Matches(log)
        ensures Judge(mac, key, Items(log), anchor) == Verified
      {
        ReadableOfItems(log);
        VerifiedExactly(mac, key, Items(log), anchor);
      }
    }

    lemma KeptWithoutRecord()
      ensures forall log :: Matches(log) ==> Matches(log + [])
    {
      forall log | Matches(log)
        ensures Matches(log + [])
      {
        assert log + [] == log;
      }
    }
  }

  lemma WeakKeyVerifiesNothing(mac: Mac, key: Key, r: Record)
    requires |key| < MIN_KEY_BYTES
    ensures !VerifyRecord(mac, key, r)
  {}

  lemma MintedExtendsAll(mac: Mac, key: Key, count: Uint64, head: Bounded, fields: Fields)
    ensures forall log :: InStep(mac, key, count, head, log) ==>
              var rec := Minted(mac, key, count, head, fields);
              InStep(mac, key, rec.seqNo, rec.hash, log + [rec])
  {
    hide InStep, Minted;
    forall log | InStep(mac, key, count, head, log)
      ensures
        var rec := Minted(mac, key, count, head, fields);
        InStep(mac, key, rec.seqNo, rec.hash, log + [rec])
    {
      MintedExtends(mac, key, count, head, log, fields);
    }
  }

  /** A whole chain from field tuples: its records carry the tuples in order and verify
      against the anchor returned with them. */
  method Replay(mac: Mac, key: Key, tuples: seq<Fields>) returns (r: Result<(seq<Record>, Anchor), Error>)
    ensures r.Ok? <==> |key| >= MIN_KEY_BYTES
    ensures r.Ok? ==>
              && Accepted(mac, key, r.value.0, r.value.1)
              && |r.value.0| == |tuples|
              && forall i :: 0 <= i < |tuples| ==> r.value.0[i].fields == tuples[i]
  {
    hide Accepted, DigestOf;
    var made := Chain.New(mac, key);
    if made.Err? {
      return Err(made.error);
    }
    var c := made.value;
    var records: seq<Record> := [];
    for k := 0 to |tuples|
      invariant fresh(c) && c.mac == mac && c.key == key && c.Matches(records)
      invariant |records| == k
      invariant forall i :: 0 <= i < k ==> records[i].fields == tuples[i]
    {
      var rec := c.Append(true, AcceptAll, tuples[k]);
      records := records + [rec.value];
    }
    var anchor := c.CurrentAnchor();
    return Ok((records, anchor));
  }
}
