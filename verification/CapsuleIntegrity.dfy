/** What a capsule's file list vouches for, what a restore gives back file by file, and when
    each refusal of sealing and of extraction is given. */
module CapsuleIntegrity {
  import opened Wrappers
  import opened Text
  import opened Encodings
  import opened CapsulePath
  import opened Capsule
  import opened CapsuleExtract
  import opened CapsuleRoundTrip

  // ----- entries

  /** An entry describes a file exactly when it says its path, size and mode, and its sum
      reads as the digest of the very bytes. */
  lemma EntryExactly(env: Env, e: FileEntry, f: File)
    ensures e == EntryOf(env, f) <==>
              && e.path == f.path && e.size == |f.content| && e.mode == f.mode
              && DecodeHex(e.sum) == Some(env.sha(f.content))
              && forall i :: 0 <= i < |e.sum| ==> IsLowerHex(e.sum[i])
  {
    hide DecodeHex, EncodeHex;
    DecodeOfEncodeHex(env.sha(f.content));
    if DecodeHex(e.sum) == Some(env.sha(f.content)) && forall i :: 0 <= i < |e.sum| ==> IsLowerHex(e.sum[i]) {
      EncodeOfDecoded(e.sum, env.sha(f.content));
    }
  }

  /** Two contents SHA-256 cannot tell apart. */
  predicate ShaCollision(env: Env, x: Bytes, y: Bytes) {
    x != y && env.sha(x) == env.sha(y)
  }

  lemma EntryDetermines(env: Env, f: File, g: File)
    requires EntryOf(env, f) == EntryOf(env, g)
    ensures f == g || ShaCollision(env, f.content, g.content)
  {
    hide DecodeHex, EncodeHex;
    DecodeOfEncodeHex(env.sha(f.content));
    DecodeOfEncodeHex(env.sha(g.content));
  }

  /** One list describes one sequence of files, or hands out two contents that collide. */
  lemma {:induction false} EntriesDetermine(env: Env, a: seq<File>, b: seq<File>) returns (x: Bytes, y: Bytes)
    requires EntriesOf(env, a) == EntriesOf(env, b)
    ensures a == b || ShaCollision(env, x, y)
  {
    hide EntryOf;
    x, y := [], [];
    assert |a| == |EntriesOf(env, a)| == |b|;
    if a != [] {
      assert EntriesOf(env, a)[0] == EntryOf(env, a[0]) && EntriesOf(env, b)[0] == EntryOf(env, b[0]);
      EntryDetermines(env, a[0], b[0]);
      if a[0] != b[0] {
        x, y := a[0].content, b[0].content;
      } else {
        assert EntriesOf(env, a[1..]) == EntriesOf(env, a)[1..] && EntriesOf(env, b[1..]) == EntriesOf(env, b)[1..];
        x, y := EntriesDetermine(env, a[1..], b[1..]);
        assert a == [a[0]] + a[1..] && b == [b[0]] + b[1..];
      }
    }
  }

  /** Two archives accepted under one decoded list restore the same files, to the same tree,
      or hand out a SHA-256 collision. */
  lemma OneRestorePerList(env: Env, a: Archive, b: Archive, onDisk: bool) returns (x: Bytes, y: Bytes)
    requires Extracted(env, a, onDisk).Ok? && Extracted(env, b, onDisk).Ok?
    requires Extracted(env, a, onDisk).value.list.Some?
    requires Extracted(env, a, onDisk).value.list == Extracted(env, b, onDisk).value.list
    ensures
      var r, s := Extracted(env, a, onDisk).value, Extracted(env, b, onDisk).value;
      (r.files == s.files && r.tree == s.tree) || ShaCollision(env, x, y)
  {
    hide Extracted, EntriesOf, Restorable, Holds, PrefixFree, DistinctPaths;
    ExtractedIsSafe(env, a, onDisk);
    ExtractedIsSafe(env, b, onDisk);
    var r, s := Extracted(env, a, onDisk).value, Extracted(env, b, onDisk).value;
    x, y := EntriesDetermine(env, r.files, s.files);
    if r.files == s.files && onDisk {
      SameFilesSameTree(r.tree.value, s.tree.value, r.files);
    }
  }

  /** The files a target holds determine all of it. */
  lemma SameFilesSameTree(t: Tree, u: Tree, files: seq<File>)
    requires Holds(t, files) && Holds(u, files)
    ensures t == u
  {
    hide HoldsFile, Holds;
    forall p | p in t
      ensures p in u && u[p] == t[p]
    {
      HeldAlike(t, u, files, p);
    }
    forall p | p in u
      ensures p in t
    {
      HeldAlike(u, t, files, p);
    }
  }

  lemma HeldAlike(t: Tree, u: Tree, files: seq<File>, p: Path)
    requires Holds(t, files) && Holds(u, files) && p in t
    ensures p in u && u[p] == t[p]
  {
    hide Components;
    assert Needed(files, p, t[p]);
    var i :| 0 <= i < |files| && Needs(files[i], p, t[p]);
    var path := Components(files[i].path);
    assert HoldsFile(t, files[i]) && HoldsFile(u, files[i]);
    if p != path {
      assert p == path[..|p|] && 0 < |p| < |path|;
    }
  }

  /** An archive accepted under the list of a sealed one restores what was sealed, or hands
      out a SHA-256 collision. */
  lemma ListVouchesForTheSealed(env: Env, files: seq<File>, archive: Archive, onDisk: bool)
    returns (x: Bytes, y: Bytes)
    requires Built(env, files).Ok? && Extracted(env, archive, onDisk).Ok?
    requires Extracted(env, archive, onDisk).value.list == Some(Built(env, files).value.1)
    ensures AllAdmissible(files)
    ensures Extracted(env, archive, onDisk).value.files == Restored(files) || ShaCollision(env, x, y)
  {
    hide Extracted, Built, EntriesOf, AllAdmissible, Restorable, Holds, PrefixFree, DistinctPaths, NoneRefused;
    SealedFilesComeBack(env, files, onDisk);
    ExtractedIsSafe(env, archive, onDisk);
    x, y := EntriesDetermine(env, Extracted(env, archive, onDisk).value.files, Restored(files));
  }

  // ----- files, one by one

  /** The owner's three bits survive one by one and all others go; a file left with none gets
      owner read-write. */
  lemma ClampExactly(others: int, r: int, w: int, x: int, low: int)
    requires 0 <= r <= 1 && 0 <= w <= 1 && 0 <= x <= 1 && 0 <= low < 64
    ensures Clamp(others * 512 + r * 256 + w * 128 + x * 64 + low) ==
      if r == 0 && w == 0 && x == 0 then 256 + 128 else r * 256 + w * 128 + x * 64
  {
    var mode := others * 512 + r * 256 + w * 128 + x * 64 + low;
    assert mode / 64 == others * 8 + r * 4 + w * 2 + x;
    assert mode / 64 % 8 == r * 4 + w * 2 + x;
  }

  /** File by file, a restore gives back the bytes that were sealed, under the path the name
      leads to and with the clamped mode. */
  lemma RestoredOneByOne(env: Env, files: seq<File>, onDisk: bool, i: nat)
    requires Built(env, files).Ok? && Extracted(env, Built(env, files).value.0, onDisk).Ok? && i < |files|
    ensures
      var at := Extracted(env, Built(env, files).value.0, onDisk).value;
      && |at.files| == |files|
      && at.files[i].content == files[i].content
      && at.files[i].mode == Clamp(files[i].mode)
      && Follow(Components(files[i].path), []) == Some(Components(at.files[i].path))
  {
    hide Extracted, Built, EntriesOf, AllAdmissible, Holds, PrefixFree, NoneRefused, Clamp, SafeRelPath, Follow,
         Components;
    SealedFilesComeBack(env, files, onDisk);
    AdmissibleAt(files, i);
    LeadsToItsComponents(files[i].path, Restored(files)[i].path);
  }

  lemma LeadsToItsComponents(name: string, clean: string)
    requires SafeRelPath(name) == Some(clean)
    ensures Follow(Components(name), []) == Some(Components(clean))
  {
    hide Follow, Fold, SplitAt, Join;
    AcceptedExactly(name, clean);
    JoinOfSplit(name, '/');
    FoldFollows(Components(name), []);
    var path := Follow(Components(name), []).value;
    assert AllLack(path, '/') by {
      assert forall k :: 0 <= k < |path| ==> Proper(path[k]);
    }
    SplitOfJoin(path, '/');
  }

  // ----- refusals

  /** What sealing refuses one file for. */
  lemma FileRefusedExactly(done: seq<File>, f: File)
    ensures
      var r, name := Admitted(done, f), SafeRelPath(f.path);
      && (r == Err(PathTraversal) <==> name.None?)
      && (r == Err(DuplicatePath) <==> name.Some? && HasPath(done, name.value))
      && (r == Err(TooLarge) <==>
            && name.Some? && !HasPath(done, name.value)
            && (|f.content| > 64 * 1024 * 1024 || TotalBytes(done) + |f.content| > 256 * 1024 * 1024))
      && (r.Err? ==> r.error in {PathTraversal, DuplicatePath, TooLarge})
  {
    hide SafeRelPath, HasPath, TotalBytes, Clamp;
  }

  /** Sealing stops at the first file that is refused, with its refusal; past the files it
      only refuses sizes. */
  lemma FirstRefusalDecides(env: Env, files: seq<File>, k: nat, done: seq<File>)
    requires |files| <= 4096 && k < |files| && NormalizedUpTo(files, k) == Ok(done)
    ensures Admitted(done, files[k]).Err? ==> Built(env, files) == Err(Admitted(done, files[k]).error)
  {
    hide Admitted, WithList;
    FaultsStay(files, k + 1, |files|);
  }

  lemma OnlySizesPastTheFiles(env: Env, files: seq<File>)
    requires |files| > 4096 || NormalizedUpTo(files, |files|).Ok?
    ensures Built(env, files).Err? ==> Built(env, files) == Err(TooLarge)
  {
    hide NormalizedUpTo, EntriesOf, TotalBytes;
  }

  /** What extraction refuses one member for, given what came before it. */
  lemma MemberRefusedExactly(env: Env, at: Reading, m: Member)
    ensures
      var r := Taken(env, at, m);
      var headerFits := at.offset + HeaderBytes(env, m) <= 256 * 1024 * 1024;
      var contentFits := at.offset + HeaderBytes(env, m) + Stored(m) <= 256 * 1024 * 1024;
      var isList := m.name == "./.kycap-files.json";
      var isFile := m.regular && !isList && |at.files| < 4096 && |m.content| <= 64 * 1024 * 1024;
      var name := SafeRelPath(m.name);
      && (r == Err(EntryType) <==> headerFits && !m.regular)
      && (r == Err(PathTraversal) <==> headerFits && isFile && name.None?)
      && (r == Err(DuplicatePath) <==>
            && headerFits
            && ((m.regular && isList && at.list.Some?) || (isFile && name.Some? && HasPath(at.files, name.value))))
      && (r == Err(Corrupt) <==>
            && headerFits && m.regular && isList && at.list.None? && contentFits
            && |m.content| <= 0x10_0000 && env.decodeList(m.content).None?)
      && (r == Err(FileFailed) <==>
            && headerFits && isFile && name.Some? && !HasPath(at.files, name.value) && contentFits
            && at.tree.Some? && Refused(env, at.tree.value, Components(name.value)))
      && r != Err(Unreadable) && r != Err(TargetNotEmpty)
  {
    hide SafeRelPath, HasPath, Clamp, HeaderBytes, FrameOf, Components, Placed;
  }

  /** What a member adds: a list nothing but itself, a file its cleaned name, its bytes and
      its clamped mode. */
  lemma MemberTaken(env: Env, at: Reading, m: Member)
    requires Taken(env, at, m).Ok?
    ensures
      var r := Taken(env, at, m).value;
      && (m.name == "./.kycap-files.json" ==>
            r.files == at.files && r.list == env.decodeList(m.content) && r.tree == at.tree)
      && (m.name != "./.kycap-files.json" ==>
            && r.list == at.list && |r.files| == |at.files| + 1 && r.files[..|at.files|] == at.files
            && var f := r.files[|at.files|];
               Some(f.path) == SafeRelPath(m.name) && f.content == m.content && f.mode == Clamp(m.mode))
  {
    hide SafeRelPath, HasPath, Clamp, HeaderBytes, FrameOf, Components, Placed, Refused;
  }

  /** Extraction stops at the first member that is refused, with its refusal. */
  lemma FirstMemberDecides(env: Env, archive: Archive, onDisk: bool, k: nat)
    requires k < |archive.members| && TakenAll(env, archive.members[..k], onDisk).Ok?
    ensures
      var taken := Taken(env, TakenAll(env, archive.members[..k], onDisk).value, archive.members[k]);
      taken.Err? ==> Extracted(env, archive, onDisk) == Err(taken.error)
  {
    hide Taken;
    var upTo := archive.members[..k + 1];
    assert upTo[..k] == archive.members[..k] && upTo[k] == archive.members[k];
    FaultStays(env, archive.members, k + 1, onDisk);
  }

  /** With every member taken, what the end of the archive is refused for. */
  lemma EndRefusedExactly(env: Env, archive: Archive, onDisk: bool)
    requires TakenAll(env, archive.members, onDisk).Ok?
    ensures
      var r, at := Extracted(env, archive, onDisk), TakenAll(env, archive.members, onDisk).value;
      var fits := at.offset + (if archive.trailer < 1024 then archive.trailer else 1024) <= 256 * 1024 * 1024;
      && (r == Err(TooLarge) <==> !fits)
      && (r == Err(Unreadable) <==> fits && !archive.intact)
      && (r == Err(Corrupt) <==>
            fits && archive.intact && at.list.Some? && at.list.value != EntriesOf(env, at.files))
      && (r.Err? ==> r.error in {TooLarge, Unreadable, Corrupt})
  {
    hide TakenAll, EntriesOf;
  }

  // ----- framing

  /** A member takes a header of whole blocks and its stored bytes, a sparse member's holes
      not among them, filled up to whole blocks. */
  lemma FrameExactly(env: Env, members: seq<Member>, m: Member, stored: nat, blocks: nat)
    requires stored + m.holes == |m.content| || (stored == 0 && m.holes > |m.content|)
    requires 512 * blocks - 512 < stored <= 512 * blocks
    ensures FramedSize(env, members + [m]) == FramedSize(env, members) + 512 * (1 + env.extraBlocks(m) + blocks)
  {
    assert (members + [m])[..|members|] == members;
    assert Capsule.Padded(stored) == 512 * blocks;
  }
}
