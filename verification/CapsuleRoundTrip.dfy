/** Which archives extraction accepts, what it returns for them, and how that answers what
    sealing built. */
module CapsuleRoundTrip {
  import opened Wrappers
  import opened Text
  import opened CapsulePath
  import opened Capsule
  import opened CapsuleExtract

  // ----- what an archive says

  /** The files of an archive as they are restored: every member but the list, in order. */
  function FilesIn(members: seq<Member>): seq<File> {
    if members == [] then []
    else
      var m := members[|members| - 1];
      var before := FilesIn(members[..|members| - 1]);
      if IsList(m) || Normalized(FileOf(m)).None? then before else before + [Normalized(FileOf(m)).value]
  }

  function ListsIn(members: seq<Member>): seq<Bytes> {
    if members == [] then []
    else
      var m := members[|members| - 1];
      var before := ListsIn(members[..|members| - 1]);
      if IsList(m) then before + [m.content] else before
  }

  function ListOf(env: Env, lists: seq<Bytes>): Option<seq<FileEntry>> {
    if lists == [] then None else env.decodeList(lists[0])
  }

  predicate Readable(env: Env, m: Member) {
    && m.regular
    && if IsList(m) then |m.content| <= MAX_FILE_LIST_BYTES && env.decodeList(m.content).Some?
       else |m.content| <= MAX_FILE_BYTES && SafeRelPath(m.name).Some?
  }

  predicate AllReadable(env: Env, members: seq<Member>) {
    forall i :: 0 <= i < |members| ==> Readable(env, members[i])
  }

  predicate DistinctPaths(files: seq<File>) {
    forall i, j :: 0 <= i < j < |files| ==> files[i].path != files[j].path
  }

  predicate Above(f: File, g: File) {
    Components(f.path) < Components(g.path)
  }

  /** No file's path is a directory on another's. */
  predicate PrefixFree(files: seq<File>) {
    forall i, j :: 0 <= i < |files| && 0 <= j < |files| ==> !Above(files[i], files[j])
  }

  /** The target's file system refuses none of these. */
  predicate NoneRefused(env: Env, files: seq<File>) {
    forall i :: 0 <= i < |files| ==> env.disk(Components(files[i].path)).None?
  }

  predicate Parts(env: Env, members: seq<Member>, onDisk: bool) {
    && AllReadable(env, members)
    && |FilesIn(members)| <= MAX_FILES && DistinctPaths(FilesIn(members))
    && |ListsIn(members)| <= 1
    && (onDisk ==> PrefixFree(FilesIn(members)) && NoneRefused(env, FilesIn(members)))
  }

  predicate Acceptable(env: Env, archive: Archive, onDisk: bool) {
    && Parts(env, archive.members, onDisk)
    && FramedSize(env, archive.members) + TrailerRead(archive) <= MAX_EXPANDED_BYTES
    && archive.intact
    && (ListsIn(archive.members) != [] ==>
          ListOf(env, ListsIn(archive.members)) == Some(EntriesOf(env, FilesIn(archive.members))))
  }

  // ----- what a target holds

  predicate HoldsFile(tree: Tree, f: File) {
    var path := Components(f.path);
    && path in tree && tree[path] == Regular(f.content, f.mode)
    && forall n :: 0 < n < |path| ==> path[..n] in tree && tree[path[..n]] == Folder
  }

  predicate Needs(f: File, path: Path, node: Node) {
    path <= Components(f.path) && (path == Components(f.path) || (path != [] && node == Folder))
  }

  predicate Needed(files: seq<File>, path: Path, node: Node) {
    exists i :: 0 <= i < |files| && Needs(files[i], path, node)
  }

  /** Exactly these files, and the directories above them. */
  predicate Holds(tree: Tree, files: seq<File>) {
    && (forall i :: 0 <= i < |files| ==> HoldsFile(tree, files[i]))
    && (forall path :: path in tree ==> Needed(files, path, tree[path]))
  }

  predicate Clashes(files: seq<File>, f: File) {
    exists i :: 0 <= i < |files| && (Above(files[i], f) || Above(f, files[i]))
  }

  /** A file can be created exactly when it neither repeats a path nor needs a file to be a
      directory. */
  lemma BlockedExactly(tree: Tree, files: seq<File>, f: File)
    requires Holds(tree, files)
    ensures Blocked(tree, Components(f.path)) <==> HasPath(files, f.path) || Clashes(files, f)
  {
    hide Components, HoldsFile, Needed, Above;
    var path := Components(f.path);
    if path in tree {
      PresentClashes(tree, files, f);
    } else if RegularAbove(tree, path, |path|) {
      var k :| 0 < k < |path| && RegularAt(tree, path[..k]);
      RegularAboveClashes(tree, files, f, k);
    }
    if HasPath(files, f.path) {
      var i :| 0 <= i < |files| && files[i].path == f.path;
      HeldFileIsThere(tree, files[i]);
    }
    if Clashes(files, f) {
      var i :| 0 <= i < |files| && (Above(files[i], f) || Above(f, files[i]));
      ClashingFileBlocks(tree, files[i], f);
    }
  }

  lemma HeldFileIsThere(tree: Tree, f: File)
    requires HoldsFile(tree, f)
    ensures Components(f.path) in tree
  {}

  lemma PresentClashes(tree: Tree, files: seq<File>, f: File)
    requires Holds(tree, files) && Components(f.path) in tree
    ensures HasPath(files, f.path) || Clashes(files, f)
  {
    hide Components, HoldsFile;
    var path := Components(f.path);
    assert Needed(files, path, tree[path]);
    var i :| 0 <= i < |files| && Needs(files[i], path, tree[path]);
    NormalNamesByComponents(files[i].path, f.path);
    assert files[i].path == f.path || Above(f, files[i]);
  }

  lemma RegularAboveClashes(tree: Tree, files: seq<File>, f: File, k: nat)
    requires Holds(tree, files) && 0 < k < |Components(f.path)| && RegularAt(tree, Components(f.path)[..k])
    ensures Clashes(files, f)
  {
    hide Components, HoldsFile;
    var above := Components(f.path)[..k];
    assert Needed(files, above, tree[above]);
    var i :| 0 <= i < |files| && Needs(files[i], above, tree[above]);
    assert Above(files[i], f);
  }

  lemma ClashingFileBlocks(tree: Tree, other: File, f: File)
    requires HoldsFile(tree, other) && (Above(other, f) || Above(f, other))
    ensures Blocked(tree, Components(f.path))
  {
    hide Components;
    var path, taken := Components(f.path), Components(other.path);
    if Above(other, f) {
      assert path[..|taken|] == taken && RegularAt(tree, path[..|taken|]);
    } else {
      assert taken[..|path|] == path;
    }
  }

  ghost predicate Grown(tree: Tree, more: Tree, path: Path) {
    forall p :: (p in more <==> p in tree || p == path || (0 < |p| < |path| && p <= path))
      && (p in more && p != path ==> more[p] == if p in tree then tree[p] else Folder)
  }

  lemma PlacedGrows(tree: Tree, path: Path, node: Node)
    requires path != []
    ensures Grown(tree, Placed(tree, path, node), path)
    ensures path in Placed(tree, path, node) && Placed(tree, path, node)[path] == node
  {
    hide WithFolders;
    forall p: Path
      ensures p in WithFolders(tree, path, |path|) <==> p in tree || (0 < |p| < |path| && p <= path)
      ensures p in WithFolders(tree, path, |path|) ==>
                WithFolders(tree, path, |path|)[p] == if p in tree then tree[p] else Folder
    {
      FoldersAt(tree, path, |path|, p);
    }
  }

  lemma HeldFileStays(tree: Tree, more: Tree, path: Path, f: File)
    requires Grown(tree, more, path) && path !in tree && HoldsFile(tree, f)
    ensures HoldsFile(more, f)
  {
    hide Components;
  }

  lemma NewFileIsHeld(tree: Tree, more: Tree, f: File)
    requires Grown(tree, more, Components(f.path)) && !RegularAbove(tree, Components(f.path), |Components(f.path)|)
    requires Components(f.path) in more && more[Components(f.path)] == Regular(f.content, f.mode)
    ensures HoldsFile(more, f)
  {
    hide Components;
    var path := Components(f.path);
    forall n | 0 < n < |path|
      ensures path[..n] in more && more[path[..n]] == Folder
    {
      assert !RegularAt(tree, path[..n]);
      assert path[..n] <= path && |path[..n]| == n;
    }
  }

  lemma GrownIsNeeded(tree: Tree, more: Tree, files: seq<File>, f: File, p: Path)
    requires forall q :: q in tree ==> Needed(files, q, tree[q])
    requires Grown(tree, more, Components(f.path)) && p in more
    ensures Needed(files + [f], p, more[p])
  {
    hide Components;
    if p in tree && p != Components(f.path) {
      assert Needed(files, p, tree[p]);
      var i :| 0 <= i < |files| && Needs(files[i], p, tree[p]);
      assert (files + [f])[i] == files[i];
    } else {
      assert (files + [f])[|files|] == f && Needs(f, p, more[p]);
    }
  }

  lemma PlacedHolds(tree: Tree, files: seq<File>, f: File)
    requires Holds(tree, files) && !Blocked(tree, Components(f.path))
    ensures Holds(Placed(tree, Components(f.path), Regular(f.content, f.mode)), files + [f])
  {
    hide Components, Placed, HoldsFile, Needed, Grown;
    var path := Components(f.path);
    var more := Placed(tree, path, Regular(f.content, f.mode));
    PlacedGrows(tree, path, Regular(f.content, f.mode));
    forall i | 0 <= i < |files|
      ensures HoldsFile(more, files[i])
    {
      HeldFileStays(tree, more, path, files[i]);
    }
    NewFileIsHeld(tree, more, f);
    forall p | p in more
      ensures Needed(files + [f], p, more[p])
    {
      GrownIsNeeded(tree, more, files, f, p);
    }
  }

  // ----- one member more

  lemma FrameFits(env: Env, at: Reading, m: Member)
    requires at.offset % BLOCK == 0
    ensures ContentFits(env, at, m) <==> at.offset + FrameOf(env, m) <= MAX_EXPANDED_BYTES
    ensures HeaderBytes(env, m) <= FrameOf(env, m)
  {
    hide HeaderBytes, Padded;
  }

  lemma {:induction false} FramesAreBlocks(env: Env, members: seq<Member>)
    ensures FramedSize(env, members) % BLOCK == 0
  {
    hide FrameOf;
    if members != [] {
      FramesAreBlocks(env, members[..|members| - 1]);
    }
  }

  /** What a member adds, given everything before it. */
  predicate Fits(env: Env, before: seq<Member>, m: Member, onDisk: bool) {
    && Readable(env, m)
    && if IsList(m) then ListsIn(before) == []
       else
         var f := Normalized(FileOf(m)).value;
         && |FilesIn(before)| < MAX_FILES && !HasPath(FilesIn(before), f.path)
         && (onDisk ==> !Clashes(FilesIn(before), f) && env.disk(Components(f.path)).None?)
  }

  lemma DistinctWithOneMore(files: seq<File>, f: File)
    ensures DistinctPaths(files + [f]) <==> DistinctPaths(files) && !HasPath(files, f.path)
  {
    var more := files + [f];
    assert more[|files|] == f;
    forall i | 0 <= i < |files|
      ensures more[i] == files[i]
    {}
    if DistinctPaths(more) {
      assert forall i, j :: 0 <= i < j < |files| ==> more[i].path != more[j].path;
      assert forall i :: 0 <= i < |files| ==> more[i].path != more[|files|].path;
    }
  }

  lemma PrefixFreeWithOneMore(files: seq<File>, f: File)
    ensures PrefixFree(files + [f]) <==> PrefixFree(files) && !Clashes(files, f)
  {
    var more := files + [f];
    assert more[|files|] == f;
    forall i | 0 <= i < |files|
      ensures more[i] == files[i]
    {}
    if PrefixFree(more) {
      assert forall i, j :: 0 <= i < |files| && 0 <= j < |files| ==> !Above(more[i], more[j]);
      assert forall i :: 0 <= i < |files| ==> !Above(more[i], more[|files|]) && !Above(more[|files|], more[i]);
    }
  }

  lemma NoneRefusedWithOneMore(env: Env, files: seq<File>, f: File)
    ensures NoneRefused(env, files + [f]) <==> NoneRefused(env, files) && env.disk(Components(f.path)).None?
  {
    hide Components;
    var more := files + [f];
    assert more[|files|] == f;
    assert forall i :: 0 <= i < |files| ==> more[i] == files[i];
    if NoneRefused(env, more) {
      assert forall i :: 0 <= i < |files| ==> env.disk(Components(more[i].path)).None?;
    }
  }

  lemma PartsWithOneMore(env: Env, members: seq<Member>, m: Member, onDisk: bool)
    ensures Parts(env, members + [m], onDisk) <==> Parts(env, members, onDisk) && Fits(env, members, m, onDisk)
  {
    hide Readable, SafeRelPath, Clamp, HasPath, Clashes, DistinctPaths, PrefixFree, NoneRefused, Components;
    var more := members + [m];
    assert more[..|members|] == members;
    assert AllReadable(env, more) <==> AllReadable(env, members) && Readable(env, m) by {
      assert more[|members|] == m;
      assert forall i :: 0 <= i < |members| ==> more[i] == members[i];
      if AllReadable(env, more) {
        assert forall i :: 0 <= i < |members| ==> Readable(env, more[i]);
      }
    }
    if Readable(env, m) && !IsList(m) {
      assert Normalized(FileOf(m)).Some? by {
        ReadableNormalizes(env, m);
      }
      DistinctWithOneMore(FilesIn(members), Normalized(FileOf(m)).value);
      PrefixFreeWithOneMore(FilesIn(members), Normalized(FileOf(m)).value);
      NoneRefusedWithOneMore(env, FilesIn(members), Normalized(FileOf(m)).value);
    }
  }

  lemma ReadableNormalizes(env: Env, m: Member)
    requires Readable(env, m) && !IsList(m)
    ensures Normalized(FileOf(m)).Some?
  {}

  /** What extraction has in hand agrees with what the archive says. */
  predicate Agrees(env: Env, at: Reading, members: seq<Member>, onDisk: bool) {
    && at.files == FilesIn(members) && at.list == ListOf(env, ListsIn(members))
    && at.offset == FramedSize(env, members)
    && at.tree.Some? == onDisk && (onDisk ==> Holds(at.tree.value, at.files))
  }

  lemma TakenExactly(env: Env, at: Reading, members: seq<Member>, m: Member, onDisk: bool)
    requires Agrees(env, at, members, onDisk) && Parts(env, members, onDisk)
    ensures Taken(env, at, m).Ok? <==>
              Fits(env, members, m, onDisk) && FramedSize(env, members + [m]) <= MAX_EXPANDED_BYTES
    ensures Taken(env, at, m).Ok? ==> Agrees(env, Taken(env, at, m).value, members + [m], onDisk)
  {
    hide HeaderBytes, FrameOf, Holds, HasPath, Clashes, Placed, Blocked, SafeRelPath, Clamp, Components,
         PrefixFree, DistinctPaths, NoneRefused;
    var more := members + [m];
    assert more[..|members|] == members && more[|members|] == m;
    FramesAreBlocks(env, members);
    FrameFits(env, at, m);
    if IsList(m) {
      ListsAreReadable(env, members);
    } else if Normalized(FileOf(m)).Some? && onDisk {
      var f := Normalized(FileOf(m)).value;
      BlockedExactly(at.tree.value, at.files, f);
      if !Blocked(at.tree.value, Components(f.path)) {
        PlacedHolds(at.tree.value, at.files, f);
      }
    }
  }

  lemma {:induction false} ListsAreReadable(env: Env, members: seq<Member>)
    requires AllReadable(env, members)
    ensures forall i :: 0 <= i < |ListsIn(members)| ==> env.decodeList(ListsIn(members)[i]).Some?
  {
    if members != [] {
      assert Readable(env, members[|members| - 1]);
      ListsAreReadable(env, members[..|members| - 1]);
    }
  }

  lemma {:induction false} TakenAllExactly(env: Env, members: seq<Member>, onDisk: bool)
    ensures TakenAll(env, members, onDisk).Ok? <==>
              Parts(env, members, onDisk) && FramedSize(env, members) <= MAX_EXPANDED_BYTES
    ensures TakenAll(env, members, onDisk).Ok? ==>
              Agrees(env, TakenAll(env, members, onDisk).value, members, onDisk)
  {
    hide Taken, FrameOf, Fits;
    if members == [] {
    } else {
      hide Parts, Agrees;
      var shorter := members[..|members| - 1];
      var m := members[|members| - 1];
      assert shorter + [m] == members;
      TakenAllExactly(env, shorter, onDisk);
      PartsWithOneMore(env, shorter, m, onDisk);
      if TakenAll(env, shorter, onDisk).Ok? {
        TakenExactly(env, TakenAll(env, shorter, onDisk).value, shorter, m, onDisk);
      }
    }
  }

  // ----- the theorems about extraction

  /** Extraction accepts exactly the acceptable archives, and returns what they say. */
  lemma ExtractsExactly(env: Env, archive: Archive, onDisk: bool)
    ensures Extracted(env, archive, onDisk).Ok? <==> Acceptable(env, archive, onDisk)
    ensures Extracted(env, archive, onDisk).Ok? ==>
              Agrees(env, Extracted(env, archive, onDisk).value, archive.members, onDisk)
  {
    hide TakenAll, Parts, FilesIn, ListsIn, FramedSize, EntriesOf, Holds;
    TakenAllExactly(env, archive.members, onDisk);
    if Parts(env, archive.members, onDisk) {
      PartsListsAreReadable(env, archive.members, onDisk);
    }
  }

  lemma PartsListsAreReadable(env: Env, members: seq<Member>, onDisk: bool)
    requires Parts(env, members, onDisk)
    ensures ListsIn(members) != [] ==> ListOf(env, ListsIn(members)).Some?
  {
    ListsAreReadable(env, members);
  }

  /** A file as a restore may produce it: a normal path, owner-only mode, bounded size. */
  predicate Restorable(f: File) {
    && AllProper(Components(f.path)) && SafeRelPath(f.path) == Some(f.path)
    && f.path != RESERVED_FILE_LIST
    && f.mode != 0 && 0 <= f.mode < 512 && f.mode % 64 == 0
    && |f.content| <= MAX_FILE_BYTES
  }

  lemma {:induction false} FilesAreRestorable(env: Env, members: seq<Member>)
    requires AllReadable(env, members)
    ensures forall i :: 0 <= i < |FilesIn(members)| ==> Restorable(FilesIn(members)[i])
  {
    hide Components, SafeRelPath, Clamp;
    if members != [] {
      var m := members[|members| - 1];
      assert Readable(env, m);
      FilesAreRestorable(env, members[..|members| - 1]);
      if !IsList(m) {
        AcceptedNamesAreNormal(m.name);
      }
    }
  }

  /** Whatever the archive: success leaves at most MAX_FILES restorable files with distinct
      paths, a list only if it is the one the files themselves give, and a target holding
      exactly those files. */
  lemma ExtractedIsSafe(env: Env, archive: Archive, onDisk: bool)
    requires Extracted(env, archive, onDisk).Ok?
    ensures
      var at := Extracted(env, archive, onDisk).value;
      && |at.files| <= MAX_FILES && DistinctPaths(at.files)
      && (forall i :: 0 <= i < |at.files| ==> Restorable(at.files[i]))
      && (at.list.Some? ==> at.list.value == EntriesOf(env, at.files))
      && at.tree.Some? == onDisk
      && (onDisk ==> PrefixFree(at.files) && Holds(at.tree.value, at.files))
  {
    hide TakenAll, FilesIn, ListsIn, FramedSize, EntriesOf, Holds, Restorable, AllReadable;
    ExtractsExactly(env, archive, onDisk);
    FilesAreRestorable(env, archive.members);
  }

  // ----- building and extracting again

  predicate Admissible(f: File) {
    SafeRelPath(f.path).Some? && |f.content| <= MAX_FILE_BYTES
  }

  predicate AllAdmissible(files: seq<File>) {
    forall i :: 0 <= i < |files| ==> Admissible(files[i])
  }

  /** The files as they will be restored. */
  function Restored(files: seq<File>): (done: seq<File>)
    requires AllAdmissible(files)
    ensures |done| == |files|
  {
    seq(|files|, i requires 0 <= i < |files| => Normalized(files[i]).value)
  }

  lemma {:induction false} NormalizedExactly(files: seq<File>, n: nat)
    requires n <= |files|
    ensures NormalizedUpTo(files, n).Ok? <==>
              && AllAdmissible(files[..n])
              && DistinctPaths(Restored(files[..n])) && TotalBytes(Restored(files[..n])) <= MAX_EXPANDED_BYTES
    ensures NormalizedUpTo(files, n).Ok? ==> NormalizedUpTo(files, n).value == Restored(files[..n])
  {
    hide SafeRelPath, Clamp, HasPath, DistinctPaths;
    if n > 0 {
      var before := files[..n - 1];
      var f := files[n - 1];
      NormalizedExactly(files, n - 1);
      assert files[..n] == before + [f] && (before + [f])[n - 1] == f;
      assert AllAdmissible(before + [f]) <==> AllAdmissible(before) && Admissible(f) by {
        assert forall i :: 0 <= i < n - 1 ==> (before + [f])[i] == before[i];
      }
      if AllAdmissible(before + [f]) {
        var done := Restored(before);
        var g := Normalized(f).value;
        assert Restored(before + [f]) == done + [g];
        assert (done + [g])[..n - 1] == done;
        DistinctWithOneMore(done, g);
      }
    } else {
      assert files[..0] == [];
      assert DistinctPaths([]) by {
        EmptyIsDistinct();
      }
    }
  }

  lemma EmptyIsDistinct()
    ensures DistinctPaths([])
  {}

  /** Which file lists can be sealed. */
  lemma BuiltExactly(env: Env, files: seq<File>)
    ensures Built(env, files).Ok? <==>
              && |files| <= MAX_FILES && AllAdmissible(files) && DistinctPaths(Restored(files))
              && |env.encodeList(EntriesOf(env, Restored(files)))| <= MAX_FILE_LIST_BYTES
              && TotalBytes(Restored(files)) + |env.encodeList(EntriesOf(env, Restored(files)))| <= MAX_EXPANDED_BYTES
    ensures Built(env, files).Ok? ==> WithList(env, Restored(files)) == Built(env, files)
  {
    hide NormalizedUpTo, AllAdmissible, DistinctPaths, TotalBytes, EntriesOf, MembersOf, Restored;
    NormalizedExactly(files, |files|);
    assert files[..|files|] == files;
  }

  /** A file a restore gives back just as it is. */
  predicate Settled(f: File) {
    Restorable(f) && Normalized(f) == Some(f)
  }

  lemma RestoredIsSettled(f: File)
    requires Admissible(f)
    ensures Settled(Normalized(f).value)
  {
    hide SafeRelPath, Components, Clamp;
    AcceptedNamesAreNormal(f.path);
    ClampAgain(f.mode);
  }

  lemma {:induction false} MembersSay(env: Env, done: seq<File>)
    requires forall i :: 0 <= i < |done| ==> Settled(done[i])
    ensures AllReadable(env, MembersOf(done)) && FilesIn(MembersOf(done)) == done && ListsIn(MembersOf(done)) == []
  {
    hide SafeRelPath, Components, Clamp, Normalized;
    if done != [] {
      var before := done[..|done| - 1];
      var f := done[|done| - 1];
      assert MembersOf(done)[..|done| - 1] == MembersOf(before);
      MembersSay(env, before);
      assert Settled(f) && FileOf(MembersOf(done)[|done| - 1]) == f;
      forall i | 0 <= i < |done|
        ensures Readable(env, MembersOf(done)[i])
      {
        assert Settled(done[i]);
      }
      assert before + [f] == done;
    }
  }

  /** What sealing built says what was sealed. */
  lemma ArchiveSays(env: Env, done: seq<File>)
    requires forall i :: 0 <= i < |done| ==> Settled(done[i])
    ensures
      var members := MembersOf(done) + [ListMember(env, done)];
      && FilesIn(members) == done && ListsIn(members) == [env.encodeList(EntriesOf(env, done))]
      && (AllReadable(env, members) <==> Readable(env, ListMember(env, done)))
  {
    hide MembersOf, EntriesOf, Readable, Settled;
    var members := MembersOf(done) + [ListMember(env, done)];
    MembersSay(env, done);
    assert members[..|done|] == MembersOf(done) && members[|done|] == ListMember(env, done);
    assert forall i :: 0 <= i < |done| ==> members[i] == MembersOf(done)[i];
  }

  /** What was sealed comes back, exactly when the framed archive fits the budget, the list
      survives its encoding and, on disk, no file's path is a directory of another's or one
      the file system refuses. */
  lemma SealedFilesComeBack(env: Env, files: seq<File>, onDisk: bool)
    requires Built(env, files).Ok?
    ensures AllAdmissible(files)
    ensures Built(env, files).value.1 == EntriesOf(env, Restored(files))
    ensures
      var (archive, entries) := Built(env, files).value;
      Extracted(env, archive, onDisk).Ok? <==>
        && FramedSize(env, archive.members) + TRAILER_BYTES <= MAX_EXPANDED_BYTES
        && env.decodeList(env.encodeList(entries)) == Some(entries)
        && (onDisk ==> PrefixFree(Restored(files)) && NoneRefused(env, Restored(files)))
    ensures
      var (archive, entries) := Built(env, files).value;
      Extracted(env, archive, onDisk).Ok? ==>
        var at := Extracted(env, archive, onDisk).value;
        && at.files == Restored(files) && at.list == Some(entries)
        && at.tree.Some? == onDisk && (onDisk ==> Holds(at.tree.value, Restored(files)))
  {
    hide Extracted, Built, AllAdmissible, PrefixFree, NoneRefused, DistinctPaths, Holds, FramedSize, FilesIn,
         ListsIn,
         TotalBytes, EntriesOf, AllReadable, MembersOf, Settled;
    BuiltExactly(env, files);
    var done := Restored(files);
    forall i | 0 <= i < |done|
      ensures Settled(done[i])
    {
      AdmissibleAt(files, i);
      RestoredIsSettled(files[i]);
    }
    ArchiveSays(env, done);
    ExtractsExactly(env, Built(env, files).value.0, onDisk);
  }

  lemma AdmissibleAt(files: seq<File>, i: nat)
    requires AllAdmissible(files) && i < |files|
    ensures Admissible(files[i]) && Restored(files)[i] == Normalized(files[i]).value
  {}

  // ----- the budgets differ

  /** Three files of the largest size and one a kilobyte short of it. */
  function LargeFiles(): (files: seq<File>)
    ensures |files| == 4
  {
    [Large("a", MAX_FILE_BYTES), Large("b", MAX_FILE_BYTES), Large("c", MAX_FILE_BYTES),
     Large("d", MAX_FILE_BYTES - 1024)]
  }

  function Large(path: string, size: nat): (f: File)
    ensures |f.content| == size && f.path == path && f.mode == 384
  {
    File(path, seq(size, _ => 0), 384)
  }

  lemma OneLetterIsNormal(c: char)
    requires c != '/' && c != '\0' && c != '\\' && c != '.'
    ensures SafeRelPath([c]) == Some([c])
  {
    SplitOfPart([c], '/');
    assert [[c]][1..] == [];
    assert Fold([[c]], []) == [[c]];
  }

  /** Sealing counts contents and list only: whatever the header sizes, these files are
      sealed when their list takes at most a kilobyte, and cannot be opened again. */
  lemma SealedButNeverOpened(env: Env, onDisk: bool)
    requires |env.encodeList(EntriesOf(env, LargeFiles()))| <= 1024
    ensures Built(env, LargeFiles()).Ok?
    ensures Extracted(env, Built(env, LargeFiles()).value.0, onDisk).Err?
  {
    hide Extracted, Built, SafeRelPath, PrefixFree, NoneRefused, EntriesOf, FrameOf, HeaderBytes, Large;
    var files := LargeFiles();
    OneLetterIsNormal('a');
    OneLetterIsNormal('b');
    OneLetterIsNormal('c');
    OneLetterIsNormal('d');
    assert Restored(files) == files;
    BytesOfFour(files);
    BuiltExactly(env, files);
    SealedFilesComeBack(env, files, onDisk);
    FramesOfFive(env, MembersOf(files) + [ListMember(env, files)]);
  }

  lemma BytesOfFour(files: seq<File>)
    requires |files| == 4
    ensures TotalBytes(files) == |files[0].content| + |files[1].content| + |files[2].content| + |files[3].content|
  {
    assert files[..3][..2] == files[..2] && files[..2][..1] == files[..1] && files[..1][..0] == [];
    assert TotalBytes(files[..1]) == |files[0].content|;
    assert TotalBytes(files[..2]) == |files[0].content| + |files[1].content|;
    assert TotalBytes(files[..3]) == |files[0].content| + |files[1].content| + |files[2].content|;
  }

  lemma FramesOfFive(env: Env, members: seq<Member>)
    requires |members| == 5
    ensures FramedSize(env, members) >= 5 * BLOCK + Stored(members[0]) + Stored(members[1])
                                        + Stored(members[2]) + Stored(members[3]) + Stored(members[4])
  {
    hide FrameOf;
    var four, three, two, one := members[..4], members[..3], members[..2], members[..1];
    assert four[..3] == three && three[..2] == two && two[..1] == one && one[..0] == [];
    assert FramedSize(env, one) == FrameOf(env, members[0]);
    assert FramedSize(env, two) == FramedSize(env, one) + FrameOf(env, members[1]);
    assert FramedSize(env, three) == FramedSize(env, two) + FrameOf(env, members[2]);
    assert FramedSize(env, four) == FramedSize(env, three) + FrameOf(env, members[3]);
  }
}
