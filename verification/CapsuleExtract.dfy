/** Unpacking a capsule's payload: any archive at all, into memory or onto an empty
    directory. */
module CapsuleExtract {
  import opened Wrappers
  import opened Text
  import opened CapsulePath
  import opened Capsule

  datatype Node = Folder | Regular(content: Bytes, mode: int)

  type Tree = map<Path, Node>

  /** How far extraction has come: the files, the list once it was seen, the bytes consumed,
      and the target's tree when there is a target. */
  datatype Reading = Reading(files: seq<File>, list: Option<seq<FileEntry>>, offset: nat, tree: Option<Tree>)

  // ----- the target directory

  /** Whether a path cannot be created: it is there, or a file stands where a directory is
      needed. */
  predicate Blocked(tree: Tree, path: Path) {
    path in tree || RegularAbove(tree, path, |path|)
  }

  predicate RegularAbove(tree: Tree, path: Path, n: nat)
    requires n <= |path|
  {
    exists k :: 0 < k < n && RegularAt(tree, path[..k])
  }

  predicate RegularAt(tree: Tree, path: Path) {
    path in tree && tree[path].Regular?
  }

  /** The directories above a path, down to depth n, made where they are missing. */
  function WithFolders(tree: Tree, path: Path, n: nat): (t: Tree)
    requires n <= |path|
  {
    if n <= 1 then tree
    else
      var above := WithFolders(tree, path, n - 1);
      if path[..n - 1] in above then above else above[path[..n - 1] := Folder]
  }

  function Placed(tree: Tree, path: Path, node: Node): Tree {
    WithFolders(tree, path, |path|)[path := node]
  }

  lemma {:induction false} FoldersAt(tree: Tree, path: Path, n: nat, p: Path)
    requires n <= |path|
    ensures p in WithFolders(tree, path, n) <==> p in tree || (0 < |p| < n && p <= path)
    ensures p in WithFolders(tree, path, n) ==> WithFolders(tree, path, n)[p] == if p in tree then tree[p] else Folder
  {
    if n > 1 {
      FoldersAt(tree, path, n - 1, p);
      FoldersAt(tree, path, n - 1, path[..n - 1]);
      assert 0 < |p| < n && p <= path ==> |p| < n - 1 || p == path[..n - 1];
    }
  }

  /** Whatever is in a directory is under one of its own entries. */
  ghost predicate Rooted(tree: Tree) {
    forall p :: p in tree ==> p != [] && p[..1] in tree
  }

  class Target {
    var present: bool
    var tree: Tree

    ghost predicate Valid()
      reads this
    {
      Rooted(tree) && (!present ==> tree == map[])
    }

    constructor (present: bool, tree: Tree)
      requires Rooted(tree) && (!present ==> tree == map[])
      ensures this.present == present && this.tree == tree && Valid()
    {
      this.present := present;
      this.tree := tree;
    }

    /** An absent directory is made; one that holds anything is refused. */
    method Prepare() returns (ok: bool, created: bool)
      requires Valid()
      modifies this
      ensures Valid()
      ensures ok == (old(tree) == map[])
      ensures created == (ok && !old(present))
      ensures tree == old(tree) && present == (old(present) || ok)
    {
      if tree != map[] {
        return false, false;
      }
      created := !present;
      present := true;
      return true, created;
    }

    /** Creates one file, and the directories above it. A failure may leave some of those, and
        part of the file. */
    method WriteInto(path: Path, content: Bytes, mode: int, fault: Option<DiskFault>) returns (ok: bool)
      requires path != [] && Rooted(tree)
      modifies this`tree
      ensures Rooted(tree)
      ensures ok == (!Blocked(old(tree), path) && fault.None?)
      ensures ok ==> tree == Placed(old(tree), path, Regular(content, mode))
    {
      hide Rooted;
      for n := 1 to |path|
        invariant tree == WithFolders(old(tree), path, n)
        invariant !RegularAbove(old(tree), path, n)
        invariant Rooted(tree) && (n > 1 ==> path[..1] in tree)
      {
        FoldersAt(old(tree), path, n, path[..n]);
        if fault == Some(FolderFails(n)) {
          return false;
        }
        assert path[..n][..1] == path[..1];
        StaysRooted(tree, path[..n], Folder);
        if path[..n] !in tree {
          tree := tree[path[..n] := Folder];
        } else if tree[path[..n]].Regular? {
          assert RegularAt(old(tree), path[..n]);
          return false;
        }
      }
      FoldersAt(old(tree), path, |path|, path);
      if path in tree {
        return false;
      }
      assert path[..1] == path || path[..1] in tree;
      if fault.None? {
        StaysRooted(tree, path, Regular(content, mode));
        tree := tree[path := Regular(content, mode)];
        return true;
      }
      if fault.value.WriteFails? {
        var part := if fault.value.written < |content| then content[..fault.value.written] else content;
        StaysRooted(tree, path, Regular(part, mode));
        tree := tree[path := Regular(part, mode)];
      }
      return false;
    }

    /** Back to the empty or absent state extraction started from: the directory goes whole if
        this extraction made it, and otherwise entry by entry. */
    method Rollback(created: bool)
      requires Rooted(tree)
      modifies this
      ensures tree == map[] && present == (old(present) && !created)
    {
      if created {
        tree := map[];
        present := false;
        return;
      }
      var names := set p | p in tree && |p| == 1 :: p[0];
      forall p | p in tree
        ensures p != [] && p[0] in names
      {
        assert p[..1] in tree && |p[..1]| == 1 && p[..1][0] == p[0];
      }
      while names != {}
        invariant present == old(present)
        invariant forall p :: p in tree ==> p != [] && p[0] in names
        decreases |names|
      {
        var name :| name in names;
        tree := map p | p in tree && !([name] <= p) :: tree[p];
        names := names - {name};
      }
    }
  }

  lemma EmptyIsRooted()
    ensures Rooted(map[])
  {}

  lemma StaysRooted(tree: Tree, path: Path, node: Node)
    requires Rooted(tree) && path != [] && (path[..1] == path || path[..1] in tree)
    ensures Rooted(tree[path := node])
  {}

  ghost function TreeOf(target: Target?): Option<Tree>
    reads target
  {
    if target == null then None else Some(target.tree)
  }

  /** Counts what the archive expands to. */
  class CountingReader {
    var seen: nat

    constructor ()
      ensures seen == 0
    {
      seen := 0;
    }

    method Read(n: nat) returns (ok: bool)
      modifies this
      ensures seen == old(seen) + n && ok == (seen <= MAX_EXPANDED_BYTES)
    {
      seen := seen + n;
      return seen <= MAX_EXPANDED_BYTES;
    }
  }

  // ----- one member

  predicate IsList(m: Member) {
    m.name == RESERVED_FILE_LIST
  }

  function FileOf(m: Member): File {
    File(m.name, m.content, m.mode)
  }

  predicate ContentFits(env: Env, at: Reading, m: Member) {
    at.offset + HeaderBytes(env, m) + Stored(m) <= MAX_EXPANDED_BYTES
  }

  function TakenList(env: Env, at: Reading, m: Member): Result<Reading, Error> {
    if at.list.Some? then Err(DuplicatePath)
    else if !ContentFits(env, at, m) then Err(TooLarge)
    else if |m.content| > MAX_FILE_LIST_BYTES then Err(TooLarge)
    else if env.decodeList(m.content).None? then Err(Corrupt)
    else Ok(at.(list := env.decodeList(m.content), offset := at.offset + FrameOf(env, m)))
  }

  function TakenFile(env: Env, at: Reading, m: Member): Result<Reading, Error> {
    if |at.files| >= MAX_FILES then Err(TooLarge)
    else if |m.content| > MAX_FILE_BYTES then Err(TooLarge)
    else
      match Normalized(FileOf(m))
      case None => Err(PathTraversal)
      case Some(f) =>
        if HasPath(at.files, f.path) then Err(DuplicatePath)
        else if !ContentFits(env, at, m) then Err(TooLarge)
        else if at.tree.Some? && Refused(env, at.tree.value, Components(f.path)) then Err(FileFailed)
        else Ok(Reading(at.files + [f], at.list, at.offset + FrameOf(env, m), TreeWith(at.tree, f)))
  }

  /** The tree or the file system does not let this path be created. */
  predicate Refused(env: Env, tree: Tree, path: Path) {
    Blocked(tree, path) || env.disk(path).Some?
  }

  function TreeWith(tree: Option<Tree>, f: File): Option<Tree> {
    match tree
    case None => None
    case Some(t) => Some(Placed(t, Components(f.path), Regular(f.content, f.mode)))
  }

  function Taken(env: Env, at: Reading, m: Member): Result<Reading, Error> {
    if at.offset + HeaderBytes(env, m) > MAX_EXPANDED_BYTES then Err(TooLarge)
    else if !m.regular then Err(EntryType)
    else if IsList(m) then TakenList(env, at, m)
    else TakenFile(env, at, m)
  }

  function Start(onDisk: bool): Reading {
    Reading([], None, 0, if onDisk then Some(map[]) else None)
  }

  function TakenAll(env: Env, members: seq<Member>, onDisk: bool): Result<Reading, Error> {
    if members == [] then Ok(Start(onDisk))
    else
      match TakenAll(env, members[..|members| - 1], onDisk)
      case Err(e) => Err(e)
      case Ok(at) => Taken(env, at, members[|members| - 1])
  }

  /** The reader stops after the two zero blocks that close an archive. */
  function TrailerRead(archive: Archive): (n: nat)
    ensures n <= TRAILER_BYTES
  {
    if archive.trailer <= TRAILER_BYTES then archive.trailer else TRAILER_BYTES
  }

  /** The end of the archive: the budget once more, and the list against the files. */
  function Finished(env: Env, at: Reading, archive: Archive): Result<Reading, Error> {
    if at.offset + TrailerRead(archive) > MAX_EXPANDED_BYTES then Err(TooLarge)
    else if !archive.intact then Err(Unreadable)
    else if at.list.Some? && at.list.value != EntriesOf(env, at.files) then Err(Corrupt)
    else Ok(at)
  }

  function Extracted(env: Env, archive: Archive, onDisk: bool): Result<Reading, Error> {
    match TakenAll(env, archive.members, onDisk)
    case Err(e) => Err(e)
    case Ok(at) => Finished(env, at, archive)
  }

  // ----- the loop

  /** One file: its checks, its content, its place in the target. */
  method TakeFile(env: Env, m: Member, ghost at: Reading, files: seq<File>, seen: set<string>,
                  budget: CountingReader, target: Target?)
    returns (r: Result<File, Error>)
    requires at.files == files && TreeOf(target) == at.tree && (target != null ==> Rooted(target.tree))
    requires budget.seen == at.offset + HeaderBytes(env, m)
    requires forall path :: path in seen <==> HasPath(files, path)
    modifies budget, target
    ensures target != null ==> target.present == old(target.present) && Rooted(target.tree)
    ensures r.Err? ==> TakenFile(env, at, m) == Err(r.error)
    ensures r.Ok? ==> TakenFile(env, at, m) == Ok(Reading(files + [r.value], at.list, budget.seen, TreeOf(target)))
  {
    hide Clamp, SafeRelPath, HasPath, Blocked, Placed, Components, Rooted;
    if |files| >= MAX_FILES {
      return Err(TooLarge);
    }
    if |m.content| > MAX_FILE_BYTES {
      return Err(TooLarge);
    }
    var name := SafeRelPath(m.name);
    if name.None? {
      return Err(PathTraversal);
    }
    if name.value in seen {
      return Err(DuplicatePath);
    }
    var ok := budget.Read(Stored(m));
    if !ok {
      return Err(TooLarge);
    }
    var f := File(name.value, m.content, Clamp(m.mode));
    if target != null {
      ok := target.WriteInto(Components(f.path), f.content, f.mode, env.disk(Components(f.path)));
      if !ok {
        return Err(FileFailed);
      }
    }
    // The budget is whole blocks, so padding never passes it alone.
    ok := budget.Read(Padded(Stored(m)) - Stored(m));
    return Ok(f);
  }

  method ReadFileList(env: Env, m: Member, ghost at: Reading, haveList: bool, budget: CountingReader)
    returns (r: Result<seq<FileEntry>, Error>)
    requires haveList == at.list.Some? && budget.seen == at.offset + HeaderBytes(env, m)
    modifies budget
    ensures r.Err? ==> TakenList(env, at, m) == Err(r.error)
    ensures r.Ok? ==> TakenList(env, at, m) == Ok(at.(list := Some(r.value), offset := budget.seen))
  {
    if haveList {
      return Err(DuplicatePath);
    }
    var ok := budget.Read(Stored(m));
    if !ok || |m.content| > MAX_FILE_LIST_BYTES {
      return Err(TooLarge);
    }
    var entries := env.decodeList(m.content);
    if entries.None? {
      return Err(Corrupt);
    }
    ok := budget.Read(Padded(Stored(m)) - Stored(m));
    return Ok(entries.value);
  }

  /** The files and the list of an archive, written into the target as they are read. */
  method Unpack(env: Env, archive: Archive, target: Target?)
    returns (r: Result<(seq<File>, Option<seq<FileEntry>>), Error>)
    requires target != null ==> target.tree == map[]
    modifies target
    ensures target != null ==> target.present == old(target.present) && Rooted(target.tree)
    ensures r.Err? ==> Extracted(env, archive, target != null) == Err(r.error)
    ensures r.Ok? ==>
              && Extracted(env, archive, target != null).Ok?
              && var at := Extracted(env, archive, target != null).value;
              && r.value == (at.files, at.list) && at.tree == TreeOf(target)
  {
    hide TakenFile, TakenList, HasPath, EntriesOf, HeaderBytes, FrameOf, Rooted, Stored;
    assert target != null ==> Rooted(target.tree) by {
      EmptyIsRooted();
    }
    var budget := new CountingReader();
    var files: seq<File> := [];
    var list: Option<seq<FileEntry>> := None;
    var seen: set<string> := {};
    var members := archive.members;
    NothingYet(env);
    for i := 0 to |members|
      invariant fresh(budget) && (target != null ==> target.present == old(target.present) && Rooted(target.tree))
      invariant TakenAll(env, members[..i], target != null) == Ok(Reading(files, list, budget.seen, TreeOf(target)))
      invariant forall path :: path in seen <==> HasPath(files, path)
    {
      var m := members[i];
      ghost var at := Reading(files, list, budget.seen, TreeOf(target));
      assert members[..i + 1][..i] == members[..i];
      FaultStays(env, members, i + 1, target != null);
      var ok := budget.Read(HeaderBytes(env, m));
      if !ok {
        return Err(TooLarge);
      }
      if !m.regular {
        return Err(EntryType);
      }
      if m.name == RESERVED_FILE_LIST {
        var entries := ReadFileList(env, m, at, list.Some?, budget);
        if entries.Err? {
          return Err(entries.error);
        }
        list := Some(entries.value);
      } else {
        var f := TakeFile(env, m, at, files, seen, budget, target);
        if f.Err? {
          return Err(f.error);
        }
        OneMorePath(files, f.value);
        seen := seen + {f.value.path};
        files := files + [f.value];
      }
    }
    assert members[..|members|] == members;
    var ok := budget.Read(TrailerRead(archive));
    if !ok {
      return Err(TooLarge);
    }
    if !archive.intact {
      return Err(Unreadable);
    }
    if list.Some? {
      ok := ReconcileFileList(env, list.value, files);
      if !ok {
        return Err(Corrupt);
      }
    }
    return Ok((files, list));
  }

  /** One entry a file, in order, every field equal. */
  method ReconcileFileList(env: Env, entries: seq<FileEntry>, files: seq<File>) returns (ok: bool)
    ensures ok == (entries == EntriesOf(env, files))
  {
    hide EntryOf;
    if |entries| != |files| {
      return false;
    }
    for i := 0 to |files|
      invariant entries[..i] == EntriesOf(env, files)[..i]
    {
      if entries[i] != EntryOf(env, files[i]) {
        assert entries[i] != EntriesOf(env, files)[i];
        return false;
      }
    }
    assert entries[..|files|] == entries && EntriesOf(env, files)[..|files|] == EntriesOf(env, files);
    return true;
  }

  /** A failure after the target was prepared, of the archive or of a write, leaves the target
      as it was: empty, or absent. */
  method ExtractPayload(env: Env, archive: Archive, target: Target?)
    returns (r: Result<(seq<File>, seq<FileEntry>), Error>)
    requires target != null ==> target.Valid()
    modifies target
    ensures target != null ==> target.Valid()
    ensures target != null && old(target.tree) != map[] ==>
              r == Err(TargetNotEmpty) && target.tree == old(target.tree) && target.present == old(target.present)
    ensures (target != null ==> old(target.tree) == map[]) ==>
              match Extracted(env, archive, target != null)
              case Err(e) =>
                && r == Err(e)
                && (target != null ==> target.tree == map[] && target.present == old(target.present))
              case Ok(at) =>
                && r == Ok((at.files, if at.list.Some? then at.list.value else []))
                && at.tree == TreeOf(target)
                && (target != null ==> target.present)
  {
    hide Extracted;
    var created := false;
    if target != null {
      var ok;
      ok, created := target.Prepare();
      if !ok {
        return Err(TargetNotEmpty);
      }
    }
    var unpacked := Unpack(env, archive, target);
    if unpacked.Err? {
      if target != null {
        target.Rollback(created);
      }
      return Err(unpacked.error);
    }
    var (files, list) := unpacked.value;
    return Ok((files, if list.Some? then list.value else []));
  }

  lemma {:induction false} FaultStays(env: Env, members: seq<Member>, m: nat, onDisk: bool)
    requires m <= |members|
    ensures TakenAll(env, members[..m], onDisk).Err? ==>
              TakenAll(env, members, onDisk) == TakenAll(env, members[..m], onDisk)
  {
    if m < |members| {
      var shorter := members[..|members| - 1];
      assert shorter[..m] == members[..m];
      FaultStays(env, shorter, m, onDisk);
    } else {
      assert members[..m] == members;
    }
  }
}
