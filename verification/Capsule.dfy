/** A capsule's payload: files, the archive that sealing builds from them, and how many bytes
    its stream takes. Gzip is taken to be lossless; header sizes, the list's JSON encoding
    and SHA-256 are parameters. */
module Capsule {
  import opened Wrappers
  import opened Text
  import opened CapsulePath

  type Bytes = seq<Octet>
  type Digest = d: seq<Octet> | |d| == 32 witness seq(32, _ => 0)

  const MAX_FILES := 4096
  const MAX_FILE_BYTES := 0x400_0000
  const MAX_EXPANDED_BYTES := 0x1000_0000
  const MAX_FILE_LIST_BYTES := 0x10_0000
  const TRAILER_BYTES := 1024

  datatype File = File(path: string, content: Bytes, mode: int)

  datatype FileEntry = FileEntry(path: string, size: nat, sum: string, mode: int)

  /** One archive member: a regular file or anything else. A sparse file's holes are bytes of
      its content that the archive reader fills in without reading them from the stream. */
  datatype Member = Member(name: string, regular: bool, mode: int, content: Bytes, holes: nat)

  /** How much of a member's content is in the stream. */
  function Stored(m: Member): (n: nat)
    ensures n <= |m.content|
  {
    if m.holes <= |m.content| then |m.content| - m.holes else 0
  }

  /** The uncompressed stream: its members, how many bytes follow the last, and whether what
      is read of it can be read. */
  datatype Archive = Archive(members: seq<Member>, trailer: nat, intact: bool)

  /** How many blocks a member's header takes beyond its first, SHA-256, the list's two codecs,
      and which paths the target's file system refuses. */
  datatype Env = Env(
    extraBlocks: Member -> nat,
    sha: Bytes -> Digest,
    encodeList: seq<FileEntry> -> Bytes,
    decodeList: Bytes -> Option<seq<FileEntry>>,
    disk: Path -> Option<DiskFault>)

  /** How the file system refuses to create a file: a directory above it, the file itself, or
      a write that leaves only so many bytes. */
  datatype DiskFault = FolderFails(depth: nat) | OpenFails | WriteFails(written: nat)

  datatype Error =
    | PathTraversal
    | TooLarge
    | EntryType
    | TargetNotEmpty
    | DuplicatePath
    | Corrupt
    | Unreadable
    | FileFailed

  // ----- modes, digests and framing

  /** The owner's three permission bits, or owner read-write when there are none. */
  function Clamp(mode: int): (m: int)
    ensures m != 0 && 0 <= m < 512 && m % 64 == 0
  {
    var owner := mode / 64 % 8 * 64;
    if owner == 0 then 384 else owner
  }

  lemma ClampAgain(mode: int)
    ensures Clamp(Clamp(mode)) == Clamp(mode)
  {}

  function EntryOf(env: Env, f: File): FileEntry {
    FileEntry(f.path, |f.content|, EncodeHex(env.sha(f.content)), f.mode)
  }

  function EntriesOf(env: Env, files: seq<File>): (entries: seq<FileEntry>)
    ensures |entries| == |files|
  {
    seq(|files|, i requires 0 <= i < |files| => EntryOf(env, files[i]))
  }

  const BLOCK := 512

  /** Contents are padded to whole blocks. */
  function Padded(n: nat): (p: nat)
    ensures n <= p < n + BLOCK && p % BLOCK == 0
  {
    (n + BLOCK - 1) / BLOCK * BLOCK
  }

  function HeaderBytes(env: Env, m: Member): (n: nat)
    ensures n >= BLOCK && n % BLOCK == 0
  {
    BLOCK * (1 + env.extraBlocks(m))
  }

  function FrameOf(env: Env, m: Member): (n: nat)
    ensures n % BLOCK == 0 && n >= BLOCK + Stored(m)
  {
    HeaderBytes(env, m) + Padded(Stored(m))
  }

  function FramedSize(env: Env, members: seq<Member>): nat {
    if members == [] then 0 else FramedSize(env, members[..|members| - 1]) + FrameOf(env, members[|members| - 1])
  }

  // ----- building

  function MemberOf(f: File): Member {
    Member(f.path, true, f.mode, f.content, 0)
  }

  function MembersOf(files: seq<File>): (members: seq<Member>)
    ensures |members| == |files|
  {
    seq(|files|, i requires 0 <= i < |files| => MemberOf(files[i]))
  }

  /** A file as it will be restored: the cleaned path and the clamped mode. */
  function Normalized(f: File): Option<File> {
    match SafeRelPath(f.path)
    case None => None
    case Some(name) => Some(File(name, f.content, Clamp(f.mode)))
  }

  predicate HasPath(files: seq<File>, path: string) {
    exists i :: 0 <= i < |files| && files[i].path == path
  }

  function TotalBytes(files: seq<File>): nat {
    if files == [] then 0 else TotalBytes(files[..|files| - 1]) + |files[|files| - 1].content|
  }

  /** One file more, or what it is refused for. */
  function Admitted(done: seq<File>, file: File): Result<File, Error> {
    match Normalized(file)
    case None => Err(PathTraversal)
    case Some(f) =>
      if HasPath(done, f.path) then Err(DuplicatePath)
      else if |f.content| > MAX_FILE_BYTES then Err(TooLarge)
      else if TotalBytes(done) + |f.content| > MAX_EXPANDED_BYTES then Err(TooLarge)
      else Ok(f)
  }

  /** The files before position n as they will be restored, or the first fault among them. */
  function NormalizedUpTo(files: seq<File>, n: nat): Result<seq<File>, Error>
    requires n <= |files|
  {
    if n == 0 then Ok([])
    else
      match NormalizedUpTo(files, n - 1)
      case Err(e) => Err(e)
      case Ok(done) =>
        match Admitted(done, files[n - 1])
        case Err(e) => Err(e)
        case Ok(f) => Ok(done + [f])
  }

  function ListMember(env: Env, files: seq<File>): Member {
    Member(RESERVED_FILE_LIST, true, 384, env.encodeList(EntriesOf(env, files)), 0)
  }

  /** The archive of these files with their list after them, if both fit. */
  function WithList(env: Env, done: seq<File>): Result<(Archive, seq<FileEntry>), Error> {
    var list := ListMember(env, done);
    if |list.content| > MAX_FILE_LIST_BYTES then Err(TooLarge)
    else if TotalBytes(done) + |list.content| > MAX_EXPANDED_BYTES then Err(TooLarge)
    else Ok((Archive(MembersOf(done) + [list], TRAILER_BYTES, true), EntriesOf(env, done)))
  }

  function Built(env: Env, files: seq<File>): Result<(Archive, seq<FileEntry>), Error> {
    if |files| > MAX_FILES then Err(TooLarge)
    else
      match NormalizedUpTo(files, |files|)
      case Err(e) => Err(e)
      case Ok(done) => WithList(env, done)
  }

  method BuildPayload(env: Env, files: seq<File>) returns (r: Result<(Archive, seq<FileEntry>), Error>)
    ensures r == Built(env, files)
  {
    hide Admitted, EntryOf, HasPath, WithList, TotalBytes, EntriesOf, MembersOf;
    if |files| > MAX_FILES {
      return Err(TooLarge);
    }
    var total := 0;
    var seen: set<string> := {};
    var entries: seq<FileEntry> := [];
    var members: seq<Member> := [];
    ghost var done: seq<File> := [];
    NothingYet(env);
    for i := 0 to |files|
      invariant NormalizedUpTo(files, i) == Ok(done)
      invariant total == TotalBytes(done)
      invariant forall path :: path in seen <==> HasPath(done, path)
      invariant entries == EntriesOf(env, done) && members == MembersOf(done)
    {
      FaultsStay(files, i + 1, |files|);
      var admitted := Admit(done, seen, total, files[i]);
      if admitted.Err? {
        return Err(admitted.error);
      }
      var f := admitted.value;
      OneMore(env, done, f);
      seen := seen + {f.path};
      total := total + |f.content|;
      members := members + [MemberOf(f)];
      entries := entries + [EntryOf(env, f)];
      done := done + [f];
    }
    r := AppendList(env, done, total, members, entries);
  }

  /** The list goes last, under its reserved name. */
  method AppendList(env: Env, ghost done: seq<File>, total: nat, members: seq<Member>, entries: seq<FileEntry>)
    returns (r: Result<(Archive, seq<FileEntry>), Error>)
    requires total == TotalBytes(done) && members == MembersOf(done) && entries == EntriesOf(env, done)
    ensures r == WithList(env, done)
  {
    hide TotalBytes, MembersOf, EntriesOf;
    var list := env.encodeList(entries);
    if |list| > MAX_FILE_LIST_BYTES {
      return Err(TooLarge);
    }
    if total + |list| > MAX_EXPANDED_BYTES {
      return Err(TooLarge);
    }
    return Ok((Archive(members + [Member(RESERVED_FILE_LIST, true, 384, list, 0)], TRAILER_BYTES, true), entries));
  }

  /** The checks a file passes on its way into the archive. */
  method Admit(ghost done: seq<File>, seen: set<string>, total: nat, file: File) returns (r: Result<File, Error>)
    requires total == TotalBytes(done)
    requires forall path :: path in seen <==> HasPath(done, path)
    ensures r == Admitted(done, file)
  {
    hide Clamp, SafeRelPath, TotalBytes, HasPath;
    var name := SafeRelPath(file.path);
    if name.None? {
      return Err(PathTraversal);
    }
    if name.value in seen {
      return Err(DuplicatePath);
    }
    var size := |file.content|;
    if size > MAX_FILE_BYTES {
      return Err(TooLarge);
    }
    if total + size > MAX_EXPANDED_BYTES {
      return Err(TooLarge);
    }
    return Ok(File(name.value, file.content, Clamp(file.mode)));
  }

  lemma NothingYet(env: Env)
    ensures forall path :: !HasPath([], path)
    ensures TotalBytes([]) == 0 && EntriesOf(env, []) == [] && MembersOf([]) == []
  {}

  lemma OneMore(env: Env, done: seq<File>, f: File)
    ensures forall path :: HasPath(done + [f], path) <==> HasPath(done, path) || path == f.path
    ensures TotalBytes(done + [f]) == TotalBytes(done) + |f.content|
    ensures EntriesOf(env, done + [f]) == EntriesOf(env, done) + [EntryOf(env, f)]
    ensures MembersOf(done + [f]) == MembersOf(done) + [MemberOf(f)]
  {
    hide EntryOf, MemberOf;
    assert (done + [f])[..|done|] == done;
    OneMorePath(done, f);
  }

  lemma OneMorePath(done: seq<File>, f: File)
    ensures forall path :: HasPath(done + [f], path) <==> HasPath(done, path) || path == f.path
  {
    forall path
      ensures HasPath(done + [f], path) <==> HasPath(done, path) || path == f.path
    {
      if HasPath(done, path) {
        var i :| 0 <= i < |done| && done[i].path == path;
        assert (done + [f])[i].path == path;
      }
      assert (done + [f])[|done|] == f;
    }
  }

  lemma {:induction false} FaultsStay(files: seq<File>, m: nat, n: nat)
    requires m <= n <= |files|
    ensures NormalizedUpTo(files, m).Err? ==> NormalizedUpTo(files, n) == NormalizedUpTo(files, m)
    decreases n
  {
    if m < n {
      FaultsStay(files, m, n - 1);
    }
  }
}
