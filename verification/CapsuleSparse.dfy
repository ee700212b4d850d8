/** What the expansion budget bounds. It counts the archive's stream, and a sparse member
    delivers more than its part of the stream. */
module CapsuleSparse {
  import opened Wrappers
  import opened Text
  import opened CapsulePath
  import opened Capsule
  import opened CapsuleExtract
  import opened CapsuleRoundTrip

  // ----- what is read and what is delivered

  function StoredBytes(members: seq<Member>): nat {
    if members == [] then 0 else StoredBytes(members[..|members| - 1]) + Stored(members[|members| - 1])
  }

  function DeliveredBytes(members: seq<Member>): nat {
    if members == [] then 0 else DeliveredBytes(members[..|members| - 1]) + |members[|members| - 1].content|
  }

  predicate IsSparse(m: Member) {
    Stored(m) < |m.content|
  }

  function SparseCount(members: seq<Member>): nat {
    if members == [] then 0
    else SparseCount(members[..|members| - 1]) + (if IsSparse(members[|members| - 1]) then 1 else 0)
  }

  lemma {:induction false} FramesHoldStored(env: Env, members: seq<Member>)
    ensures FramedSize(env, members) >= StoredBytes(members) + BLOCK * |members|
    ensures SparseCount(members) == 0 ==> DeliveredBytes(members) == StoredBytes(members)
  {
    hide FrameOf, Stored;
    if members != [] {
      FramesHoldStored(env, members[..|members| - 1]);
    }
  }

  lemma {:induction false} FilesAreDelivered(env: Env, members: seq<Member>)
    requires AllReadable(env, members)
    ensures TotalBytes(FilesIn(members)) <= DeliveredBytes(members)
    ensures TotalBytes(FilesIn(members)) <= |FilesIn(members)| * MAX_FILE_BYTES
  {
    hide SafeRelPath, Clamp;
    if members != [] {
      var m := members[|members| - 1];
      var before := FilesIn(members[..|members| - 1]);
      assert Readable(env, m);
      FilesAreDelivered(env, members[..|members| - 1]);
      if !IsList(m) {
        var f := Normalized(FileOf(m)).value;
        assert (before + [f])[..|before|] == before;
      }
    }
  }

  /** Of an accepted archive the budget bounds headers, stored bytes and what is read after
      them, and so what is delivered when no member is sparse; otherwise only the limits on
      each file do. */
  lemma DeliveredWithinBudget(env: Env, archive: Archive, onDisk: bool)
    requires Extracted(env, archive, onDisk).Ok?
    ensures
      var members := archive.members;
      && StoredBytes(members) + BLOCK * |members| + TrailerRead(archive) <= MAX_EXPANDED_BYTES
      && (SparseCount(members) == 0 ==> DeliveredBytes(members) + BLOCK * |members| <= MAX_EXPANDED_BYTES)
    ensures
      var files := Extracted(env, archive, onDisk).value.files;
      && TotalBytes(files) <= DeliveredBytes(archive.members)
      && TotalBytes(files) <= MAX_FILES * MAX_FILE_BYTES
  {
    hide Extracted, FilesIn, ListsIn, FramedSize, EntriesOf, Holds, AllReadable;
    ExtractsExactly(env, archive, onDisk);
    FramesHoldStored(env, archive.members);
    FilesAreDelivered(env, archive.members);
  }

  // ----- archives of numbered members

  /** A file's size, and how much of it is holes. */
  datatype Shape = Shape(size: nat, holes: nat)

  function ShapedMember(i: nat, shape: Shape): Member {
    Member(FormatNat(i), true, 384, seq(shape.size, _ => 0), shape.holes)
  }

  function ShapedMembers(shapes: seq<Shape>): (members: seq<Member>)
    ensures |members| == |shapes|
  {
    seq(|shapes|, i requires 0 <= i < |shapes| => ShapedMember(i, shapes[i]))
  }

  function ShapedFiles(shapes: seq<Shape>): (files: seq<File>)
    ensures |files| == |shapes|
  {
    seq(|shapes|, i requires 0 <= i < |shapes| => FileOf(ShapedMember(i, shapes[i])))
  }

  function ShapedArchive(shapes: seq<Shape>): Archive {
    Archive(ShapedMembers(shapes), TRAILER_BYTES, true)
  }

  function SizeOf(shapes: seq<Shape>): nat {
    if shapes == [] then 0 else SizeOf(shapes[..|shapes| - 1]) + shapes[|shapes| - 1].size
  }

  function StoredOf(shapes: seq<Shape>): nat {
    if shapes == [] then 0
    else
      var last := shapes[|shapes| - 1];
      StoredOf(shapes[..|shapes| - 1]) + (if last.holes <= last.size then last.size - last.holes else 0)
  }

  predicate SizesFit(shapes: seq<Shape>) {
    forall i :: 0 <= i < |shapes| ==> shapes[i].size <= MAX_FILE_BYTES
  }

  /** No header of these takes more than a hundred blocks beyond its first. */
  predicate HeadersFit(env: Env, shapes: seq<Shape>) {
    forall i :: 0 <= i < |shapes| ==> env.extraBlocks(ShapedMember(i, shapes[i])) <= 100
  }

  lemma NumberIsNormal(i: nat)
    ensures Components(FormatNat(i)) == [FormatNat(i)] && SafeRelPath(FormatNat(i)) == Some(FormatNat(i))
    ensures FormatNat(i) != RESERVED_FILE_LIST
  {
    hide Follow, FormatNat, SplitAt;
    var name := FormatNat(i);
    ParseOfFormat(i);
    DigitsLack(name, '/');
    DigitsLack(name, '\0');
    DigitsLack(name, '\\');
    SplitOfPart(name, '/');
    assert AllDigits(name) && IsDigit(name[0]);
    assert Proper(name);
    ProperPathFollows([name], []);
    assert [] + [name] == [name];
    assert Join([name], '/') == name;
    AcceptedExactly(name, name);
  }

  lemma ShapedMemberReads(env: Env, i: nat, shape: Shape)
    requires shape.size <= MAX_FILE_BYTES
    ensures Readable(env, ShapedMember(i, shape)) && !IsList(ShapedMember(i, shape))
    ensures Normalized(FileOf(ShapedMember(i, shape))) == Some(FileOf(ShapedMember(i, shape)))
    ensures |FileOf(ShapedMember(i, shape)).content| == shape.size
  {
    hide SafeRelPath, FormatNat;
    NumberIsNormal(i);
  }

  /** What one more file says after the members before it. */
  lemma OneMoreFileSays(env: Env, before: seq<Member>, m: Member)
    requires AllReadable(env, before) && Readable(env, m) && !IsList(m)
    requires Normalized(FileOf(m)) == Some(FileOf(m))
    ensures AllReadable(env, before + [m])
    ensures FilesIn(before + [m]) == FilesIn(before) + [FileOf(m)] && ListsIn(before + [m]) == ListsIn(before)
    ensures TotalBytes(FilesIn(before + [m])) == TotalBytes(FilesIn(before)) + |m.content|
  {
    hide Readable, Normalized, IsList;
    assert (before + [m])[..|before|] == before;
    assert (FilesIn(before) + [FileOf(m)])[..|FilesIn(before)|] == FilesIn(before);
  }

  lemma LastOfShaped(shapes: seq<Shape>)
    requires shapes != []
    ensures
      var n := |shapes| - 1;
      var m := ShapedMember(n, shapes[n]);
      && ShapedMembers(shapes) == ShapedMembers(shapes[..n]) + [m]
      && ShapedFiles(shapes) == ShapedFiles(shapes[..n]) + [FileOf(m)]
  {
    hide ShapedMember, FileOf;
  }

  lemma {:induction false} ShapedMembersSay(env: Env, shapes: seq<Shape>)
    requires SizesFit(shapes)
    ensures AllReadable(env, ShapedMembers(shapes)) && FilesIn(ShapedMembers(shapes)) == ShapedFiles(shapes)
    ensures ListsIn(ShapedMembers(shapes)) == [] && TotalBytes(ShapedFiles(shapes)) == SizeOf(shapes)
  {
    if shapes == [] {
      assert ShapedMembers(shapes) == [] && ShapedFiles(shapes) == [];
    } else {
      hide AllReadable, FilesIn, ListsIn, TotalBytes, ShapedMember, Readable, Normalized, IsList, FileOf,
           ShapedMembers, ShapedFiles;
      var n := |shapes| - 1;
      var m := ShapedMember(n, shapes[n]);
      ShapedMembersSay(env, shapes[..n]);
      ShapedMemberReads(env, n, shapes[n]);
      SameContent(m);
      OneMoreFileSays(env, ShapedMembers(shapes[..n]), m);
      LastOfShaped(shapes);
    }
  }

  lemma SameContent(m: Member)
    ensures FileOf(m).content == m.content
  {}

  lemma ShapedPathsAreApart(shapes: seq<Shape>)
    ensures DistinctPaths(ShapedFiles(shapes)) && PrefixFree(ShapedFiles(shapes))
  {
    hide FormatNat, Components;
    var files := ShapedFiles(shapes);
    forall i | 0 <= i < |shapes|
      ensures ParseNat(files[i].path) == Some(i) && |Components(files[i].path)| == 1
    {
      NumberIsNormal(i);
      ParseOfFormat(i);
    }
    forall i, j | 0 <= i < j < |shapes|
      ensures files[i].path != files[j].path
    {
      assert ParseNat(files[i].path) == Some(i) && ParseNat(files[j].path) == Some(j);
    }
  }

  lemma {:induction false} ShapedFrames(env: Env, shapes: seq<Shape>)
    requires HeadersFit(env, shapes)
    ensures FramedSize(env, ShapedMembers(shapes)) <= StoredOf(shapes) + |shapes| * (102 * BLOCK)
  {
    if shapes == [] {
      assert ShapedMembers(shapes) == [];
    } else {
      hide ShapedMember, FrameOf, FramedSize, ShapedMembers, ShapedFiles;
      var n := |shapes| - 1;
      ShapedFrames(env, shapes[..n]);
      LastOfShaped(shapes);
      FramedOneMore(env, ShapedMembers(shapes[..n]), ShapedMember(n, shapes[n]));
      ShapedFrame(env, n, shapes[n]);
    }
  }

  lemma FramedOneMore(env: Env, members: seq<Member>, m: Member)
    ensures FramedSize(env, members + [m]) == FramedSize(env, members) + FrameOf(env, m)
  {
    hide FrameOf;
    assert (members + [m])[..|members|] == members;
  }

  lemma ShapedFrame(env: Env, i: nat, shape: Shape)
    requires env.extraBlocks(ShapedMember(i, shape)) <= 100
    ensures FrameOf(env, ShapedMember(i, shape)) <=
              (if shape.holes <= shape.size then shape.size - shape.holes else 0) + 102 * BLOCK
  {
    hide FormatNat;
    var m := ShapedMember(i, shape);
    assert |m.content| == shape.size;
  }

  /** On disk, a file system that refuses no path of one component. */
  ghost predicate Permissive(env: Env) {
    forall path :: |path| == 1 ==> env.disk(path).None?
  }

  /** Archives of numbered files are accepted and delivered whole when their stored bytes and
      headers fit. */
  lemma ShapedArchiveIsDelivered(env: Env, shapes: seq<Shape>, onDisk: bool)
    requires SizesFit(shapes) && HeadersFit(env, shapes) && |shapes| <= MAX_FILES
    requires StoredOf(shapes) + |shapes| * (102 * BLOCK) + TRAILER_BYTES <= MAX_EXPANDED_BYTES
    requires onDisk ==> Permissive(env)
    ensures Extracted(env, ShapedArchive(shapes), onDisk).Ok?
    ensures TotalBytes(Extracted(env, ShapedArchive(shapes), onDisk).value.files) == SizeOf(shapes)
  {
    hide Extracted, FilesIn, ListsIn, FramedSize, EntriesOf, Holds, AllReadable, TotalBytes, SizesFit, HeadersFit,
         DistinctPaths, PrefixFree, NoneRefused, ShapedMembers, ShapedFiles;
    ShapedMembersSay(env, shapes);
    ShapedPathsAreApart(shapes);
    ShapedFrames(env, shapes);
    if onDisk {
      NoneOfTheseRefused(env, shapes);
    }
    ExtractsExactly(env, ShapedArchive(shapes), onDisk);
  }

  lemma NoneOfTheseRefused(env: Env, shapes: seq<Shape>)
    requires Permissive(env)
    ensures NoneRefused(env, ShapedFiles(shapes))
  {
    hide FormatNat, Components;
    forall i | 0 <= i < |shapes|
      ensures env.disk(Components(ShapedFiles(shapes)[i].path)).None?
    {
      NumberIsNormal(i);
    }
  }

  // ----- how far past the budget

  /** n files of the largest size that are nothing but a hole. */
  function AllHoles(n: nat): (shapes: seq<Shape>)
    ensures |shapes| == n
  {
    seq(n, _ => Shape(MAX_FILE_BYTES, MAX_FILE_BYTES))
  }

  lemma {:induction false} AllHolesAdd(n: nat)
    ensures SizesFit(AllHoles(n)) && SizeOf(AllHoles(n)) == n * MAX_FILE_BYTES && StoredOf(AllHoles(n)) == 0
  {
    if n > 0 {
      AllHolesAdd(n - 1);
      assert AllHoles(n)[..n - 1] == AllHoles(n - 1);
    }
  }

  /** However many files the limits allow, an archive of sparse ones delivers the largest size
      for each: from the fifth on it passes the budget that counts as the whole archive's. */
  lemma SparseMembersPassTheBudget(env: Env, n: nat, onDisk: bool)
    requires n <= MAX_FILES && HeadersFit(env, AllHoles(n)) && (onDisk ==> Permissive(env))
    ensures
      var extracted := Extracted(env, ShapedArchive(AllHoles(n)), onDisk);
      && extracted.Ok? && TotalBytes(extracted.value.files) == n * MAX_FILE_BYTES
      && (TotalBytes(extracted.value.files) > MAX_EXPANDED_BYTES <==> n >= 5)
  {
    hide Extracted, SizesFit, HeadersFit, SizeOf, StoredOf, AllHoles, ShapedArchive, TotalBytes, Permissive;
    AllHolesAdd(n);
    ShapedArchiveIsDelivered(env, AllHoles(n), onDisk);
  }

  // ----- when the budget holds

  /** Of the archives with at most k sparse members, none delivers more than the budget. */
  ghost predicate BudgetHolds(env: Env, onDisk: bool, k: nat) {
    forall archive: Archive | Extracted(env, archive, onDisk).Ok? && SparseCount(archive.members) <= k ::
      TotalBytes(Extracted(env, archive, onDisk).value.files) <= MAX_EXPANDED_BYTES
  }

  /** Three whole files of the largest size, half a one, and a hole. */
  function OneHole(): (shapes: seq<Shape>)
    ensures |shapes| == 5
  {
    [Shape(MAX_FILE_BYTES, 0), Shape(MAX_FILE_BYTES, 0), Shape(MAX_FILE_BYTES, 0), Shape(MAX_FILE_BYTES / 2, 0),
     Shape(MAX_FILE_BYTES, MAX_FILE_BYTES)]
  }

  lemma SumsOfFive(shapes: seq<Shape>)
    requires |shapes| == 5 && forall i :: 0 <= i < 5 ==> shapes[i].holes <= shapes[i].size
    ensures SizeOf(shapes) == shapes[0].size + shapes[1].size + shapes[2].size + shapes[3].size + shapes[4].size
    ensures StoredOf(shapes) == SizeOf(shapes) - shapes[0].holes - shapes[1].holes - shapes[2].holes
                                - shapes[3].holes - shapes[4].holes
  {
    var four, three, two, one := shapes[..4], shapes[..3], shapes[..2], shapes[..1];
    assert four[..3] == three && three[..2] == two && two[..1] == one && one[..0] == [];
    assert SizeOf(one) == shapes[0].size && StoredOf(one) == shapes[0].size - shapes[0].holes;
    assert SizeOf(two) == SizeOf(one) + shapes[1].size;
    assert SizeOf(three) == SizeOf(two) + shapes[2].size;
    assert SizeOf(four) == SizeOf(three) + shapes[3].size;
    assert StoredOf(two) == StoredOf(one) + shapes[1].size - shapes[1].holes;
    assert StoredOf(three) == StoredOf(two) + shapes[2].size - shapes[2].holes;
    assert StoredOf(four) == StoredOf(three) + shapes[3].size - shapes[3].holes;
  }

  lemma {:induction false} CountOfDense(members: seq<Member>)
    requires forall i :: 0 <= i < |members| ==> !IsSparse(members[i])
    ensures SparseCount(members) == 0
  {
    hide IsSparse;
    if members != [] {
      CountOfDense(members[..|members| - 1]);
    }
  }

  lemma OneHoleIsOneSparseMember()
    ensures SparseCount(ShapedMembers(OneHole())) <= 1
  {
    hide FormatNat;
    var members := ShapedMembers(OneHole());
    forall i | 0 <= i < 4
      ensures !IsSparse(members[..4][i])
    {
      assert |members[i].content| == OneHole()[i].size && members[i].holes == 0;
    }
    CountOfDense(members[..4]);
  }

  /** The budget holds for what is delivered, over all archives with at most so many sparse
      members, exactly when that is none. */
  lemma BudgetHoldsExactly(env: Env, onDisk: bool, k: nat)
    requires HeadersFit(env, OneHole()) && (onDisk ==> Permissive(env))
    ensures BudgetHolds(env, onDisk, k) <==> k == 0
  {
    hide Extracted, SparseCount, TotalBytes, DeliveredBytes, StoredBytes, ShapedMembers, SizeOf, StoredOf,
         HeadersFit, Permissive;
    if k == 0 {
      forall archive: Archive | Extracted(env, archive, onDisk).Ok? && SparseCount(archive.members) <= k
        ensures TotalBytes(Extracted(env, archive, onDisk).value.files) <= MAX_EXPANDED_BYTES
      {
        DeliveredWithinBudget(env, archive, onDisk);
      }
    } else {
      var archive := ShapedArchive(OneHole());
      SumsOfFive(OneHole());
      ShapedArchiveIsDelivered(env, OneHole(), onDisk);
      OneHoleIsOneSparseMember();
      assert Extracted(env, archive, onDisk).Ok? && SparseCount(archive.members) <= k;
      assert TotalBytes(Extracted(env, archive, onDisk).value.files) > MAX_EXPANDED_BYTES;
    }
  }
}
