/** Archive member names: Go's lexical cleaning of a relative path, and which names a restore
    accepts. */
module CapsulePath {
  import opened Wrappers
  import opened Text

  const RESERVED_FILE_LIST := "./.kycap-files.json"

  type Path = seq<string>

  // ----- cleaning

  /** One component after another: "" and "." change nothing, ".." takes back the component
      before it when there is one to take back. */
  function Fold(parts: seq<string>, done: Path): Path
    decreases |parts|
  {
    if parts == [] then done
    else if parts[0] == "" || parts[0] == "." then Fold(parts[1..], done)
    else if parts[0] == ".." && done != [] && done[|done| - 1] != ".." then Fold(parts[1..], done[..|done| - 1])
    else Fold(parts[1..], done + [parts[0]])
  }

  /** Clean, for a name that does not begin with a slash. */
  function Clean(name: string): string {
    var done := Fold(SplitAt(name, '/'), []);
    if done == [] then "." else Join(done, '/')
  }

  predicate BeginsWithSlash(name: string) {
    name != [] && name[0] == '/'
  }

  /** The cleaned name of a member that stays inside the target, or None. */
  function SafeRelPath(name: string): Option<string> {
    if name == "" || '\0' in name then None
    else if '\\' in name || BeginsWithSlash(name) then None
    else
      var clean := Clean(name);
      if clean == "." || clean == ".." || "../" <= clean || BeginsWithSlash(clean) then None
      else Some(clean)
  }

  // ----- what a path means

  /** Where following the components from a directory leads, and None if they ever climb
      above the root. */
  function Follow(parts: seq<string>, at: Path): Option<Path>
    decreases |parts|
  {
    if parts == [] then Some(at)
    else if parts[0] == "" || parts[0] == "." then Follow(parts[1..], at)
    else if parts[0] == ".." then (if at == [] then None else Follow(parts[1..], at[..|at| - 1]))
    else Follow(parts[1..], at + [parts[0]])
  }

  predicate Proper(part: string) {
    part != "" && part != "." && part != ".." && Lacks(part, '/')
  }

  predicate AllProper(path: Path) {
    forall i :: 0 <= i < |path| ==> Proper(path[i])
  }

  /** Free of what no member name may contain. */
  predicate PlainName(name: string) {
    name != "" && Lacks(name, '\0') && Lacks(name, '\\') && !BeginsWithSlash(name)
  }

  /** Folding onto proper components agrees with following them, and climbing above the root
      leaves a ".." in front that nothing takes back. */
  lemma {:induction false} FoldFollows(parts: seq<string>, at: Path)
    requires AllProper(at) && AllLack(parts, '/')
    ensures Follow(parts, at).Some? ==> Fold(parts, at) == Follow(parts, at).value && AllProper(Fold(parts, at))
    ensures Follow(parts, at).None? ==> Fold(parts, at) != [] && Fold(parts, at)[0] == ".."
    decreases |parts|
  {
    if parts != [] {
      var rest := parts[1..];
      assert Lacks(parts[0], '/');
      if parts[0] == "" || parts[0] == "." {
        FoldFollows(rest, at);
      } else if parts[0] == ".." {
        if at == [] {
          assert at + [parts[0]] == [".."];
          ClimbedStays(rest, [".."]);
        } else {
          FoldFollows(rest, at[..|at| - 1]);
        }
      } else {
        FoldFollows(rest, at + [parts[0]]);
      }
    }
  }

  lemma {:induction false} ClimbedStays(parts: seq<string>, done: Path)
    requires done != [] && done[0] == ".."
    ensures Fold(parts, done) != [] && Fold(parts, done)[0] == ".."
    decreases |parts|
  {
    if parts != [] {
      if parts[0] == "" || parts[0] == "." {
        ClimbedStays(parts[1..], done);
      } else if parts[0] == ".." && done[|done| - 1] != ".." {
        ClimbedStays(parts[1..], done[..|done| - 1]);
      } else {
        ClimbedStays(parts[1..], done + [parts[0]]);
      }
    }
  }

  lemma {:induction false} ProperPathFollows(path: Path, at: Path)
    requires AllProper(path)
    ensures Follow(path, at) == Some(at + path)
    decreases |path|
  {
    if path != [] {
      ProperPathFollows(path[1..], at + [path[0]]);
      assert at + [path[0]] + path[1..] == at + path;
    } else {
      assert at + [] == at;
    }
  }

  function Components(name: string): (path: Path)
    ensures path != []
  {
    SplitAt(name, '/')
  }

  /** A name is accepted exactly when it is plain and following it never climbs above the
      target and ends strictly inside; the result spells where it ends. */
  lemma AcceptedExactly(name: string, clean: string)
    ensures SafeRelPath(name) == Some(clean) <==>
              && PlainName(name)
              && Follow(Components(name), []).Some?
              && Follow(Components(name), []).value != []
              && clean == Join(Follow(Components(name), []).value, '/')
  {
    hide Follow, Fold, SplitAt, Join;
    if PlainName(name) {
      var parts := Components(name);
      JoinOfSplit(name, '/');
      FoldFollows(parts, []);
      var done := Fold(parts, []);
      if done != [] {
        if Follow(parts, []).Some? {
          ProperJoin(done);
        } else {
          ClimbedJoin(done);
        }
      }
    }
  }

  /** The first component of a joined path can be read off its text. */
  lemma ProperJoin(path: Path)
    requires path != [] && AllProper(path)
    ensures
      var s := Join(path, '/');
      s != "" && s != "." && s != ".." && !("../" <= s) && !BeginsWithSlash(s)
  {
    hide Join, SplitAt;
    var s := Join(path, '/');
    SplitOfJoin(path, '/');
    assert Proper(path[0]);
    SplitOfPart("", '/');
    SplitOfPart(".", '/');
    SplitOfPart("..", '/');
    if BeginsWithSlash(s) {
      assert s == "" + (['/'] + s[1..]);
      SplitAtSeparator("", s[1..], '/');
    } else if "../" <= s {
      assert s[..3] == "../";
      assert s == ".." + (['/'] + s[3..]);
      SplitAtSeparator("..", s[3..], '/');
    }
  }

  lemma ClimbedJoin(path: Path)
    requires path != [] && path[0] == ".."
    ensures Join(path, '/') == ".." || "../" <= Join(path, '/')
  {}

  /** What an accepted name looks like: proper components only, plain, unchanged by accepting
      it again, and never the reserved list's name. */
  lemma AcceptedNamesAreNormal(name: string)
    requires SafeRelPath(name).Some?
    ensures
      var clean := SafeRelPath(name).value;
      && AllProper(Components(clean))
      && PlainName(clean)
      && SafeRelPath(clean) == Some(clean)
      && clean != RESERVED_FILE_LIST
  {
    hide Follow, Fold, SplitAt, Join, Clean;
    var clean := SafeRelPath(name).value;
    AcceptedExactly(name, clean);
    var path := Follow(Components(name), []).value;
    JoinOfSplit(name, '/');
    FoldFollows(Components(name), []);
    SplitOfJoin(path, '/');
    ProperPathFollows(path, []);
    assert [] + path == path;
    ProperJoin(path);
    CleanKeepsLacking(name, '\0');
    CleanKeepsLacking(name, '\\');
    AcceptedExactly(clean, clean);
    ReservedIsNotNormal();
  }

  lemma ReservedIsNotNormal()
    ensures !AllProper(Components(RESERVED_FILE_LIST))
  {
    var rest := RESERVED_FILE_LIST[2..];
    assert RESERVED_FILE_LIST == "." + (['/'] + rest);
    SplitAtSeparator(".", rest, '/');
    assert Components(RESERVED_FILE_LIST)[0] == ".";
  }

  lemma {:induction false} FollowKeepsLacking(parts: seq<string>, at: Path, c: char)
    requires AllLack(parts, c) && AllLack(at, c) && Follow(parts, at).Some?
    ensures AllLack(Follow(parts, at).value, c)
    decreases |parts|
  {
    if parts != [] {
      if parts[0] == "" || parts[0] == "." {
        FollowKeepsLacking(parts[1..], at, c);
      } else if parts[0] == ".." {
        FollowKeepsLacking(parts[1..], at[..|at| - 1], c);
      } else {
        assert Lacks(parts[0], c);
        FollowKeepsLacking(parts[1..], at + [parts[0]], c);
      }
    }
  }

  lemma {:induction false} PartsKeepLacking(s: string, sep: char, c: char)
    requires Lacks(s, c)
    ensures AllLack(SplitAt(s, sep), c)
  {
    if s != [] {
      PartsKeepLacking(s[1..], sep, c);
      var rest := SplitAt(s[1..], sep);
      assert Lacks(rest[0], c);
      assert s[0] != c;
    }
  }

  lemma {:induction false} JoinKeepsLacking(parts: seq<string>, sep: char, c: char)
    requires parts != [] && AllLack(parts, c) && sep != c
    ensures Lacks(Join(parts, sep), c)
  {
    assert Lacks(parts[0], c);
    if |parts| > 1 {
      JoinKeepsLacking(parts[1..], sep, c);
    }
  }

  lemma CleanKeepsLacking(name: string, c: char)
    requires Lacks(name, c) && c != '/'
    requires Follow(Components(name), []).Some? && Follow(Components(name), []).value != []
    ensures Lacks(Join(Follow(Components(name), []).value, '/'), c)
  {
    hide Follow, SplitAt, Join;
    PartsKeepLacking(name, '/', c);
    FollowKeepsLacking(Components(name), [], c);
    JoinKeepsLacking(Follow(Components(name), []).value, '/', c);
  }

  /** Accepted names are distinct exactly when their component paths are. */
  lemma NormalNamesByComponents(a: string, b: string)
    ensures Components(a) == Components(b) ==> a == b
  {
    JoinOfSplit(a, '/');
    JoinOfSplit(b, '/');
  }
}
