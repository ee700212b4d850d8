/** Sealed copies kept in one directory shared by several apps: the reversible escape that
    scopes each app to its own files, and writing, listing and pruning them. */
module LocalCopies {
  import opened Wrappers
  import opened Sequences
  import opened Text

  /** Nanoseconds on the file system's clock. */
  type Time = int

  const TEMP_PREFIX := ".kycap-"
  const SUFFIX := ".kycap"
  const STALE_TEMP: int := 3_600_000_000_000

  // ----- app names

  predicate IsSafe(c: Octet) {
    'a' as int <= c <= 'z' as int || 'A' as int <= c <= 'Z' as int || '0' as int <= c <= '9' as int || c == '-' as int
  }

  function EscapeByte(c: Octet): string {
    if IsSafe(c) then [c as char] else "_" + [HexChar(c / 16), HexChar(c % 16)]
  }

  function Escape(app: seq<Octet>): string {
    if app == [] then [] else EscapeByte(app[0]) + Escape(app[1..])
  }

  function AppNameSafe(app: seq<Octet>): string {
    if app == [] then "_" else Escape(app)
  }

  /** The escape, built byte by byte. */
  method BuildAppNameSafe(app: seq<Octet>) returns (b: string)
    ensures b == AppNameSafe(app)
  {
    hide Escape, IsSafe, HexChar;
    b := "";
    assert app[0..] == app && app[|app|..] == [];
    for i := 0 to |app|
      invariant b + Escape(app[i..]) == Escape(app)
    {
      ghost var done := b;
      NextByte(app, i);
      if IsSafe(app[i]) {
        b := b + [app[i] as char];
      } else {
        b := b + ("_" + [HexChar(app[i] / 16), HexChar(app[i] % 16)]);
      }
      assert done + (EscapeByte(app[i]) + Escape(app[i + 1..])) == (done + EscapeByte(app[i])) + Escape(app[i + 1..]);
    }
    EscapeIsEmpty([]);
    EscapeIsEmpty(app);
    if |b| == 0 {
      b := "_";
    }
  }

  lemma NextByte(app: seq<Octet>, i: nat)
    requires i < |app|
    ensures Escape(app[i..]) == EscapeByte(app[i]) + Escape(app[i + 1..])
  {
    hide EscapeByte;
    assert app[i..][1..] == app[i + 1..];
  }

  lemma EscapeIsEmpty(app: seq<Octet>)
    ensures Escape(app) == [] <==> app == []
  {}

  /** Reading an escape back; None for text no escape produces. */
  function Unescape(s: string): Option<seq<Octet>> {
    if s == [] then Some([])
    else if s[0] != '_' then
      match Unescape(s[1..])
      case None => None
      case Some(rest) => if s[0] as int < 256 then Some([s[0] as int] + rest) else None
    else if |s| < 3 then None
    else
      match (HexValue(s[1]), HexValue(s[2]), Unescape(s[3..]))
      case (Some(hi), Some(lo), Some(rest)) => Some([16 * hi + lo] + rest)
      case _ => None
  }

  lemma {:induction false} UnescapeOfEscape(app: seq<Octet>)
    ensures Unescape(Escape(app)) == Some(app)
  {
    if app != [] {
      hide Unescape, EscapeByte;
      UnescapeOfEscape(app[1..]);
      UnescapeOneMore(app[0], Escape(app[1..]), app[1..]);
      assert app == [app[0]] + app[1..];
    }
  }

  lemma UnescapeOneMore(c: Octet, text: string, rest: seq<Octet>)
    requires Unescape(text) == Some(rest)
    ensures Unescape(EscapeByte(c) + text) == Some([c] + rest)
  {
    var s := EscapeByte(c) + text;
    if IsSafe(c) {
      assert s[1..] == text;
    } else {
      assert s[3..] == text;
      HexDigitsRoundTrip(c);
    }
  }

  lemma HexDigitsRoundTrip(c: Octet)
    ensures HexValue(HexChar(c / 16)) == Some(c / 16) && HexValue(HexChar(c % 16)) == Some(c % 16)
  {}

  /** Different apps never share an escaped name. */
  lemma AppNameSafeIsInjective(a: seq<Octet>, b: seq<Octet>)
    requires AppNameSafe(a) == AppNameSafe(b)
    ensures a == b
  {
    hide Escape, Unescape;
    UnescapeOfEscape(a);
    UnescapeOfEscape(b);
    UnderscoreIsNoEscape();
  }

  lemma UnderscoreIsNoEscape()
    ensures Unescape("_") == None
  {}

  lemma {:induction false} EscapeLacksDots(app: seq<Octet>)
    ensures Lacks(Escape(app), '.')
  {
    if app != [] {
      EscapeLacksDots(app[1..]);
      assert Lacks(EscapeByte(app[0]), '.');
    }
  }

  /** An escaped name is never empty and has no dot in it. */
  lemma AppNameSafeIsDotless(app: seq<Octet>)
    ensures AppNameSafe(app) != [] && Lacks(AppNameSafe(app), '.')
  {
    EscapeLacksDots(app);
    EscapeIsEmpty(app);
  }

  function LocalPrefix(app: seq<Octet>): string {
    AppNameSafe(app) + "."
  }

  /** Character by character: one of several bytes becomes one dash. */
  function FilenameSafe(s: string): (t: string)
    ensures |t| == |s|
  {
    seq(|s|, i requires 0 <= i < |s| =>
      if 'a' <= s[i] <= 'z' || 'A' <= s[i] <= 'Z' || '0' <= s[i] <= '9' || s[i] in "._-" then s[i] else '-')
  }

  function FinalName(app: seq<Octet>, capsuleId: string): string {
    LocalPrefix(app) + FilenameSafe(capsuleId) + SUFFIX
  }

  predicate EndsWith(s: string, suffix: string) {
    |suffix| <= |s| && s[|s| - |suffix|..] == suffix
  }

  /** The names listed and pruned for an app. */
  predicate OwnName(app: seq<Octet>, name: string) {
    LocalPrefix(app) <= name && EndsWith(name, SUFFIX)
  }

  /** A name begins with one app's prefix at most. */
  lemma PrefixIsExclusive(a: seq<Octet>, b: seq<Octet>, name: string)
    requires LocalPrefix(a) <= name && LocalPrefix(b) <= name
    ensures a == b
  {
    hide AppNameSafe;
    AppNameSafeIsDotless(a);
    AppNameSafeIsDotless(b);
    var s, t := AppNameSafe(a), AppNameSafe(b);
    assert name[|s|] == LocalPrefix(a)[|s|] == '.';
    assert name[|t|] == LocalPrefix(b)[|t|] == '.';
    assert forall i :: 0 <= i < |s| ==> name[i] == LocalPrefix(a)[i] == s[i];
    assert forall i :: 0 <= i < |t| ==> name[i] == LocalPrefix(b)[i] == t[i];
    assert |s| == |t|;
    assert s == name[..|s|] == t;
    AppNameSafeIsInjective(a, b);
  }

  /** A copy written for one app is listed for exactly that app. */
  lemma ListedForExactlyOneApp(a: seq<Octet>, b: seq<Octet>, capsuleId: string)
    ensures OwnName(b, FinalName(a, capsuleId)) <==> a == b
  {
    hide AppNameSafe, FilenameSafe;
    var name := FinalName(a, capsuleId);
    assert LocalPrefix(a) <= name;
    assert name[|name| - |SUFFIX|..] == SUFFIX;
    if OwnName(b, name) {
      PrefixIsExclusive(a, b, name);
    }
  }

  // ----- the directory

  datatype Entry = Entry(isDir: bool, modified: Time, content: seq<Octet>)

  type Listing = map<string, Entry>

  predicate StaleTemp(dir: Listing, name: string, now: Time) {
    name in dir && !dir[name].isDir && TEMP_PREFIX <= name && now - dir[name].modified > STALE_TEMP
  }

  /** The stale temporary files gone, except for those that stay stuck. */
  function Swept(dir: Listing, now: Time, stuck: set<string>): Listing {
    map name | name in dir && (name in stuck || !StaleTemp(dir, name, now)) :: dir[name]
  }

  /** The directory with stale files swept and one copy put in. */
  function WithCopy(dir: Listing, now: Time, stuck: set<string>, app: seq<Octet>, capsuleId: string,
                    raw: seq<Octet>, written: Time): Listing
  {
    Swept(dir, now, stuck)[FinalName(app, capsuleId) := Entry(false, written, raw)]
  }

  predicate OwnCopy(dir: Listing, app: seq<Octet>, name: string) {
    name in dir && !dir[name].isDir && OwnName(app, name)
  }

  ghost predicate NewestFirst(dir: Listing, names: seq<string>)
    requires forall name :: name in names ==> name in dir
  {
    forall i, j :: 0 <= i < j < |names| ==> dir[names[i]].modified >= dir[names[j]].modified
  }

  /** names lists an app's copies, each once, newest first; ties may stand either way. */
  ghost predicate ListsOwnCopies(dir: Listing, app: seq<Octet>, names: seq<string>) {
    && Distinct(names)
    && (forall name :: name in names <==> OwnCopy(dir, app, name))
    && NewestFirst(dir, names)
  }

  datatype Error = BadKeep | FileFailed

  class Directory {
    var entries: Listing

    /** Removes stale temporary files one by one, passing over a removal that fails. stuck
        names the files that are not removed: for that reason, or for a crash before their
        turn. */
    method SweepStaleTemp(now: Time, stuck: set<string>)
      modifies this
      ensures entries == Swept(old(entries), now, stuck)
    {
      hide StaleTemp;
      var rest := entries.Keys;
      while rest != {}
        invariant rest <= old(entries).Keys
        invariant forall name :: name in entries <==>
                    name in old(entries) && (name in rest || name in stuck || !StaleTemp(old(entries), name, now))
        invariant forall name :: name in entries ==> entries[name] == old(entries)[name]
        decreases |rest|
      {
        var name :| name in rest;
        rest := rest - {name};
        SameStaleness(old(entries), entries, name, now);
        if StaleTemp(entries, name, now) && name !in stuck {
          entries := entries - {name};
        }
      }
    }

    /** Put a name into its place among newer and older copies. */
    method InsertByAge(ghost app: seq<Octet>, names: seq<string>, name: string) returns (longer: seq<string>)
      requires forall n :: n in names ==> n in entries
      requires Distinct(names) && NewestFirst(entries, names)
      requires name in entries && name !in names
      ensures Distinct(longer)
      ensures forall n :: n in longer <==> n in names || n == name
      ensures NewestFirst(entries, longer)
    {
      hide Distinct;
      var k := 0;
      while k < |names| && entries[names[k]].modified >= entries[name].modified
        invariant k <= |names|
        invariant forall i :: 0 <= i < k ==> entries[names[i]].modified >= entries[name].modified
      {
        k := k + 1;
      }
      longer := names[..k] + [name] + names[k..];
      InsertedNames(names, k, name);
      InsertedAreDistinct(names, k, name);
      InsertedAreSorted(entries, names, k, name);
    }

    /** Collects the app's copies and sorts them newest first. */
    method ListLocalCopies(app: seq<Octet>) returns (names: seq<string>)
      ensures ListsOwnCopies(entries, app, names)
    {
      names := [];
      var rest := entries.Keys;
      while rest != {}
        invariant rest <= entries.Keys
        invariant Distinct(names)
        invariant forall name :: name in names <==> name !in rest && OwnCopy(entries, app, name)
        invariant NewestFirst(entries, names)
        decreases |rest|
      {
        var name :| name in rest;
        rest := rest - {name};
        if !entries[name].isDir && OwnName(app, name) {
          names := InsertByAge(app, names, name);
        }
      }
    }

    /** Keep the first keep names of the list and remove the rest, up to a removal that fails
        or a crash. */
    method Prune(ghost app: seq<Octet>, names: seq<string>, keep: nat, fault: Fault) returns (ok: bool)
      requires ListsOwnCopies(entries, app, names)
      modifies this
      ensures ok ==> PrunedTo(old(entries), entries, app, keep)
      ensures !ok ==>
                && RemovalsBefore(fault).Some?
                && PartlyPruned(old(entries), entries, app, keep, RemovalsBefore(fault).value)
      ensures RemovalsBefore(fault).None? ==> ok
    {
      hide OwnCopy, OwnName, ListsOwnCopies;
      var from := if keep <= |names| then keep else |names|;
      for k := from to |names|
        invariant entries == old(entries) - Names(names[from..k])
      {
        if RemovalsBefore(fault) == Some(k - from) {
          return false;
        }
        entries := entries - {names[k]};
        assert names[from..k + 1] == names[from..k] + [names[k]];
      }
      assert names[from..] == names[from..|names|];
      return true;
    }

    /** Write a temporary file and rename it to its final name. A failure removes the
        temporary file again; a crash leaves it, with as much as was written. */
    method Place(temp: string, final: string, raw: seq<Octet>, written: Time, fault: Fault) returns (ok: bool)
      requires temp !in entries && temp != final
      modifies this
      ensures ok <==> !StopsPlacing(fault) && !(final in old(entries) && old(entries)[final].isDir)
      ensures entries == if ok then old(entries)[final := Entry(false, written, raw)]
                         else if fault.Crash? then old(entries)[temp := Entry(false, written, UpTo(raw, fault.wrote))]
                         else old(entries)
    {
      if fault == CreateFault {
        return false;
      }
      ghost var empty, whole := Entry(false, written, []), Entry(false, written, raw);
      SetAside(entries, temp, empty, whole);
      entries := entries[temp := Entry(false, written, [])];
      if fault.Crash? {
        SetAside(old(entries), temp, empty, Entry(false, written, UpTo(raw, fault.wrote)));
        entries := entries[temp := Entry(false, written, UpTo(raw, fault.wrote))];
        return false;
      }
      if fault == WriteFault {
        entries := entries - {temp};
        return false;
      }
      entries := entries[temp := Entry(false, written, raw)];
      SetAside(old(entries), temp, whole, whole);
      if fault == RenameFault || (final in entries && entries[final].isDir) {
        entries := entries - {temp};
        return false;
      }
      entries := (entries - {temp})[final := entries[temp]];
      return true;
    }

    /** Stores a copy under the app's name through a temporary file and prunes the app's
        oldest beyond keep. temp is the fresh name the temporary file gets, written the time
        the file system stamps on the copy. Whatever fails, and wherever the process dies,
        every copy in the directory is one that was there or the whole new one. A call cut
        short by a crash answers nobody; it counts as failed here. */
    method WriteLocalCopy(app: seq<Octet>, capsuleId: string, raw: seq<Octet>, keep: int,
                          now: Time, stuck: set<string>, written: Time, temp: string, fault: Fault)
      returns (name: string, error: Option<Error>)
      requires TEMP_PREFIX <= temp && temp !in entries
      modifies this
      ensures keep < 1 ==> name == "" && error == Some(BadKeep) && entries == old(entries)
      ensures keep >= 1 && fault == MkdirFault ==>
                name == "" && error == Some(FileFailed) && entries == old(entries)
      ensures keep >= 1 && fault != MkdirFault ==>
                var final := FinalName(app, capsuleId);
                var swept := Swept(old(entries), now, stuck);
                var placed := WithCopy(old(entries), now, stuck, app, capsuleId, raw, written);
                if fault == CrashSweeping then
                  name == "" && error == Some(FileFailed) && entries == swept
                else if StopsPlacing(fault) || (final in swept && swept[final].isDir) then
                  && name == "" && error == Some(FileFailed)
                  && entries == if fault.Crash? then swept[temp := Entry(false, written, UpTo(raw, fault.wrote))]
                                else swept
                else if fault in {ListFault, CrashRenamed} then
                  name == final && error == Some(FileFailed) && entries == placed
                else if error.Some? then
                  && name == final && error == Some(FileFailed)
                  && RemovalsBefore(fault).Some?
                  && PartlyPruned(placed, entries, app, keep, RemovalsBefore(fault).value)
                else
                  name == final && PrunedTo(placed, entries, app, keep)
      ensures WholeCopies(old(entries), entries, FinalName(app, capsuleId), Entry(false, written, raw))
    {
      hide FinalName, PrunedTo, PartlyPruned, ListsOwnCopies, WholeCopies;
      ghost var final' := FinalName(app, capsuleId);
      ghost var copy := Entry(false, written, raw);
      FewerAreWhole(entries, entries, final', copy);
      if keep < 1 {
        return "", Some(BadKeep);
      }
      if fault == MkdirFault {
        return "", Some(FileFailed);
      }
      SweepStaleTemp(now, stuck);
      FewerAreWhole(old(entries), entries, final', copy);
      ghost var swept := entries;
      if fault == CrashSweeping {
        return "", Some(FileFailed);
      }
      var final := FinalName(app, capsuleId);
      FinalIsNotTemp(app, capsuleId, temp);
      var ok := Place(temp, final, raw, written, fault);
      if !ok {
        var wrote := if fault.Crash? then fault.wrote else 0;
        TempIsNoCopy(old(entries), swept, final, copy, temp, Entry(false, written, UpTo(raw, wrote)));
        return "", Some(FileFailed);
      }
      ghost var placed := entries;
      CopyIsWhole(old(entries), swept, final, copy);
      if fault in {ListFault, CrashRenamed} {
        return final, Some(FileFailed);
      }
      var names := ListLocalCopies(app);
      ok := Prune(app, names, keep, fault);
      if !ok {
        PartlyPrunedIsFewer(placed, entries, app, keep, RemovalsBefore(fault).value);
        StillWhole(old(entries), placed, entries, final, copy);
        return final, Some(FileFailed);
      }
      PrunedIsFewer(placed, entries, app, keep);
      StillWhole(old(entries), placed, entries, final, copy);
      return final, None;
    }
  }

  /** What goes wrong, if anything: a step that reports failure, or the process dying while it
      sweeps, with so many bytes of the temporary file written, after the rename, or after
      so many removals. */
  datatype Fault =
    | NoFault
    | MkdirFault
    | CrashSweeping
    | CreateFault
    | WriteFault
    | Crash(wrote: nat)
    | RenameFault
    | CrashRenamed
    | ListFault
    | RemoveFault(removed: nat)
    | CrashPruning(removed: nat)

  /** Whether the new copy never gets its final name. */
  predicate StopsPlacing(fault: Fault) {
    fault in {CreateFault, WriteFault, RenameFault} || fault.Crash?
  }

  /** After how many removals pruning stops. */
  function RemovalsBefore(fault: Fault): Option<nat> {
    if fault.RemoveFault? || fault.CrashPruning? then Some(fault.removed) else None
  }

  function UpTo(raw: seq<Octet>, n: nat): (part: seq<Octet>)
    ensures part <= raw && |part| == if n < |raw| then n else |raw|
  {
    if n <= |raw| then raw[..n] else raw
  }

  lemma SameStaleness(dir: Listing, other: Listing, name: string, now: Time)
    requires name in dir && name in other && dir[name] == other[name]
    ensures StaleTemp(dir, name, now) == StaleTemp(other, name, now)
  {}

  lemma SetAside(dir: Listing, temp: string, first: Entry, second: Entry)
    requires temp !in dir
    ensures dir[temp := first] - {temp} == dir && dir[temp := first][temp := second] == dir[temp := second]
  {}

  // ----- whole copies only

  /** Every app's copies are ones that were there before, unchanged, or the new one, whole. */
  ghost predicate WholeCopies(before: Listing, after: Listing, final: string, copy: Entry) {
    forall app, name :: OwnCopy(after, app, name) ==>
      (name in before && after[name] == before[name]) || (name == final && after[name] == copy)
  }

  /** Some entries gone, nothing else changed. */
  predicate Fewer(before: Listing, after: Listing) {
    forall name :: name in after ==> name in before && after[name] == before[name]
  }

  lemma FewerAreWhole(before: Listing, after: Listing, final: string, copy: Entry)
    requires Fewer(before, after)
    ensures WholeCopies(before, after, final, copy)
  {}

  lemma StillWhole(before: Listing, middle: Listing, after: Listing, final: string, copy: Entry)
    requires WholeCopies(before, middle, final, copy) && Fewer(middle, after)
    ensures WholeCopies(before, after, final, copy)
  {
    hide OwnName;
    forall app, name | OwnCopy(after, app, name)
      ensures (name in before && after[name] == before[name]) || (name == final && after[name] == copy)
    {
      assert OwnCopy(middle, app, name);
    }
  }

  lemma CopyIsWhole(before: Listing, swept: Listing, final: string, copy: Entry)
    requires Fewer(before, swept)
    ensures WholeCopies(before, swept[final := copy], final, copy)
  {}

  /** A temporary file, however much of it was written, is nobody's copy. */
  lemma TempIsNoCopy(before: Listing, swept: Listing, final: string, copy: Entry, temp: string, torn: Entry)
    requires Fewer(before, swept) && TEMP_PREFIX <= temp
    ensures WholeCopies(before, swept, final, copy) && WholeCopies(before, swept[temp := torn], final, copy)
  {
    hide OwnName;
    var dir := swept[temp := torn];
    forall app, name | OwnCopy(dir, app, name)
      ensures name in before && dir[name] == before[name]
    {
      OwnNameIsNotTemp(app, name);
    }
  }

  lemma PrunedIsFewer(before: Listing, after: Listing, app: seq<Octet>, keep: nat)
    requires PrunedTo(before, after, app, keep)
    ensures Fewer(before, after)
  {}

  lemma PartlyPrunedIsFewer(before: Listing, after: Listing, app: seq<Octet>, keep: nat, k: nat)
    requires PartlyPruned(before, after, app, keep, k)
    ensures Fewer(before, after)
  {}

  // ----- pruning

  function Names(names: seq<string>): set<string> {
    set name | name in names
  }

  /** after is before without all but the first keep of some newest-first list of the app's
      copies. */
  ghost predicate PrunedTo(before: Listing, after: Listing, app: seq<Octet>, keep: nat) {
    exists names :: ListsOwnCopies(before, app, names) &&
      after == before - Names(names[if keep <= |names| then keep else |names|..])
  }

  /** after is before without the first k of the copies to be pruned. */
  ghost predicate PartlyPruned(before: Listing, after: Listing, app: seq<Octet>, keep: nat, k: nat) {
    exists names :: ListsOwnCopies(before, app, names) && keep + k < |names| &&
      after == before - Names(names[keep..keep + k])
  }

  lemma FinalIsNotTemp(app: seq<Octet>, capsuleId: string, temp: string)
    requires TEMP_PREFIX <= temp
    ensures FinalName(app, capsuleId) != temp
  {
    hide AppNameSafe, FilenameSafe;
    AppNameSafeIsDotless(app);
    var name := FinalName(app, capsuleId);
    assert name[0] == AppNameSafe(app)[0];
    assert temp[0] == TEMP_PREFIX[0] == '.';
  }

  /** Pruning removes only the app's own copies, leaves at most keep of them, removes none
      unless keep stay, and every copy it leaves is at least as new as any it removes. */
  lemma PruningIsConservative(before: Listing, after: Listing, app: seq<Octet>, keep: nat)
    requires PrunedTo(before, after, app, keep)
    ensures after.Keys <= before.Keys
    ensures forall name :: name in after ==> after[name] == before[name]
    ensures forall name :: name in before && !OwnCopy(before, app, name) ==> name in after
    ensures |OwnCopies(after, app)| <= keep
    ensures after != before ==> |OwnCopies(after, app)| == keep
    ensures forall kept, gone | OwnCopy(after, app, kept) && gone in before && gone !in after ::
              before[kept].modified >= before[gone].modified
  {
    hide OwnName;
    var names :| ListsOwnCopies(before, app, names) &&
      after == before - Names(names[if keep <= |names| then keep else |names|..]);
    var n := if keep <= |names| then keep else |names|;
    KeptNames(before, after, app, names, n);
    CountNames(names[..n]);
    assert n == |names| ==> names[n..] == [];
    forall kept, gone | OwnCopy(after, app, kept) && gone in before && gone !in after
      ensures before[kept].modified >= before[gone].modified
    {
      assert kept in OwnCopies(after, app);
      OlderIsGone(before, app, names, n, kept, gone);
    }
  }

  /** Stopped on the way, pruning has removed exactly k of the app's own copies, more than
      keep remain, and the keep newest are among them. */
  lemma PartialPruningIsConservative(before: Listing, after: Listing, app: seq<Octet>, keep: nat, k: nat)
    returns (newest: set<string>)
    requires PartlyPruned(before, after, app, keep, k)
    ensures Fewer(before, after)
    ensures forall name :: name in before && name !in after ==> OwnCopy(before, app, name)
    ensures newest <= OwnCopies(after, app) && |newest| == keep
    ensures |OwnCopies(before, app)| == |OwnCopies(after, app)| + k && |OwnCopies(after, app)| > keep
    ensures forall kept, gone | kept in newest && gone in before && gone !in after ::
              kept in before && before[kept].modified >= before[gone].modified
  {
    hide ListsOwnCopies, OwnCopy, Names;
    var names :| ListsOwnCopies(before, app, names) && keep + k < |names| &&
      after == before - Names(names[keep..keep + k]);
    newest := Names(names[..keep]);
    CountParts(before, app, names, keep, k);
    PartIsGone(before, after, app, names, keep, k);
    forall kept, gone | kept in newest && gone in before && gone !in after
      ensures kept in before && before[kept].modified >= before[gone].modified
    {
      MiddleIsOlder(before, app, names, keep, k, kept, gone);
    }
  }

  lemma CountParts(before: Listing, app: seq<Octet>, names: seq<string>, keep: nat, k: nat)
    requires ListsOwnCopies(before, app, names) && keep + k < |names|
    ensures OwnCopies(before, app) == Names(names)
    ensures |Names(names)| == |names| && |Names(names[..keep])| == keep && |Names(names[keep..keep + k])| == k
  {
    hide OwnName;
    CountNames(names);
    CountNames(names[..keep]);
    CountNames(names[keep..keep + k]);
    forall name
      ensures name in OwnCopies(before, app) <==> name in names
    {
      assert name in names <==> OwnCopy(before, app, name);
    }
  }

  lemma InMiddle(names: seq<string>, m: nat, n: nat, name: string)
    requires m <= n <= |names| && Distinct(names)
    ensures name in names[m..n] ==> name in names && name in names[m..] && name !in names[..m]
  {
    if name in names[m..n] {
      var i :| 0 <= i < n - m && names[m..n][i] == name;
      assert names[m..][i] == name && names[m + i] == name;
      InOnePart(names, m, name);
    }
  }

  lemma PartIsGone(before: Listing, after: Listing, app: seq<Octet>, names: seq<string>, keep: nat, k: nat)
    requires ListsOwnCopies(before, app, names) && keep + k < |names|
    requires after == before - Names(names[keep..keep + k])
    ensures Fewer(before, after)
    ensures forall name :: name in before && name !in after ==> OwnCopy(before, app, name)
    ensures Names(names[..keep]) <= OwnCopies(after, app)
    ensures OwnCopies(after, app) == OwnCopies(before, app) - Names(names[keep..keep + k])
    ensures |OwnCopies(before, app)| == |OwnCopies(after, app)| + k
  {
    hide OwnName, Distinct;
    var gone := Names(names[keep..keep + k]);
    forall name
      ensures name in gone ==> name in OwnCopies(before, app) && OwnCopy(before, app, name)
      ensures name in names[..keep] ==> OwnCopy(before, app, name) && name !in gone
    {
      InMiddle(names, keep, keep + k, name);
      InOnePart(names, keep, name);
      assert name in names <==> OwnCopy(before, app, name);
    }
    CountParts(before, app, names, keep, k);
    assert OwnCopies(after, app) == OwnCopies(before, app) - gone;
    assert gone <= OwnCopies(before, app);
  }

  lemma MiddleIsOlder(before: Listing, app: seq<Octet>, names: seq<string>, keep: nat, k: nat,
                      kept: string, gone: string)
    requires ListsOwnCopies(before, app, names) && keep + k < |names|
    requires kept in Names(names[..keep]) && gone in Names(names[keep..keep + k])
    ensures kept in before && gone in before && before[kept].modified >= before[gone].modified
  {
    hide OwnName, Distinct;
    InMiddle(names, keep, keep + k, gone);
    InOnePart(names, keep, kept);
    assert kept in names && gone in names;
    assert OwnCopy(before, app, kept) && OwnCopy(before, app, gone);
    OlderIsGone(before, app, names, keep, kept, gone);
  }

  function OwnCopies(dir: Listing, app: seq<Octet>): set<string> {
    set name | name in dir && OwnCopy(dir, app, name)
  }

  lemma OlderIsGone(before: Listing, app: seq<Octet>, names: seq<string>, n: nat, kept: string, gone: string)
    requires ListsOwnCopies(before, app, names) && n <= |names|
    requires kept in names[..n] && gone in names[n..] && kept in before && gone in before
    ensures before[kept].modified >= before[gone].modified
  {
    hide OwnName;
    var i :| 0 <= i < n && names[..n][i] == kept;
    var j :| 0 <= j < |names| - n && names[n..][j] == gone;
    assert names[i] == kept && names[n + j] == gone;
  }

  lemma InOnePart(names: seq<string>, n: nat, name: string)
    requires n <= |names| && Distinct(names)
    ensures name in names <==> name in names[..n] || name in names[n..]
    ensures !(name in names[..n] && name in names[n..])
  {
    assert names == names[..n] + names[n..];
    if name in names[..n] {
      var i :| 0 <= i < n && names[..n][i] == name;
      forall j | 0 <= j < |names| - n
        ensures names[n..][j] != name
      {
        assert names[i] == name && names[n + j] == names[n..][j];
      }
    }
  }

  lemma KeptNames(before: Listing, after: Listing, app: seq<Octet>, names: seq<string>, n: nat)
    requires ListsOwnCopies(before, app, names) && n <= |names| && after == before - Names(names[n..])
    ensures OwnCopies(after, app) == Names(names[..n])
    ensures forall name :: name in before && name !in after <==> name in names[n..]
    ensures forall name :: name in names[n..] ==> OwnCopy(before, app, name)
  {
    hide OwnName, Distinct;
    forall name
      ensures name in OwnCopies(after, app) <==> name in names[..n]
      ensures name in before && name !in after <==> name in names[n..]
      ensures name in names[n..] ==> OwnCopy(before, app, name)
    {
      InOnePart(names, n, name);
      assert name in names <==> OwnCopy(before, app, name);
      assert name in Names(names[n..]) <==> name in names[n..];
    }
    assert forall name :: name in Names(names[..n]) <==> name in names[..n];
  }

  lemma {:induction false} CountNames(names: seq<string>)
    requires Distinct(names)
    ensures |Names(names)| == |names|
  {
    if names != [] {
      var front, last := names[..|names| - 1], names[|names| - 1];
      CountNames(front);
      assert names == front + [last];
      assert Names(names) == Names(front) + {last};
      assert last !in Names(front);
    }
  }

  lemma InsertedNames(names: seq<string>, k: nat, name: string)
    requires k <= |names|
    ensures forall n :: n in names[..k] + [name] + names[k..] <==> n in names || n == name
  {
    assert names == names[..k] + names[k..];
  }

  /** Where the elements of a list stand after one is put in at k. */
  lemma InsertedAt(names: seq<string>, k: nat, name: string, i: nat)
    requires k <= |names| && i <= |names|
    ensures
      var longer := names[..k] + [name] + names[k..];
      |longer| == |names| + 1 && longer[i] == if i < k then names[i] else if i == k then name else names[i - 1]
  {}

  lemma InsertedAreDistinct(names: seq<string>, k: nat, name: string)
    requires k <= |names| && Distinct(names) && name !in names
    ensures Distinct(names[..k] + [name] + names[k..])
  {
    var longer := names[..k] + [name] + names[k..];
    forall i, j | 0 <= i < j < |longer|
      ensures longer[i] != longer[j]
    {
      InsertedAt(names, k, name, i);
      InsertedAt(names, k, name, j);
    }
  }

  lemma InsertedAreSorted(dir: Listing, names: seq<string>, k: nat, name: string)
    requires k <= |names| && name in dir && forall n :: n in names ==> n in dir
    requires NewestFirst(dir, names)
    requires forall i :: 0 <= i < k ==> dir[names[i]].modified >= dir[name].modified
    requires k < |names| ==> dir[names[k]].modified < dir[name].modified
    ensures forall n :: n in names[..k] + [name] + names[k..] ==> n in dir
    ensures NewestFirst(dir, names[..k] + [name] + names[k..])
  {
    var longer := names[..k] + [name] + names[k..];
    InsertedNames(names, k, name);
    forall i, j | 0 <= i < j < |longer|
      ensures dir[longer[i]].modified >= dir[longer[j]].modified
    {
      InsertedAt(names, k, name, i);
      InsertedAt(names, k, name, j);
    }
  }

  /** Writing for one app leaves every other entry alone, except stale temporary files. */
  lemma ForeignEntriesStay(earlier: Listing, after: Listing, app: seq<Octet>, capsuleId: string, raw: seq<Octet>,
                           keep: nat, now: Time, stuck: set<string>, written: Time)
    requires PrunedTo(WithCopy(earlier, now, stuck, app, capsuleId, raw, written), after, app, keep)
    ensures forall name | name in earlier && !OwnCopy(earlier, app, name) && name != FinalName(app, capsuleId) &&
                          !StaleTemp(earlier, name, now) ::
              name in after && after[name] == earlier[name]
  {
    hide PrunedTo, OwnName, FinalName;
    var placed := WithCopy(earlier, now, stuck, app, capsuleId, raw, written);
    PruningIsConservative(placed, after, app, keep);
    forall name | name in earlier && !OwnCopy(earlier, app, name) && name != FinalName(app, capsuleId) &&
                  !StaleTemp(earlier, name, now)
      ensures name in after && after[name] == earlier[name]
    {
      assert placed[name] == earlier[name];
    }
  }

  /** In particular every other app's copies stay, whatever that app is called. */
  lemma OtherAppsStay(earlier: Listing, after: Listing, app: seq<Octet>, capsuleId: string, raw: seq<Octet>,
                      keep: nat, now: Time, stuck: set<string>, written: Time)
    requires PrunedTo(WithCopy(earlier, now, stuck, app, capsuleId, raw, written), after, app, keep)
    ensures forall other, name :: other != app && OwnCopy(earlier, other, name) ==>
              name in after && after[name] == earlier[name]
  {
    hide PrunedTo, FinalName, OwnName, WithCopy;
    ForeignEntriesStay(earlier, after, app, capsuleId, raw, keep, now, stuck, written);
    forall other, name | other != app && OwnCopy(earlier, other, name)
      ensures name in after && after[name] == earlier[name]
    {
      if OwnName(app, name) {
        OwnNamesAreApart(app, other, name);
      }
      ListedForExactlyOneApp(app, other, capsuleId);
      OwnNameIsNotTemp(other, name);
    }
  }

  lemma OwnNamesAreApart(a: seq<Octet>, b: seq<Octet>, name: string)
    requires OwnName(a, name) && OwnName(b, name)
    ensures a == b
  {
    PrefixIsExclusive(a, b, name);
  }

  /** A temporary file that a crash left, torn or whole, is gone after any write an hour later
      that removes what is stale and puts its copy in, however far it prunes. */
  lemma TornTempIsSwept(earlier: Listing, after: Listing, temp: string, torn: Entry, app: seq<Octet>,
                        capsuleId: string, raw: seq<Octet>, now: Time, written: Time)
    requires TEMP_PREFIX <= temp && !torn.isDir && now - torn.modified > STALE_TEMP
    requires Fewer(WithCopy(earlier[temp := torn], now, {}, app, capsuleId, raw, written), after)
    ensures temp !in after
  {
    hide FinalName;
    FinalIsNotTemp(app, capsuleId, temp);
  }

  lemma OwnNameIsNotTemp(app: seq<Octet>, name: string)
    requires OwnName(app, name)
    ensures !(TEMP_PREFIX <= name)
  {
    hide AppNameSafe;
    AppNameSafeIsDotless(app);
    assert name[0] == LocalPrefix(app)[0] == AppNameSafe(app)[0];
    assert name[0] != TEMP_PREFIX[0];
  }

  /** The copy just written survives its own pruning when it is strictly the newest. */
  lemma NewestCopySurvives(earlier: Listing, after: Listing, app: seq<Octet>, capsuleId: string, raw: seq<Octet>,
                           keep: nat, now: Time, stuck: set<string>, written: Time)
    requires keep >= 1
    requires PrunedTo(WithCopy(earlier, now, stuck, app, capsuleId, raw, written), after, app, keep)
    requires forall name :: OwnCopy(earlier, app, name) && name != FinalName(app, capsuleId) ==>
               earlier[name].modified < written
    ensures FinalName(app, capsuleId) in after
  {
    hide PrunedTo, FinalName, OwnName;
    var final := FinalName(app, capsuleId);
    var placed := WithCopy(earlier, now, stuck, app, capsuleId, raw, written);
    PruningIsConservative(placed, after, app, keep);
    if after != placed {
      assert |OwnCopies(after, app)| == keep;
      assert OwnCopies(after, app) != {};
      var kept :| kept in OwnCopies(after, app);
      assert OwnCopy(placed, app, kept);
      assert kept != final ==> OwnCopy(earlier, app, kept);
    }
  }
}
