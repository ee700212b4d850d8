/** The names of local copies, character by character, and which names each operation of the
    directory they share touches. */
module LocalNames {
  import opened Wrappers
  import opened Text
  import opened Encodings
  import opened LocalCopies

  const SAFE := SMALLS + CAPITALS + DIGITS + "-"

  // ----- app names

  lemma SafeExactly(c: Octet)
    ensures IsSafe(c) <==> c as char in SAFE
  {
    SafeSmalls(c as char);
    SafeCapitals(c as char);
    IsDigitExactly(c as char);
  }

  lemma SafeSmalls(c: char)
    ensures 'a' <= c <= 'z' <==> c in SMALLS
  {
    if 'a' <= c <= 'z' {
      SmallExactly(c as int - 'a' as int);
      assert SMALLS[c as int - 'a' as int] == c;
    }
  }

  lemma SafeCapitals(c: char)
    ensures 'A' <= c <= 'Z' <==> c in CAPITALS
  {
    if 'A' <= c <= 'Z' {
      CapitalExactly(c as int - 'A' as int);
      assert CAPITALS[c as int - 'A' as int] == c;
    }
  }

  /** Letters, digits and dashes stand for themselves, every other byte for an underscore and
      two digits. */
  lemma EscapedByte(c: Octet)
    ensures EscapeByte(c) == if c as char in SAFE then [c as char] else "_" + [LOWER[c / 16], LOWER[c % 16]]
  {
    hide IsSafe;
    SafeExactly(c);
    HexCharExactly(c / 16);
    HexCharExactly(c % 16);
  }

  lemma EscapeFirst(c: Octet, b: seq<Octet>)
    ensures Escape([]) == [] && Escape([c] + b) == EscapeByte(c) + Escape(b)
  {
    hide EscapeByte;
    assert ([c] + b)[1..] == b;
  }

  /** Escapes are put one after another, byte by byte, and only the empty name becomes a bare
      underscore. */
  lemma {:induction false} EscapesOneByOne(a: seq<Octet>, b: seq<Octet>, c: Octet)
    ensures Escape(a + b) == Escape(a) + Escape(b) && Escape([c]) == EscapeByte(c)
    ensures AppNameSafe([]) == "_" && (a != [] ==> AppNameSafe(a) == Escape(a))
  {
    hide EscapeByte, Escape;
    EscapeFirst(c, []);
    assert [c] + [] == [c] && EscapeByte(c) + [] == EscapeByte(c);
    if a == [] {
      assert a + b == b && [] + Escape(b) == Escape(b);
    } else {
      var rest := a[1..];
      EscapesOneByOne(rest, b, c);
      EscapeFirst(a[0], rest);
      EscapeFirst(a[0], rest + b);
      assert a == [a[0]] + rest && a + b == [a[0]] + (rest + b);
      Associates(EscapeByte(a[0]), Escape(rest), Escape(b));
    }
  }

  // ----- file names

  predicate Keeps(c: char) {
    c in SMALLS || c in CAPITALS || c in DIGITS || c == '.' || c == '_' || c == '-'
  }

  /** Of an identifier, letters, digits, dots, underscores and dashes stay and every other
      character becomes a dash. */
  lemma FilenameSafeExactly(s: string, i: nat)
    requires i < |s|
    ensures FilenameSafe(s)[i] == if Keeps(s[i]) then s[i] else '-'
  {
    SafeSmalls(s[i]);
    SafeCapitals(s[i]);
    IsDigitExactly(s[i]);
  }

  /** Two copies have one name exactly when they are of one app and their identifiers agree,
      character by character, on everything that is kept. */
  lemma SameNameExactly(a: seq<Octet>, x: string, b: seq<Octet>, y: string)
    ensures FinalName(a, x) == FinalName(b, y) <==>
              && a == b && |x| == |y|
              && forall i :: 0 <= i < |x| ==> x[i] == y[i] || (!KeepsAsIs(x[i]) && !KeepsAsIs(y[i]))
  {
    hide AppNameSafe, FilenameSafe, KeepsAsIs;
    var name, other := FinalName(a, x), FinalName(b, y);
    if name == other {
      assert LocalPrefix(a) <= name && LocalPrefix(b) <= name;
      PrefixIsExclusive(a, b, name);
      assert name[|LocalPrefix(a)|..|name| - |SUFFIX|] == FilenameSafe(x);
      assert name[|LocalPrefix(a)|..|name| - |SUFFIX|] == FilenameSafe(y);
    }
    if a == b && |x| == |y| {
      SameSafe(x, y);
    }
  }

  predicate KeepsAsIs(c: char) {
    Keeps(c) && c != '-'
  }

  lemma SameSafe(x: string, y: string)
    requires |x| == |y|
    ensures FilenameSafe(x) == FilenameSafe(y) <==>
              forall i :: 0 <= i < |x| ==> x[i] == y[i] || (!KeepsAsIs(x[i]) && !KeepsAsIs(y[i]))
  {
    hide FilenameSafe, Keeps;
    forall i | 0 <= i < |x|
      ensures FilenameSafe(x)[i] == FilenameSafe(y)[i] <==>
                x[i] == y[i] || (!KeepsAsIs(x[i]) && !KeepsAsIs(y[i]))
    {
      FilenameSafeExactly(x, i);
      FilenameSafeExactly(y, i);
    }
    if FilenameSafe(x) == FilenameSafe(y) {
      forall i | 0 <= i < |x|
        ensures x[i] == y[i] || (!KeepsAsIs(x[i]) && !KeepsAsIs(y[i]))
      {
        assert FilenameSafe(x)[i] == FilenameSafe(y)[i];
      }
    }
  }

  /** In particular identifiers made of kept characters never share a file name. */
  lemma KeptIdsNeverMeet(app: seq<Octet>, x: string, y: string)
    requires (forall i :: 0 <= i < |x| ==> Keeps(x[i])) && (forall i :: 0 <= i < |y| ==> Keeps(y[i]))
    requires FinalName(app, x) == FinalName(app, y)
    ensures x == y
  {
    hide FinalName, Keeps;
    SameNameExactly(app, x, app, y);
  }

  /** A name is listed for an app exactly when it begins with the escaped app and a dot and
      ends in .kycap; the two may share that dot. */
  lemma OwnNameExactly(app: seq<Octet>, name: string)
    ensures OwnName(app, name) <==>
              (exists x :: name == AppNameSafe(app) + "." + x) && (exists y :: name == y + ".kycap")
  {
    hide AppNameSafe;
    var prefix := AppNameSafe(app) + ".";
    if prefix <= name {
      assert name == AppNameSafe(app) + "." + name[|prefix|..];
    }
    if LocalCopies.EndsWith(name, SUFFIX) {
      assert name == name[..|name| - 6] + ".kycap";
    }
  }

  /** The sweep takes a file exactly when its name begins with .kycap-, it is over an hour old
      and its removal does not fail; whatever it leaves stays as it was. */
  lemma SweptExactly(dir: Listing, now: Time, stuck: set<string>, name: string)
    requires name in dir
    ensures name !in Swept(dir, now, stuck) <==>
              && !dir[name].isDir && |name| >= 7 && name[..7] == ".kycap-"
              && now - dir[name].modified > 60 * 60 * 1_000_000_000
              && name !in stuck
    ensures name in Swept(dir, now, stuck) ==> Swept(dir, now, stuck)[name] == dir[name]
  {
    assert TEMP_PREFIX <= name <==> |name| >= 7 && name[..7] == ".kycap-";
  }
}
