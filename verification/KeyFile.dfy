/** A key file made on first boot: the three spellings, the guarded read, and any number of
    processes racing to create one file, any of which may fail or crash between file steps. */
module KeyFile {
  import opened Wrappers
  import opened Text
  import opened Base64

  datatype Encoding = Hex | Raw | Padded

  const MIN_SIZE := 16

  type Octets = seq<Octet>

  datatype Error = Unreadable | FileFailed | TooSmall | UnknownEncoding

  // ----- spelling a key

  function Characters(b: Octets): (s: string)
    ensures |s| == |b|
  {
    seq(|b|, i requires 0 <= i < |b| => b[i] as char)
  }

  /** The bytes of an ASCII text. */
  function AsciiBytes(s: string): (b: Octets)
    ensures |b| == |s|
  {
    seq(|s|, i requires 0 <= i < |s| => if s[i] as int < 256 then s[i] as int else 0)
  }

  function Encode(enc: Encoding, key: Octets): Octets {
    match enc
    case Raw => key
    case Padded => AsciiBytes(EncodePadded(key) + "\n")
    case Hex => AsciiBytes(EncodeHex(key) + "\n")
  }

  function Decode(enc: Encoding, content: Octets): Option<Octets> {
    match enc
    case Raw => Some(content)
    case Padded => DecodePadded(TrimSpace(Characters(content)))
    case Hex => DecodeHex(TrimSpace(Characters(content)))
  }

  /** What a read of an existing key file answers. */
  function ReadKey(enc: Encoding, size: nat, content: Octets): (r: Result<Octets, Error>)
    ensures r.Err? ==> r.error == Unreadable
    ensures r.Ok? ==> |r.value| == size && |content| <= 2 * size + 64
  {
    if |content| > 2 * size + 64 then Err(Unreadable)
    else
      match Decode(enc, content)
      case None => Err(Unreadable)
      case Some(key) => if |key| == size then Ok(key) else Err(Unreadable)
  }

  lemma CharactersOfAscii(s: string)
    requires forall i :: 0 <= i < |s| ==> s[i] as int < 256
    ensures Characters(AsciiBytes(s)) == s
  {}

  lemma TrimFinalNewline(s: string)
    requires s != [] && IsPlain(s[0]) && IsPlain(s[|s| - 1])
    ensures TrimSpace(s + "\n") == s
  {
    var newline := "\n";
    assert SpaceAtEnd(newline) == 1 && newline[..0] == [];
    assert TrimRight(newline) == [];
    TrimSpaceAround("", s, newline);
    assert "" + s + newline == s + newline;
  }

  lemma PaddedIsPlain(key: Octets)
    requires key != []
    ensures EncodePadded(key) != []
    ensures forall i :: 0 <= i < |EncodePadded(key)| ==> IsPlain(EncodePadded(key)[i])
    ensures |EncodePadded(key)| <= 2 * |key| + 4
  {
    hide EncodeRaw;
    RawIsPlain(key);
    SextetCount(key);
    RawLength(key);
  }

  lemma RawLength(key: Octets)
    ensures |EncodeRaw(key)| == |ToSextets(key)|
  {}

  /** Every spelling of a key reads back as that key, within the size the reader allows. */
  lemma ReadOfEncode(enc: Encoding, key: Octets)
    requires |key| >= MIN_SIZE
    ensures ReadKey(enc, |key|, Encode(enc, key)) == Ok(key)
  {
    hide EncodePadded, DecodePadded, EncodeHex, DecodeHex, TrimSpace;
    match enc
    case Raw =>
    case Padded =>
      PaddedIsPlain(key);
      CharactersOfAscii(EncodePadded(key) + "\n");
      TrimFinalNewline(EncodePadded(key));
      PaddedRoundTrip(key);
    case Hex =>
      var s := EncodeHex(key);
      assert forall i :: 0 <= i < |s| ==> IsLowerHex(s[i]);
      CharactersOfAscii(s + "\n");
      TrimFinalNewline(s);
      DecodeOfEncodeHex(key);
  }

  // ----- one caller alone

  /** The encodings are numbers to a caller. */
  function EncodingOf(number: int): Option<Encoding> {
    if number == 0 then Some(Hex) else if number == 1 then Some(Raw) else if number == 2 then Some(Padded) else None
  }

  /** A step of the durable write that fails, a failing write leaving some bytes behind. */
  datatype WriteFault = CreateFails | ContentsFail(written: nat) | SyncFails | LinkFails | DirSyncFails

  /** What goes wrong in a call: reading for a reason other than absence (permissions, owner
      and symlink checks included), making the directory, drawing the key, a step of the
      write, or reading the rival's file. */
  datatype Fault = ReadFails | MkdirFails | RandomFails | WriteFails(at: WriteFault) | RereadFails

  /** Whether the call gets as far as the link. */
  predicate ReachesLink(fault: Option<Fault>) {
    fault in {None, Some(RereadFails), Some(WriteFails(DirSyncFails))}
  }

  /** The final name, and a temporary file beside it while one is being written. */
  class Directory {
    var name: Option<Octets>
    var temp: Option<Octets>

    method Link() returns (ok: bool)
      requires temp.Some?
      modifies this`name
      ensures ok == old(name).None?
      ensures name == if ok then temp else old(name)
    {
      ok := name.None?;
      if ok {
        name := temp;
      }
    }

    /** The durable write: temporary file, contents, sync, link, directory sync, clean up. */
    method Write(enc: Encoding, key: Octets, fault: Option<WriteFault>) returns (error: Option<Error>, taken: bool)
      requires temp.None?
      modifies this
      ensures temp.None?
      ensures taken <==> old(name).Some? && fault in {None, Some(DirSyncFails)}
      ensures error == if taken || fault.Some? then Some(FileFailed) else None
      ensures name == if old(name).None? && fault in {None, Some(DirSyncFails)} then Some(Encode(enc, key))
                      else old(name)
    {
      if fault == Some(CreateFails) {
        return Some(FileFailed), false;
      }
      temp := Some([]);
      var text := Encode(enc, key);
      if fault.Some? && fault.value.ContentsFail? {
        temp := Some(text[..if fault.value.written < |text| then fault.value.written else |text|]);
        temp := None;
        return Some(FileFailed), false;
      }
      temp := Some(text);
      if fault == Some(SyncFails) || fault == Some(LinkFails) {
        temp := None;
        return Some(FileFailed), false;
      }
      var linked := Link();
      temp := None;
      if !linked {
        return Some(FileFailed), true;
      }
      if fault == Some(DirSyncFails) {
        return Some(FileFailed), false;
      }
      return None, false;
    }

    /** One whole call, with a rival file at most appearing between its read and its link: an
        existing file is only read, a new one appears whole or not at all, and no temporary
        file is left. */
    method LoadOrCreateEncoded(size: int, encoding: int, key: Octets, rival: Option<Octets>, fault: Option<Fault>)
      returns (r: Result<Octets, Error>)
      requires temp.None? && (size >= 0 ==> |key| == size)
      modifies this
      ensures temp.None?
      ensures size < 16 ==> r == Err(TooSmall) && name == old(name)
      ensures size >= 16 && EncodingOf(encoding).None? ==> r == Err(UnknownEncoding) && name == old(name)
      ensures size >= 16 && EncodingOf(encoding).Some? ==>
                var enc := EncodingOf(encoding).value;
                if fault == Some(ReadFails) then
                  r == Err(FileFailed) && name == old(name)
                else if old(name).Some? then
                  r == ReadKey(enc, size, old(name).value) && name == old(name)
                else if !ReachesLink(fault) then
                  r == Err(FileFailed) && name == rival
                else if rival.Some? then
                  && r == (if fault == Some(RereadFails) then Err(FileFailed) else ReadKey(enc, size, rival.value))
                  && name == rival
                else
                  && r == (if fault == Some(WriteFails(DirSyncFails)) then Err(FileFailed) else Ok(key))
                  && name == Some(Encode(enc, key))
    {
      hide Encode, ReadKey;
      if size < MIN_SIZE {
        return Err(TooSmall);
      }
      var enc := EncodingOf(encoding);
      if enc.None? {
        return Err(UnknownEncoding);
      }
      if fault == Some(ReadFails) {
        return Err(FileFailed);
      }
      if name.Some? {
        return ReadKey(enc.value, size, name.value);
      }
      name := rival;
      if fault == Some(MkdirFails) || fault == Some(RandomFails) {
        return Err(FileFailed);
      }
      var error, taken := Write(enc.value, key,
        if fault.Some? && fault.value.WriteFails? then Some(fault.value.at) else None);
      if taken {
        if fault == Some(RereadFails) {
          return Err(FileFailed);
        }
        return ReadKey(enc.value, size, name.value);
      }
      if error.Some? {
        return Err(error.value);
      }
      return Ok(key);
    }
  }

  // ----- the race

  /** Where a process stands in LoadOrCreateEncoded. From Writing to Cleaning its temporary
      file exists. */
  datatype Phase =
    | Start
    | Minting
    | Opening(key: Octets)
    | Writing(key: Octets, written: nat)
    | Syncing(key: Octets)
    | Linking(key: Octets)
    | SyncingDir(key: Octets)
    | Cleaning(outcome: Outcome)
    | Rereading
    | Returned(result: Result<Octets, Error>)
    | Crashed

  datatype Outcome = Created(key: Octets) | LostTheRace | Failed

  /** What the final name refers to. A link makes it the same file as a process's temporary
      one, so later writes to that would show through. */
  datatype Name = Absent | Earlier(content: Octets) | LinkTo(p: nat)

  /** files holds each process's temporary file. */
  datatype State = State(name: Name, files: seq<Octets>, phases: seq<Phase>)

  datatype Config = Config(enc: Encoding, size: nat)

  datatype Step =
    | FirstRead(p: nat)
    | Mint(p: nat, key: Octets)
    | CreateTemp(p: nat)
    | Write(p: nat, n: nat)
    | Sync(p: nat)
    | Link(p: nat)
    | SyncDir(p: nat)
    | RemoveTemp(p: nat)
    | Reread(p: nat)
    | Fail(p: nat)
    | Crash(p: nat)

  ghost predicate Enabled(c: Config, s: State, step: Step) {
    && step.p < |s.phases| == |s.files|
    && var phase := s.phases[step.p];
    match step
    case FirstRead(_) => phase == Start
    case Mint(_, key) => phase == Minting && |key| == c.size
    case CreateTemp(_) => phase.Opening?
    case Write(_, n) => phase.Writing? && phase.written <= n <= |Encode(c.enc, phase.key)|
    case Sync(_) => phase.Syncing?
    case Link(_) => phase.Linking?
    case SyncDir(_) => phase.SyncingDir?
    case RemoveTemp(_) => phase.Cleaning?
    case Reread(_) => phase == Rereading
    case Fail(_) =>
      || phase in {Start, Minting, Rereading} || phase.Opening? || phase.Writing? || phase.Syncing?
      || phase.Linking? || phase.SyncingDir?
    case Crash(_) => !phase.Returned? && phase != Crashed
  }

  /** The bytes under the final name. */
  function Content(s: State): Option<Octets> {
    match s.name
    case Absent => None
    case Earlier(content) => Some(content)
    case LinkTo(p) => if p < |s.files| then Some(s.files[p]) else None
  }

  function ReadPath(c: Config, s: State): Result<Octets, Error>
  {
    match Content(s)
    case None => Err(FileFailed)
    case Some(content) => ReadKey(c.enc, c.size, content)
  }

  function Moved(s: State, p: nat, phase: Phase): State
    requires p < |s.phases|
  {
    s.(phases := s.phases[p := phase])
  }

  ghost function Apply(c: Config, s: State, step: Step): State
    requires Enabled(c, s, step)
  {
    var p := step.p;
    var phase := s.phases[p];
    match step
    case FirstRead(_) => if s.name == Absent then Moved(s, p, Minting) else Moved(s, p, Returned(ReadPath(c, s)))
    case Mint(_, key) => Moved(s, p, Opening(key))
    case CreateTemp(_) => Moved(s, p, Writing(phase.key, 0)).(files := s.files[p := []])
    case Write(_, n) =>
      var text := Encode(c.enc, phase.key);
      Moved(s, p, if n == |text| then Syncing(phase.key) else Writing(phase.key, n))
        .(files := s.files[p := s.files[p] + text[phase.written..n]])
    case Sync(_) => Moved(s, p, Linking(phase.key))
    case Link(_) =>
      if s.name == Absent then Moved(s, p, SyncingDir(phase.key)).(name := LinkTo(p))
      else Moved(s, p, Cleaning(LostTheRace))
    case SyncDir(_) => Moved(s, p, Cleaning(Created(phase.key)))
    case RemoveTemp(_) =>
      Moved(s, p,
        match phase.outcome
        case Created(key) => Returned(Ok(key))
        case LostTheRace => Rereading
        case Failed => Returned(Err(FileFailed)))
    case Reread(_) => Moved(s, p, Returned(ReadPath(c, s)))
    case Fail(_) =>
      Moved(s, p, if phase in {Start, Minting, Rereading} || phase.Opening? then Returned(Err(FileFailed))
        else Cleaning(Failed))
    case Crash(_) => Moved(s, p, Crashed)
  }

  // ----- what every run keeps

  /** Past the link, or never going to make one: nothing more is written by this process. */
  predicate DoneWriting(phase: Phase) {
    phase.SyncingDir? || phase.Cleaning? || phase == Rereading || phase.Returned? || phase == Crashed
  }

  /** A temporary file holds what has been written so far, all of it once writing is over. */
  ghost predicate FileInStep(c: Config, file: Octets, phase: Phase) {
    match phase
    case Opening(key) => |key| == c.size
    case Writing(key, written) =>
      |key| == c.size && written <= |Encode(c.enc, key)| && file == Encode(c.enc, key)[..written]
    case Syncing(key) => |key| == c.size && file == Encode(c.enc, key)
    case Linking(key) => |key| == c.size && file == Encode(c.enc, key)
    case _ => true
  }

  /** The final name is absent, an earlier file, or the whole spelling of one key. */
  ghost predicate NameIsWhole(c: Config, s: State) {
    s.name.LinkTo? ==>
      && s.name.p < |s.files| == |s.phases|
      && DoneWriting(s.phases[s.name.p])
      && exists key: Octets :: |key| == c.size && s.files[s.name.p] == Encode(c.enc, key)
  }

  /** What a process says agrees with what is under the final name. */
  ghost predicate Honest(c: Config, s: State, phase: Phase)
    requires NameIsWhole(c, s)
  {
    match phase
    case SyncingDir(key) => s.name != Absent && ReadPath(c, s) == Ok(key)
    case Cleaning(Created(key)) => s.name != Absent && ReadPath(c, s) == Ok(key)
    case Cleaning(LostTheRace) => s.name != Absent
    case Rereading => s.name != Absent
    case Returned(Ok(key)) => s.name != Absent && ReadPath(c, s) == Ok(key)
    case Returned(Err(TooSmall)) => false
    case Returned(Err(UnknownEncoding)) => false
    case Returned(Err(Unreadable)) => s.name.Earlier? && ReadPath(c, s) == Err(Unreadable)
    case _ => true
  }

  ghost predicate Inv(c: Config, s: State) {
    && c.size >= MIN_SIZE && |s.files| == |s.phases|
    && NameIsWhole(c, s)
    && forall p :: 0 <= p < |s.phases| ==> FileInStep(c, s.files[p], s.phases[p]) && Honest(c, s, s.phases[p])
  }

  ghost predicate Init(c: Config, s: State) {
    && c.size >= MIN_SIZE && |s.files| == |s.phases| && !s.name.LinkTo?
    && forall p :: 0 <= p < |s.phases| ==> s.phases[p] == Start
  }

  /** A step never changes bytes already under the final name, and never takes them away. */
  lemma StepKeepsContent(c: Config, s: State, step: Step)
    requires Inv(c, s) && Enabled(c, s, step)
    ensures NameIsWhole(c, Apply(c, s, step))
    ensures s.name != Absent ==> Content(Apply(c, s, step)) == Content(s)
  {
    hide Encode, ReadKey;
    assert FileInStep(c, s.files[step.p], s.phases[step.p]);
  }

  lemma WholeNameReads(c: Config, s: State)
    requires c.size >= MIN_SIZE && NameIsWhole(c, s) && s.name.LinkTo?
    ensures ReadPath(c, s).Ok?
    ensures forall key: Octets :: |key| == c.size && s.files[s.name.p] == Encode(c.enc, key) ==>
              ReadPath(c, s) == Ok(key)
  {
    hide Encode, ReadKey;
    forall key: Octets | |key| == c.size && s.files[s.name.p] == Encode(c.enc, key)
      ensures ReadPath(c, s) == Ok(key)
    {
      ReadOfEncode(c.enc, key);
    }
  }

  lemma HonestSurvives(c: Config, s: State, t: State, phase: Phase)
    requires NameIsWhole(c, s) && NameIsWhole(c, t) && Honest(c, s, phase)
    requires s.name != Absent ==> t.name == s.name && Content(t) == Content(s)
    ensures Honest(c, t, phase)
  {
    hide NameIsWhole, ReadKey;
  }

  lemma StepKeepsOwnFile(c: Config, s: State, step: Step)
    requires Enabled(c, s, step) && FileInStep(c, s.files[step.p], s.phases[step.p])
    ensures FileInStep(c, Apply(c, s, step).files[step.p], Apply(c, s, step).phases[step.p])
  {
    hide Encode, ReadKey;
    if step.Write? {
      var text := Encode(c.enc, s.phases[step.p].key);
      assert text[..step.n] == text[..s.phases[step.p].written] + text[s.phases[step.p].written..step.n];
      assert text[..|text|] == text;
    }
  }

  lemma StepIsHonest(c: Config, s: State, step: Step)
    requires Inv(c, s) && Enabled(c, s, step)
    ensures
      var t := Apply(c, s, step);
      && NameIsWhole(c, t)
      && FileInStep(c, t.files[step.p], t.phases[step.p])
      && Honest(c, t, t.phases[step.p])
  {
    hide Encode, ReadKey, NameIsWhole, Content, ReadPath;
    StepKeepsContent(c, s, step);
    StepKeepsOwnFile(c, s, step);
    var t := Apply(c, s, step);
    assert FileInStep(c, s.files[step.p], s.phases[step.p]) && Honest(c, s, s.phases[step.p]);
    SameReading(c, s, t);
    ReadingFails(c, s);
    if t.name.LinkTo? {
      WholeNameReads(c, t);
      LinkedInRange(c, t);
    }
  }

  lemma LinkedInRange(c: Config, s: State)
    requires NameIsWhole(c, s) && s.name.LinkTo?
    ensures s.name.p < |s.files|
  {}

  lemma ReadingFails(c: Config, s: State)
    requires NameIsWhole(c, s)
    ensures s.name != Absent && ReadPath(c, s).Err? ==> ReadPath(c, s).error == Unreadable
  {
    hide Encode;
  }

  lemma SameReading(c: Config, s: State, t: State)
    requires s.name != Absent ==> Content(t) == Content(s)
    ensures s.name != Absent ==> ReadPath(c, t) == ReadPath(c, s)
    ensures s.name == Absent ==> ReadPath(c, s) == Err(FileFailed)
  {}

  lemma StepKeepsInv(c: Config, s: State, step: Step)
    requires Inv(c, s) && Enabled(c, s, step)
    ensures Inv(c, Apply(c, s, step))
  {
    hide Encode, ReadKey, Honest, FileInStep;
    StepKeepsContent(c, s, step);
    StepIsHonest(c, s, step);
    var t := Apply(c, s, step);
    forall q | 0 <= q < |t.phases|
      ensures FileInStep(c, t.files[q], t.phases[q]) && Honest(c, t, t.phases[q])
    {
      if q != step.p {
        assert t.files[q] == s.files[q] && t.phases[q] == s.phases[q];
        HonestSurvives(c, s, t, s.phases[q]);
      }
    }
  }

  // ----- over whole runs

  ghost predicate IsRun(c: Config, s: State, steps: seq<Step>)
    decreases |steps|
  {
    steps == [] || (Enabled(c, s, steps[0]) && IsRun(c, Apply(c, s, steps[0]), steps[1..]))
  }

  ghost function After(c: Config, s: State, steps: seq<Step>): State
    requires IsRun(c, s, steps)
    decreases |steps|
  {
    if steps == [] then s else After(c, Apply(c, s, steps[0]), steps[1..])
  }

  /** Whatever fails or crashes, bytes once under the final name stay there unchanged. */
  lemma {:induction false} RunsKeepContent(c: Config, s: State, steps: seq<Step>)
    requires Inv(c, s) && IsRun(c, s, steps)
    ensures Inv(c, After(c, s, steps))
    ensures s.name != Absent ==> Content(After(c, s, steps)) == Content(s)
    ensures s.name != Absent ==> After(c, s, steps).name == s.name
    ensures s.name == Absent ==> !After(c, s, steps).name.Earlier?
    ensures |After(c, s, steps).phases| == |s.phases|
    decreases |steps|
  {
    hide Encode, ReadKey, FileInStep, Honest, NameIsWhole;
    if steps != [] {
      StepKeepsInv(c, s, steps[0]);
      StepKeepsName(c, s, steps[0]);
      RunsKeepContent(c, Apply(c, s, steps[0]), steps[1..]);
    }
  }

  lemma StepKeepsName(c: Config, s: State, step: Step)
    requires Inv(c, s) && Enabled(c, s, step)
    ensures s.name != Absent ==> Apply(c, s, step).name == s.name && Content(Apply(c, s, step)) == Content(s)
    ensures s.name == Absent ==> !Apply(c, s, step).name.Earlier?
    ensures |Apply(c, s, step).phases| == |s.phases|
  {
    hide Encode, ReadKey, FileInStep;
    StepKeepsContent(c, s, step);
  }

  /** Processes racing on an absent path leave it absent or holding one complete key, every
      call that returns a key returns that one, and none is told the file is unreadable. */
  lemma OneKeyForEveryone(c: Config, s: State, steps: seq<Step>)
    requires Init(c, s) && s.name == Absent && IsRun(c, s, steps)
    ensures
      var t := After(c, s, steps);
      && (t.name == Absent || exists key: Octets :: |key| == c.size && Content(t) == Some(Encode(c.enc, key)))
      && forall p, q | 0 <= p < |t.phases| && 0 <= q < |t.phases| && t.phases[p].Returned? ::
           && t.phases[p].result != Err(Unreadable)
           && (t.phases[p].result.Ok? ==> ReadPath(c, t) == t.phases[p].result)
           && (t.phases[p].result.Ok? && t.phases[q].Returned? && t.phases[q].result.Ok? ==>
                 t.phases[q].result == t.phases[p].result)
  {
    hide Encode, ReadKey;
    RunsKeepContent(c, s, steps);
    var t := After(c, s, steps);
    forall p | 0 <= p < |t.phases|
      ensures Honest(c, t, t.phases[p])
    {}
  }

  /** A file that was there first is never replaced, and every answer is about it. */
  lemma EarlierFileStays(c: Config, s: State, steps: seq<Step>, p: nat)
    requires Init(c, s) && s.name.Earlier? && IsRun(c, s, steps)
    requires p < |After(c, s, steps).phases| && After(c, s, steps).phases[p].Returned?
    ensures Content(After(c, s, steps)) == Some(s.name.content)
    ensures
      var result := After(c, s, steps).phases[p].result;
      result != Err(FileFailed) ==> result == ReadKey(c.enc, c.size, s.name.content)
  {
    hide Encode, ReadKey;
    RunsKeepContent(c, s, steps);
    var t := After(c, s, steps);
    assert Honest(c, t, t.phases[p]);
  }
}
