/** Stored password hashes against the derivation budgets that verifying them draws on. */
module HashAdmission {
  import opened Wrappers
  import opened Text
  import opened Base64
  import opened Phc
  import AdmissionQueue
  import AdmissionOutcomes

  /** The parameter segments that are accepted, in full: three numbers without leading zeros,
      8 to 256 MiB, one to ten passes and one to sixteen lanes. */
  lemma SegmentsInFull(segment: string, p: Params)
    ensures ParseParams(segment) == Some(p) <==>
              && 8192 <= p.memory <= 262_144 && 1 <= p.time <= 10 && 1 <= p.threads <= 16
              && segment == "m=" + FormatNat(p.memory) + ",t=" + FormatNat(p.time) + ",p=" + FormatNat(p.threads)
  {
    hide FormatNat, ParseParams, Segment;
    ParamsAcceptedExactly(segment, p);
    SegmentSpells(p);
  }

  lemma SegmentSpells(p: Params)
    ensures Segment(p) == "m=" + FormatNat(p.memory) + ",t=" + FormatNat(p.time) + ",p=" + FormatNat(p.threads)
  {
    hide FormatNat;
    var f := ParamFields(p);
    assert f[1..][1..] == f[2..];
    assert Join(f[2..], ',') == f[2];
    assert Join(f[1..], ',') == f[1] + "," + f[2];
    assert Join(f, ',') == f[0] + "," + (f[1] + "," + f[2]);
  }

  /** The stored hashes that are accepted, in full. */
  lemma HashesInFull(encoded: string, p: Params, salt: seq<Octet>, key: seq<Octet>)
    ensures Parse(encoded) == Some((p, salt, key)) <==>
              && 8192 <= p.memory <= 262_144 && 1 <= p.time <= 10 && 1 <= p.threads <= 16
              && 8 <= |salt| <= 1024 && 16 <= |key| <= 1024
              && exists saltText, keyText ::
                   && HashText(p, saltText, keyText) == encoded
                   && DecodeRaw(saltText) == Some(salt) && DecodeRaw(keyText) == Some(key)
  {
    hide Parse, DecodeRaw, HashText, Segment, IsStored;
    ParseAcceptsExactly(encoded, p, salt, key);
    forall saltText, keyText
      ensures IsStored(encoded, p, saltText, keyText) <==> HashText(p, saltText, keyText) == encoded
    {
      TextOfStored(encoded, p, saltText, keyText);
    }
  }

  ghost function HashText(p: Params, saltText: string, keyText: string): string {
    "$argon2id$v=19$"
    + ("m=" + FormatNat(p.memory) + ",t=" + FormatNat(p.time) + ",p=" + FormatNat(p.threads))
    + "$" + saltText + "$" + keyText
  }

  lemma TextOfStored(encoded: string, p: Params, saltText: string, keyText: string)
    ensures IsStored(encoded, p, saltText, keyText) <==> HashText(p, saltText, keyText) == encoded
  {
    hide FormatNat, Segment;
    SegmentSpells(p);
    assert "$argon2id$" + VERSION_SEGMENT + "$" == "$argon2id$v=19$";
  }

  /** Whatever hash the store holds, verifying it never asks for more than the whole budget:
      its derivation is refused only when its timer fires. */
  lemma StoredHashesAreAdmissible(encoded: string, s: AdmissionQueue.State, steps: seq<AdmissionQueue.Step>, i: nat)
    requires Parse(encoded).Some? && AdmissionQueue.Init(s) && AdmissionQueue.IsRun(s, steps)
    requires i < |s.callers|
    requires s.callers[i].kib == Parse(encoded).value.0.memory && s.callers[i].lanes == Parse(encoded).value.0.threads
    ensures |AdmissionQueue.After(s, steps).callers| == |s.callers|
    ensures AdmissionQueue.After(s, steps).callers[i].phase == AdmissionQueue.Finished(AdmissionQueue.Busy) ==>
              AdmissionOutcomes.TimesOut(steps, i)
  {
    hide Parse, AdmissionQueue.IsRun, AdmissionQueue.After, AdmissionQueue.Init, AdmissionOutcomes.TimesOut;
    var (p, salt, key) := Parse(encoded).value;
    var saltText, keyText := ParseAcceptsOnly(encoded, p, salt, key);
    AdmissionOutcomes.OutcomesAreEarned(s, steps, i);
  }
}
