/** From a secret to custodian cards and back. */
module CardRecovery {
  import opened Wrappers
  import opened Gf256
  import opened Polynomial
  import opened Sequences
  import opened Shamir
  import opened ShamirCombine
  import opened ShareCard
  import opened Text

  /** A card as a custodian types it: what was printed, with or without space around it. */
  ghost predicate TypedFrom(sha: Sha256, card: string, s: Share) {
    exists before, after :: TrimLeft(before) == [] && TrimRight(after) == [] && card == before + Print(sha, s) + after
  }

  /** Any threshold or more of the cards printed for one split, in any order, are read, are
      accepted together, and give the secret back. */
  lemma CardsGiveTheSecretBack(sha: Sha256, shares: seq<Share>, secret: seq<Byte>, threshold: int, setId: SetId,
                               polys: seq<Poly>, chosen: seq<Share>, cards: seq<string>)
    requires IsSplit(shares, secret, threshold, setId, polys)
    requires DrawnFrom(chosen, shares) && |chosen| >= threshold && |cards| == |chosen|
    requires forall i :: 0 <= i < |cards| ==> TypedFrom(sha, cards[i], chosen[i])
    ensures forall i :: 0 <= i < |cards| ==> ParseShare(sha, cards[i]) == Ok(chosen[i])
    ensures Consistent(chosen) && Reconstruct(chosen) == secret
  {
    hide IsSplit, Print, ParseShare, Reconstruct, Consistent, Distinct;
    QuorumReconstructs(shares, secret, threshold, setId, polys, chosen);
    forall i | 0 <= i < |cards|
      ensures ParseShare(sha, cards[i]) == Ok(chosen[i])
    {
      assert chosen[i] in chosen;
      var j :| 0 <= j < |shares| && shares[j] == chosen[i];
      SplitSharesPrint(shares, secret, threshold, setId, polys, j);
      var before, after :| TrimLeft(before) == [] && TrimRight(after) == [] &&
                           cards[i] == before + Print(sha, chosen[i]) + after;
      ParseOfPrint(sha, chosen[i], before, after);
    }
  }
}
