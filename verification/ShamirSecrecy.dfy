/** What Split can deal, and so what a set of shares one short of the threshold leaves open. */
module ShamirSecrecy {
  import opened Gf256
  import opened Polynomial
  import opened Sequences
  import opened Interpolation
  import opened Shamir
  import opened ShamirCombine

  predicate AllAdmissible(polys: seq<Poly>, secret: seq<Byte>, threshold: int) {
    |polys| == |secret| && forall b :: 0 <= b < |secret| ==> Admissible(polys[b], secret[b], threshold)
  }

  lemma {:induction false} NothingDropped(draws: seq<seq<Byte>>)
    requires forall d :: d in draws ==> LastIsNotZero(d)
    ensures Kept(draws) == draws
  {
    if draws != [] {
      NothingDropped(draws[1..]);
      assert draws[0] in draws && [draws[0]] + draws[1..] == draws;
    }
  }

  /** Every choice of admissible polynomials is dealt for some random tape: the draws that
      Split keeps are all those that do not lower a degree. */
  lemma EveryChoiceIsDealt(polys: seq<Poly>, secret: seq<Byte>, threshold: int) returns (draws: seq<seq<Byte>>)
    requires AllAdmissible(polys, secret, threshold)
    ensures forall d :: d in draws ==> |d| == threshold - 1
    ensures |Kept(draws)| >= |secret| && Polynomials(secret, draws) == polys
  {
    draws := seq(|polys|, b requires 0 <= b < |polys| => polys[b][1..]);
    forall d | d in draws
      ensures |d| == threshold - 1 && LastIsNotZero(d)
    {
      var b :| 0 <= b < |polys| && draws[b] == d;
      assert Admissible(polys[b], secret[b], threshold);
    }
    NothingDropped(draws);
    forall b | 0 <= b < |secret|
      ensures Polynomials(secret, draws)[b] == polys[b]
    {
      assert Admissible(polys[b], secret[b], threshold);
      assert [polys[b][0]] + polys[b][1..] == polys[b];
    }
  }

  /** No byte of the guess is the one byte that the sum over these shares rules out. */
  ghost predicate Open(chosen: seq<Share>, guess: seq<Byte>) {
    forall b | 0 <= b < |guess| ::
      (forall i :: 0 <= i < |chosen| ==> b < |chosen[i].value|) &&
      guess[b] != Lagrange(Indices(chosen), Column(chosen, b), 0)
  }

  /** The shares that these polynomials give. */
  ghost function Dealt(n: nat, secret: seq<Byte>, threshold: int, setId: SetId, polys: seq<Poly>): (shares: seq<Share>)
    requires 2 <= threshold <= n <= 255 && 1 <= |secret| <= MAX_SECRET_BYTES
    requires AllAdmissible(polys, secret, threshold)
    ensures IsSplit(shares, secret, threshold, setId, polys) && |shares| == n
  {
    seq(n, i requires 0 <= i < n =>
      Share(threshold, setId, IndexAt(i), seq(|polys|, b requires 0 <= b < |polys| => Eval(polys[b], IndexAt(i)))))
  }

  /** A secret, a threshold and the polynomials leave nothing of a split open. */
  lemma SplitIsDetermined(a: seq<Share>, b: seq<Share>, secret: seq<Byte>, threshold: int, setId: SetId,
                          polys: seq<Poly>)
    requires IsSplit(a, secret, threshold, setId, polys) && IsSplit(b, secret, threshold, setId, polys)
    requires |a| == |b|
    ensures a == b
  {
    hide Eval, IndexAt, Admissible;
    forall i | 0 <= i < |a|
      ensures a[i] == b[i]
    {
      forall k | 0 <= k < |secret|
        ensures a[i].value[k] == b[i].value[k]
      {
        assert a[i].value[k] == Eval(polys[k], IndexAt(i)) && b[i].value[k] == Eval(polys[k], IndexAt(i));
      }
      assert a[i].value == b[i].value;
    }
  }

  /** One share short, every secret of the same length that differs from the sum at each byte
      stays possible: for some random tape the shares that Split deals for it include those
      very ones. */
  lemma EveryOpenSecretIsPossible(shares: seq<Share>, secret: seq<Byte>, threshold: int, setId: SetId,
                                  polys: seq<Poly>, chosen: seq<Share>, guess: seq<Byte>)
    returns (draws: seq<seq<Byte>>, other: seq<Share>)
    requires IsSplit(shares, secret, threshold, setId, polys)
    requires DrawnFrom(chosen, shares) && |chosen| == threshold - 1
    requires |guess| == |secret| && Open(chosen, guess)
    ensures forall d :: d in draws ==> |d| == threshold - 1
    ensures |Kept(draws)| >= |guess|
    ensures IsSplit(other, guess, threshold, setId, Polynomials(guess, draws)) && |other| == |shares|
    ensures forall s :: s in chosen ==> s in other
  {
    hide Eval, Lagrange, Interpolant, IndexAt, Kept, Polynomials, Admissible;
    var xs := Indices(chosen);
    ChosenShares(shares, secret, threshold, setId, polys, chosen);
    var guessed := seq(|guess|, b requires 0 <= b < |guess| => Interpolant(xs + [0], Column(chosen, b) + [guess[b]]));
    forall b | 0 <= b < |guess|
      ensures Admissible(guessed[b], guess[b], threshold) && Through(guessed[b], xs, Column(chosen, b))
    {
      OpenByteHasAPolynomial(xs, Column(chosen, b), guess[b]);
    }
    draws := EveryChoiceIsDealt(guessed, guess, threshold);
    other := Dealt(|shares|, guess, threshold, setId, guessed);
    forall s | s in chosen
      ensures s in other
    {
      var i :| 0 <= i < |chosen| && chosen[i] == s;
      SameShareDealt(shares, secret, threshold, setId, polys, chosen, other, guess, guessed, i);
    }
  }

  lemma SameShareDealt(shares: seq<Share>, secret: seq<Byte>, threshold: int, setId: SetId, polys: seq<Poly>,
                       chosen: seq<Share>, other: seq<Share>, guess: seq<Byte>, guessed: seq<Poly>, i: nat)
    requires IsSplit(shares, secret, threshold, setId, polys) && IsSplit(other, guess, threshold, setId, guessed)
    requires i < |chosen| && chosen[i] in shares && |other| == |shares| && |guess| == |secret|
    requires forall k :: 0 <= k < |chosen| ==> |chosen[k].value| == |guess|
    requires forall b :: 0 <= b < |guess| ==> Through(guessed[b], Indices(chosen), Column(chosen, b))
    ensures chosen[i] in other
  {
    hide Eval, IndexAt, Admissible;
    var j :| 0 <= j < |shares| && shares[j] == chosen[i];
    forall b | 0 <= b < |guess|
      ensures other[j].value[b] == chosen[i].value[b]
    {
      assert Eval(guessed[b], Indices(chosen)[i]) == Column(chosen, b)[i];
    }
    assert other[j] == chosen[i];
  }
}
