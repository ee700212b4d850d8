/** Combining shares: the refusals, the reconstruction at zero, and what any quorum, and any
    smaller set, of one split's shares determines. */
module ShamirCombine {
  import opened Wrappers
  import opened Gf256
  import opened Polynomial
  import opened Interpolation
  import opened Sequences
  import opened Shamir

  function Indices(shares: seq<Share>): (xs: seq<Byte>)
    ensures |xs| == |shares|
  {
    seq(|shares|, i requires 0 <= i < |shares| => shares[i].index)
  }

  /** The b-th byte of every share. */
  function Column(shares: seq<Share>, b: nat): (ys: seq<Byte>)
    requires forall i :: 0 <= i < |shares| ==> b < |shares[i].value|
    ensures |ys| == |shares|
  {
    seq(|shares|, i requires 0 <= i < |shares| => shares[i].value[b])
  }

  /** The shares a secret can be reconstructed from. */
  predicate Consistent(shares: seq<Share>) {
    && 2 <= |shares|
    && 1 <= |shares[0].value| <= MAX_SECRET_BYTES
    && Distinct(Indices(shares)) && 0 !in Indices(shares)
    && (forall i :: 0 <= i < |shares| ==>
          && |shares[i].value| == |shares[0].value|
          && shares[i].threshold == shares[0].threshold && shares[i].setId == shares[0].setId)
    && 2 <= shares[0].threshold <= 255
    && shares[0].threshold <= |shares|
  }

  /** Every byte is the value at zero of the polynomial through that byte of the shares. */
  function Reconstruct(shares: seq<Share>): (secret: seq<Byte>)
    requires Consistent(shares)
    ensures |secret| == |shares[0].value|
  {
    seq(|shares[0].value|, b requires 0 <= b < |shares[0].value| => Lagrange(Indices(shares), Column(shares, b), 0))
  }

  /** What a share fails on its own and against the shares before it. */
  function ShareFault(shares: seq<Share>, k: nat, size: nat): Option<Error>
    requires k < |shares|
  {
    if shares[k].index == 0 then Some(ShareIndex)
    else if shares[k].index in Indices(shares[..k]) then Some(DuplicateIndex)
    else if |shares[k].value| != size then Some(ShareLength)
    else None
  }

  ghost predicate FirstFault(shares: seq<Share>, size: nat, fault: Option<Error>) {
    exists k :: 0 <= k < |shares| && fault == ShareFault(shares, k, size) && FaultFree(shares, k, size)
  }

  ghost predicate FaultFree(shares: seq<Share>, n: nat, size: nat)
    requires n <= |shares|
  {
    forall j :: 0 <= j < n ==> ShareFault(shares, j, size).None?
  }

  method CheckShares(shares: seq<Share>, size: nat) returns (fault: Option<Error>)
    ensures fault.None? <==> FaultFree(shares, |shares|, size)
    ensures fault.Some? ==> FirstFault(shares, size, fault)
  {
    var seen := new bool[256](_ => false);
    fault := None;
    for k := 0 to |shares|
      invariant fault.None? && FaultFree(shares, k, size)
      invariant Marks(seen, Indices(shares[..k]))
    {
      var s := shares[k];
      if s.index == 0 {
        fault := Some(ShareIndex);
      } else if seen[s.index as int] {
        fault := Some(DuplicateIndex);
      } else if |s.value| != size {
        fault := Some(ShareLength);
      }
      assert fault == ShareFault(shares, k, size);
      if fault.Some? {
        return;
      }
      Mark(seen, s.index, Indices(shares[..k]));
      assert Indices(shares[..k + 1]) == Indices(shares[..k]) + [s.index];
    }
  }

  ghost predicate Marks(seen: array<bool>, xs: seq<Byte>)
    reads seen
  {
    seen.Length == 256 && forall x: Byte :: seen[x as int] <==> x in xs
  }

  method Mark(seen: array<bool>, x: Byte, ghost xs: seq<Byte>)
    requires Marks(seen, xs)
    modifies seen
    ensures Marks(seen, xs + [x])
  {
    seen[x as int] := true;
  }

  /** Which refusal, if any, the checks answer with. */
  ghost predicate Refuses(shares: seq<Share>, error: Error) {
    if |shares| < 2 then error == NotEnoughShares
    else
      var size := |shares[0].value|;
      if size == 0 || size > MAX_SECRET_BYTES then error == ShareLength
      else if !FaultFree(shares, |shares|, size) then FirstFault(shares, size, Some(error))
      else if exists s :: s in shares && !SameSplit(s, shares[0]) then error == ShareSet
      else if shares[0].threshold < 2 || shares[0].threshold > 255 then error == MalformedShare
      else |shares| < shares[0].threshold && error == NotEnoughShares
  }

  predicate SameSplit(s: Share, t: Share) {
    s.threshold == t.threshold && s.setId == t.setId
  }

  method Combine(shares: seq<Share>) returns (r: Result<seq<Byte>, Error>)
    ensures r.Ok? <==> Consistent(shares)
    ensures r.Ok? ==> r.value == Reconstruct(shares)
    ensures r.Err? ==> Refuses(shares, r.error)
  {
    hide Lagrange, Reconstruct;
    if |shares| < 2 {
      return Err(NotEnoughShares);
    }
    var size := |shares[0].value|;
    if size == 0 {
      return Err(ShareLength);
    }
    if size > MAX_SECRET_BYTES {
      return Err(ShareLength);
    }
    var fault := CheckShares(shares, size);
    FaultFreeMeans(shares, size);
    if fault.Some? {
      return Err(fault.value);
    }
    for k := 0 to |shares|
      invariant forall j :: 0 <= j < k ==> SameSplit(shares[j], shares[0])
    {
      if shares[k].threshold != shares[0].threshold || shares[k].setId != shares[0].setId {
        assert !SameSplit(shares[k], shares[0]) && shares[k] in shares;
        return Err(ShareSet);
      }
    }
    if shares[0].threshold < 2 || shares[0].threshold > 255 {
      return Err(MalformedShare);
    }
    if |shares| < shares[0].threshold {
      return Err(NotEnoughShares);
    }
    var secret := Interpolate(shares);
    return Ok(secret);
  }

  lemma FaultFreeMeans(shares: seq<Share>, size: nat)
    ensures FaultFree(shares, |shares|, size) <==>
              && Distinct(Indices(shares)) && 0 !in Indices(shares)
              && forall i :: 0 <= i < |shares| ==> |shares[i].value| == size
  {
    var xs := Indices(shares);
    if FaultFree(shares, |shares|, size) {
      forall i, j | 0 <= i < j < |xs|
        ensures xs[i] != xs[j]
      {
        assert ShareFault(shares, j, size).None?;
        assert Indices(shares[..j])[i] == xs[i];
      }
      forall i | 0 <= i < |xs|
        ensures xs[i] != 0 && |shares[i].value| == size
      {
        assert ShareFault(shares, i, size).None?;
      }
    } else {
      var k :| 0 <= k < |shares| && ShareFault(shares, k, size).Some?;
      assert xs[k] == shares[k].index;
      if xs[k] in Indices(shares[..k]) {
        var j :| 0 <= j < k && Indices(shares[..k])[j] == xs[k];
        assert xs[j] == xs[k];
      }
    }
  }

  /** The basis once, then one sum for each byte. */
  method Interpolate(shares: seq<Share>) returns (secret: seq<Byte>)
    requires Consistent(shares)
    ensures secret == Reconstruct(shares)
  {
    hide Weight, Add, Times, Distinct;
    var xs := Indices(shares);
    var basis := new Byte[|shares|];
    for i := 0 to |shares|
      invariant forall k :: 0 <= k < i ==> basis[k] == Weight(xs, k, 0)
    {
      basis[i] := BasisAtZero(xs, i);
    }
    var weights := basis[..];
    var buffer := new Byte[|shares[0].value|];
    for b := 0 to buffer.Length
      invariant forall k :: 0 <= k < b ==> buffer[k] == Lagrange(xs, Column(shares, k), 0)
    {
      buffer[b] := WeightedSum(xs, Column(shares, b), weights);
    }
    return buffer[..];
  }

  /** The elements before position j, leaving out position i. */
  function OthersBefore(xs: seq<Byte>, i: nat, j: nat): seq<Byte>
    requires i < |xs| && j <= |xs|
  {
    if j <= i then xs[..j] else xs[..i] + xs[i + 1..j]
  }

  method BasisAtZero(xs: seq<Byte>, i: nat) returns (w: Byte)
    requires i < |xs|
    ensures w == Weight(xs, i, 0)
  {
    hide Times, Inverse, Product;
    var numerator, denominator := 1, 1;
    ProductOfNone(0);
    ProductOfNone(xs[i]);
    for j := 0 to |xs|
      invariant numerator == Product(OthersBefore(xs, i, j), 0)
      invariant denominator == Product(OthersBefore(xs, i, j), xs[i])
    {
      if i == j {
        assert OthersBefore(xs, i, j + 1) == OthersBefore(xs, i, j);
        continue;
      }
      assert OthersBefore(xs, i, j + 1) == OthersBefore(xs, i, j) + [xs[j]];
      ProductOfOneMore(OthersBefore(xs, i, j), xs[j], 0);
      ProductOfOneMore(OthersBefore(xs, i, j), xs[j], xs[i]);
      AddZero(xs[j]);
      AddsByXor(xs[i], xs[j]);
      numerator := Mul(numerator, xs[j]);
      denominator := Mul(denominator, xs[i] ^ xs[j]);
    }
    assert OthersBefore(xs, i, |xs|) == Others(xs, i);
    var inverse := Invert(denominator);
    w := Mul(numerator, inverse);
  }

  lemma ProductOfNone(x: Byte)
    ensures Product([], x) == 1
  {}

  lemma ProductOfOneMore(zs: seq<Byte>, z: Byte, x: Byte)
    ensures Product(zs + [z], x) == Times(Product(zs, x), Add(x, z))
  {
    hide Times, Add;
    assert (zs + [z])[..|zs|] == zs;
  }

  method WeightedSum(xs: seq<Byte>, ys: seq<Byte>, basis: seq<Byte>) returns (acc: Byte)
    requires |xs| == |ys| == |basis|
    requires forall k :: 0 <= k < |xs| ==> basis[k] == Weight(xs, k, 0)
    ensures acc == Lagrange(xs, ys, 0)
  {
    hide Times, Add, Weight;
    acc := 0;
    for i := 0 to |xs|
      invariant acc == LagrangeSum(xs, ys, 0, i)
    {
      var term := Mul(ys[i], basis[i]);
      AddsByXor(acc, term);
      acc := acc ^ term;
    }
  }

  /** Two shares of one split, or one share with itself. */
  predicate Agree(s: Share, t: Share, same: bool) {
    && s.setId == t.setId && s.threshold == t.threshold && |s.value| == |t.value|
    && (s.index == t.index ==> same)
  }

  /** Combine accepts exactly two shares or more, as many as their threshold, that agree pair
      by pair, at different indices other than zero, with values of one byte to 1 MiB. */
  lemma ConsistentExactly(shares: seq<Share>)
    ensures Consistent(shares) <==>
              && |shares| >= 2
              && (forall i, j :: 0 <= i < |shares| && 0 <= j < |shares| ==> Agree(shares[i], shares[j], i == j))
              && forall i :: 0 <= i < |shares| ==>
                   && shares[i].index != 0 && 1 <= |shares[i].value| <= 0x10_0000
                   && 2 <= shares[i].threshold <= 255 && shares[i].threshold <= |shares|
  {
    if Consistent(shares) {
      forall i, j | 0 <= i < |shares| && 0 <= j < |shares|
        ensures Agree(shares[i], shares[j], i == j) && shares[i].index != 0
      {
        assert Indices(shares)[i] == shares[i].index && Indices(shares)[j] == shares[j].index;
      }
    }
    if |shares| >= 2 &&
       forall i, j :: 0 <= i < |shares| && 0 <= j < |shares| ==> Agree(shares[i], shares[j], i == j) {
      forall i | 0 <= i < |shares|
        ensures Agree(shares[i], shares[0], i == 0)
      {}
    }
  }

  /** A share that is no fault of its own: an index of its own, other than zero, and the
      wanted length. */
  predicate Sound(shares: seq<Share>, k: nat, size: nat)
    requires k < |shares|
  {
    shares[k].index != 0 && |shares[k].value| == size &&
    forall i :: 0 <= i < k ==> shares[i].index != shares[k].index
  }

  predicate AllSound(shares: seq<Share>, n: nat, size: nat)
    requires n <= |shares|
  {
    forall k :: 0 <= k < n ==> Sound(shares, k, size)
  }

  lemma SoundExactly(shares: seq<Share>, k: nat, size: nat)
    requires k < |shares|
    ensures ShareFault(shares, k, size) ==
      if Sound(shares, k, size) then None
      else if shares[k].index == 0 then Some(ShareIndex)
      else if exists i :: 0 <= i < k && shares[i].index == shares[k].index then Some(DuplicateIndex)
      else Some(ShareLength)
  {
    var before := Indices(shares[..k]);
    assert forall i :: 0 <= i < k ==> before[i] == shares[i].index;
    if i :| 0 <= i < k && shares[i].index == shares[k].index {
      assert before[i] == shares[k].index;
    }
  }

  lemma FaultFreeExactly(shares: seq<Share>, n: nat, size: nat)
    requires n <= |shares|
    ensures FaultFree(shares, n, size) <==> AllSound(shares, n, size)
  {
    hide Sound, ShareFault;
    forall k | 0 <= k < n
      ensures ShareFault(shares, k, size).None? <==> Sound(shares, k, size)
    {
      SoundExactly(shares, k, size);
    }
  }

  /** Each refusal, in the order of the checks: too few to begin with, no usable length, the
      first share that is not sound, different splits, an impossible threshold, too few for
      the threshold. */
  lemma RefusesExactly(shares: seq<Share>, error: Error, k: nat)
    requires Refuses(shares, error)
    ensures |shares| < 2 ==> error == NotEnoughShares
    ensures |shares| >= 2 && !(1 <= |shares[0].value| <= 0x10_0000) ==> error == ShareLength
    ensures
      var size := if shares == [] then 0 else |shares[0].value|;
      |shares| >= 2 && 1 <= size <= 0x10_0000 ==>
        && (k < |shares| && AllSound(shares, k, size) && !Sound(shares, k, size) ==>
              error == if shares[k].index == 0 then ShareIndex
                       else if exists i :: 0 <= i < k && shares[i].index == shares[k].index then DuplicateIndex
                       else ShareLength)
        && (AllSound(shares, |shares|, size) ==>
              error == if exists s :: s in shares && (s.setId != shares[0].setId || s.threshold != shares[0].threshold)
                       then ShareSet
                       else if 2 <= shares[0].threshold <= 255 then NotEnoughShares
                       else MalformedShare)
  {
    hide ShareFault, Sound;
    if |shares| >= 2 {
      var size := |shares[0].value|;
      FaultFreeExactly(shares, |shares|, size);
      if k < |shares| && AllSound(shares, k, size) && !Sound(shares, k, size) && !FaultFree(shares, |shares|, size) {
        if FirstFault(shares, size, Some(error)) {
          var j :| 0 <= j < |shares| && Some(error) == ShareFault(shares, j, size) && FaultFree(shares, j, size);
          FaultFreeExactly(shares, j, size);
          SoundExactly(shares, j, size);
          assert j == k;
        }
      }
    }
  }

  // ----- quorums

  /** Drawn from one split, no share twice. */
  ghost predicate DrawnFrom(chosen: seq<Share>, shares: seq<Share>) {
    (forall s :: s in chosen ==> s in shares) && Distinct(Indices(chosen))
  }

  /** Any threshold or more shares of one split, in any order, give back the secret. */
  lemma QuorumReconstructs(shares: seq<Share>, secret: seq<Byte>, threshold: int, setId: SetId, polys: seq<Poly>,
                           chosen: seq<Share>)
    requires IsSplit(shares, secret, threshold, setId, polys)
    requires DrawnFrom(chosen, shares) && |chosen| >= threshold
    ensures Consistent(chosen) && Reconstruct(chosen) == secret
  {
    hide Lagrange, Eval, IndexAt;
    ChosenShares(shares, secret, threshold, setId, polys, chosen);
    forall b | 0 <= b < |secret|
      ensures Reconstruct(chosen)[b] == secret[b]
    {
      ColumnThrough(shares, secret, threshold, setId, polys, chosen, b);
      InterpolationRecovers(polys[b], Indices(chosen), Column(chosen, b), 0);
      EvalAtZero(polys[b]);
    }
  }

  lemma ChosenShares(shares: seq<Share>, secret: seq<Byte>, threshold: int, setId: SetId, polys: seq<Poly>,
                     chosen: seq<Share>)
    requires IsSplit(shares, secret, threshold, setId, polys)
    requires forall s :: s in chosen ==> s in shares
    ensures 0 !in Indices(chosen)
    ensures forall i :: 0 <= i < |chosen| ==>
              && chosen[i].threshold == threshold && chosen[i].setId == setId
              && |chosen[i].value| == |secret|
              && forall b :: 0 <= b < |secret| ==> chosen[i].value[b] == Eval(polys[b], chosen[i].index)
  {
    hide Eval, IndexAt;
    forall i | 0 <= i < |chosen|
      ensures
        && chosen[i].index != 0
        && chosen[i].threshold == threshold && chosen[i].setId == setId
        && |chosen[i].value| == |secret|
        && forall b :: 0 <= b < |secret| ==> chosen[i].value[b] == Eval(polys[b], chosen[i].index)
    {
      assert chosen[i] in shares;
      var j :| 0 <= j < |shares| && shares[j] == chosen[i];
      IndexAtIsInjective(j, j);
    }
  }

  lemma ColumnThrough(shares: seq<Share>, secret: seq<Byte>, threshold: int, setId: SetId, polys: seq<Poly>,
                      chosen: seq<Share>, b: nat)
    requires IsSplit(shares, secret, threshold, setId, polys)
    requires forall s :: s in chosen ==> s in shares
    requires b < |secret|
    requires forall i :: 0 <= i < |chosen| ==> |chosen[i].value| == |secret|
    ensures Through(polys[b], Indices(chosen), Column(chosen, b))
  {
    hide Eval, IndexAt;
    ChosenShares(shares, secret, threshold, setId, polys, chosen);
  }

  lemma EvalAtZero(p: Poly)
    requires p != []
    ensures Eval(p, 0) == p[0]
  {
    hide Add, Times;
    ZeroTimes(Eval(p[1..], 0));
    AddZero(p[0]);
  }

  // ----- one share too few

  /** The byte the Lagrange sum through one share too few arrives at is never the secret's. */
  lemma TooFewSharesMiss(p: Poly, secretByte: Byte, threshold: int, xs: seq<Byte>, ys: seq<Byte>)
    requires Admissible(p, secretByte, threshold)
    requires Distinct(xs) && 0 !in xs && |xs| == |ys| == threshold - 1
    requires Through(p, xs, ys)
    ensures Lagrange(xs, ys, 0) != secretByte
  {
    hide Eval, Lagrange, Add, Times;
    if Lagrange(xs, ys, 0) == secretByte {
      var q := Interpolant(xs, ys);
      var padded := q + Zeros(1);
      var nodes := xs + [0];
      EvalInterpolant(xs, ys, 0);
      EvalAtZero(p);
      forall i | 0 <= i < |nodes|
        ensures Eval(p, nodes[i]) == Eval(padded, nodes[i])
      {
        EvalPadded(q, 1, nodes[i]);
        if i < |xs| {
          InterpolantPassesThrough(xs, ys, i);
        }
      }
      AgreeingPolynomials(p, padded, nodes);
    }
  }

  /** One share too few leaves every other byte open: a byte can be the secret's exactly when
      it is not the one the Lagrange sum gives, and then under one polynomial only. */
  lemma EveryOtherByteIsPossible(xs: seq<Byte>, ys: seq<Byte>, guess: Byte)
    requires Distinct(xs) && 0 !in xs && |xs| == |ys| >= 1
    ensures guess != Lagrange(xs, ys, 0) <==>
              exists p :: Admissible(p, guess, |xs| + 1) && Through(p, xs, ys)
    ensures forall p, q ::
              (Admissible(p, guess, |xs| + 1) && Through(p, xs, ys) &&
               Admissible(q, guess, |xs| + 1) && Through(q, xs, ys)) ==> p == q
  {
    hide *;
    if guess != Lagrange(xs, ys, 0) {
      OpenByteHasAPolynomial(xs, ys, guess);
    }
    forall q | Admissible(q, guess, |xs| + 1) && Through(q, xs, ys)
      ensures q == Interpolant(xs + [0], ys + [guess]) && guess != Lagrange(xs, ys, 0)
    {
      TooFewSharesMiss(q, guess, |xs| + 1, xs, ys);
      OnlyOnePolynomial(q, xs, ys, guess);
    }
  }

  lemma OpenByteHasAPolynomial(xs: seq<Byte>, ys: seq<Byte>, guess: Byte)
    requires Distinct(xs) && 0 !in xs && |xs| == |ys| >= 1
    requires guess != Lagrange(xs, ys, 0)
    ensures
      var p := Interpolant(xs + [0], ys + [guess]);
      Admissible(p, guess, |xs| + 1) && Through(p, xs, ys)
  {
    hide Eval, Lagrange, Add, Times;
    var nodes, values := xs + [0], ys + [guess];
    var p := Interpolant(nodes, values);
    forall i | 0 <= i < |nodes|
      ensures Eval(p, nodes[i]) == values[i]
    {
      InterpolantPassesThrough(nodes, values, i);
    }
    ThroughPrefix(p, xs, ys, guess);
    EvalAtZero(p);
    if p[|xs|] == 0 {
      var short := p[..|xs|];
      assert p == short + Zeros(1);
      forall i | 0 <= i < |xs|
        ensures Eval(short, xs[i]) == ys[i]
      {
        EvalPadded(short, 1, xs[i]);
      }
      EvalPadded(short, 1, 0);
      InterpolationRecovers(short, xs, ys, 0);
    }
  }

  lemma OnlyOnePolynomial(q: Poly, xs: seq<Byte>, ys: seq<Byte>, guess: Byte)
    requires Distinct(xs) && 0 !in xs && |xs| == |ys| >= 1
    requires Admissible(q, guess, |xs| + 1) && Through(q, xs, ys)
    ensures q == Interpolant(xs + [0], ys + [guess])
  {
    hide Eval, Interpolant;
    var nodes, values := xs + [0], ys + [guess];
    EvalAtZero(q);
    forall i | 0 <= i < |nodes|
      ensures Eval(q, nodes[i]) == Eval(Interpolant(nodes, values), nodes[i])
    {
      InterpolantPassesThrough(nodes, values, i);
    }
    AgreeingPolynomials(q, Interpolant(nodes, values), nodes);
  }

  /** Holding one share less than the threshold: the sum Combine would form is wrong at every
      byte, and any other guess at a byte is explained by exactly one admissible polynomial. */
  lemma TooFewSharesRevealNothingMore(shares: seq<Share>, secret: seq<Byte>, threshold: int, setId: SetId,
                                      polys: seq<Poly>, chosen: seq<Share>, b: nat, guess: Byte)
    requires IsSplit(shares, secret, threshold, setId, polys)
    requires DrawnFrom(chosen, shares) && |chosen| == threshold - 1
    requires b < |secret|
    ensures forall i :: 0 <= i < |chosen| ==> b < |chosen[i].value|
    ensures Lagrange(Indices(chosen), Column(chosen, b), 0) != secret[b]
    ensures guess != Lagrange(Indices(chosen), Column(chosen, b), 0) <==>
              exists p :: Admissible(p, guess, threshold) && Through(p, Indices(chosen), Column(chosen, b))
    ensures forall p, q ::
              (Admissible(p, guess, threshold) && Through(p, Indices(chosen), Column(chosen, b)) &&
               Admissible(q, guess, threshold) && Through(q, Indices(chosen), Column(chosen, b))) ==> p == q
  {
    hide Eval, Lagrange, Through, Distinct;
    ChosenShares(shares, secret, threshold, setId, polys, chosen);
    ColumnThrough(shares, secret, threshold, setId, polys, chosen, b);
    TooFewSharesMiss(polys[b], secret[b], threshold, Indices(chosen), Column(chosen, b));
    EveryOtherByteIsPossible(Indices(chosen), Column(chosen, b), guess);
  }

  lemma ThroughPrefix(p: Poly, xs: seq<Byte>, ys: seq<Byte>, guess: Byte)
    requires |xs| == |ys|
    requires Through(p, xs + [0], ys + [guess])
    ensures Through(p, xs, ys) && Eval(p, 0) == guess
  {
    hide Eval;
    var nodes, values := xs + [0], ys + [guess];
    assert Eval(p, nodes[|xs|]) == values[|xs|];
    forall i | 0 <= i < |xs|
      ensures Eval(p, xs[i]) == ys[i]
    {
      assert Eval(p, nodes[i]) == values[i];
    }
  }
}
