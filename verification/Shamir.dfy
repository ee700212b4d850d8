/** Splitting a secret into shares. */
module Shamir {
  import opened ByteValues
  import opened Wrappers
  import opened Gf256
  import opened Polynomial

  const MAX_SECRET_BYTES := 0x10_0000
  const SET_ID_BYTES := 16

  type SetId = s: seq<Byte> | |s| == SET_ID_BYTES witness seq(SET_ID_BYTES, _ => 0)

  datatype Share = Share(threshold: int, setId: SetId, index: Byte, value: seq<Byte>)

  datatype Error =
    | EmptySecret
    | SecretTooLong
    | ThresholdTooSmall
    | ThresholdExceedsTotal
    | TooManyShares
    | RandomFailed
    | NotEnoughShares
    | ShareVersion
    | ShareSet
    | DuplicateIndex
    | ShareIndex
    | ShareLength
    | MalformedShare

  /** The share index at position i. */
  function IndexAt(i: nat): Byte
    requires i < 255
  {
    ToByte(i + 1)
  }

  lemma IndexAtIsInjective(i: nat, j: nat)
    requires i < 255 && j < 255
    ensures IndexAt(i) as int == i + 1 && IndexAt(i) != 0
    ensures IndexAt(i) == IndexAt(j) ==> i == j
  {
    hide ToByte;
    ByteValue(i + 1);
    ByteValue(j + 1);
  }

  // ----- Split

  /** What the parameter checks answer. */
  function SplitFault(secret: seq<Byte>, threshold: int, total: int): Option<Error> {
    if |secret| == 0 then Some(EmptySecret)
    else if |secret| > MAX_SECRET_BYTES then Some(SecretTooLong)
    else if threshold < 2 then Some(ThresholdTooSmall)
    else if threshold > total then Some(ThresholdExceedsTotal)
    else if total > 255 then Some(TooManyShares)
    else None
  }

  /** Split takes every secret of one byte to MAX_SECRET_BYTES and every threshold from two to
      a total of at most 255, and each refusal names the first bound that is broken. */
  lemma SplitAcceptsExactly(secret: seq<Byte>, threshold: int, total: int)
    ensures SplitFault(secret, threshold, total).None? <==>
              1 <= |secret| <= 0x10_0000 && 2 <= threshold <= total <= 255
    ensures SplitFault(secret, threshold, total) == Some(EmptySecret) <==> secret == []
    ensures SplitFault(secret, threshold, total) == Some(SecretTooLong) <==> |secret| > 0x10_0000
    ensures SplitFault(secret, threshold, total) == Some(ThresholdTooSmall) <==>
              1 <= |secret| <= 0x10_0000 && threshold < 2
    ensures SplitFault(secret, threshold, total) == Some(ThresholdExceedsTotal) <==>
              1 <= |secret| <= 0x10_0000 && threshold >= 2 && threshold > total
    ensures SplitFault(secret, threshold, total) == Some(TooManyShares) <==>
              1 <= |secret| <= 0x10_0000 && 2 <= threshold <= total && total > 255
  {}

  predicate LastIsNotZero(draw: seq<Byte>) {
    draw != [] && draw[|draw| - 1] != 0
  }

  /** The draws the resampling loop keeps: those whose last byte is not zero. */
  function Kept(draws: seq<seq<Byte>>): (kept: seq<seq<Byte>>)
    ensures forall d :: d in kept ==> d in draws && LastIsNotZero(d)
  {
    if draws == [] then []
    else if LastIsNotZero(draws[0]) then [draws[0]] + Kept(draws[1..])
    else Kept(draws[1..])
  }

  /** The polynomial a byte is hidden in: an admissible one never loses its top coefficient. */
  predicate Admissible(p: Poly, secretByte: Byte, threshold: int) {
    |p| == threshold && threshold >= 2 && p[0] == secretByte && p[threshold - 1] != 0
  }

  /** These are the shares of secret under the given polynomials, one polynomial a byte. */
  ghost predicate IsSplit(shares: seq<Share>, secret: seq<Byte>, threshold: int, setId: SetId, polys: seq<Poly>) {
    && 2 <= threshold <= |shares| <= 255
    && 1 <= |secret| <= MAX_SECRET_BYTES
    && |polys| == |secret|
    && (forall b :: 0 <= b < |secret| ==> Admissible(polys[b], secret[b], threshold))
    && (forall i :: 0 <= i < |shares| ==>
          && shares[i].threshold == threshold && shares[i].setId == setId
          && shares[i].index == IndexAt(i) && |shares[i].value| == |secret|)
    && (forall i, b :: 0 <= i < |shares| && 0 <= b < |secret| ==>
          shares[i].value[b] == Eval(polys[b], IndexAt(i)))
  }

  /** The polynomials of a split: each byte of the secret under its own kept draw. */
  function Polynomials(secret: seq<Byte>, draws: seq<seq<Byte>>): (polys: seq<Poly>)
    requires |Kept(draws)| >= |secret|
    ensures |polys| == |secret|
  {
    seq(|secret|, b requires 0 <= b < |secret| => [secret[b]] + Kept(draws)[b])
  }

  lemma KeptFrom(draws: seq<seq<Byte>>, n: nat)
    requires n <= |draws|
    ensures n == |draws| ==> Kept(draws[n..]) == []
    ensures n < |draws| ==>
              Kept(draws[n..]) == (if LastIsNotZero(draws[n]) then [draws[n]] else []) + Kept(draws[n + 1..])
  {
    assert n < |draws| ==> draws[n..][1..] == draws[n + 1..];
  }

  /** Redraw everything but the constant term until the leading coefficient is not zero. */
  method Resample(coefficients: array<Byte>, draws: seq<seq<Byte>>, start: nat) returns (ok: bool, next: nat)
    requires coefficients.Length >= 2 && start <= |draws|
    requires forall d :: d in draws ==> |d| == coefficients.Length - 1
    modifies coefficients
    ensures coefficients[0] == old(coefficients[0])
    ensures start <= next <= |draws|
    ensures ok <==> Kept(draws[start..]) != []
    ensures ok ==> Kept(draws[start..]) == [coefficients[1..]] + Kept(draws[next..])
    ensures ok ==> coefficients[coefficients.Length - 1] != 0
  {
    hide Kept;
    next := start;
    while next < |draws|
      invariant start <= next <= |draws|
      invariant coefficients[0] == old(coefficients[0])
      invariant Kept(draws[start..]) == Kept(draws[next..])
    {
      var draw := draws[next];
      KeptFrom(draws, next);
      forall k | 1 <= k < coefficients.Length {
        coefficients[k] := draw[k - 1];
      }
      assert coefficients[1..] == draw;
      next := next + 1;
      if coefficients[coefficients.Length - 1] != 0 {
        return true, next;
      }
    }
    KeptFrom(draws, next);
    return false, next;
  }

  /** Write one byte of every share: the polynomial's value at that share's index. */
  method FillColumn(values: array2<Byte>, column: nat, coefficients: seq<Byte>)
    requires values.Length0 <= 255 && column < values.Length1
    modifies values
    ensures forall i :: 0 <= i < values.Length0 ==> values[i, column] == Eval(coefficients, IndexAt(i))
    ensures forall i, b :: 0 <= i < values.Length0 && 0 <= b < values.Length1 && b != column ==>
              values[i, b] == old(values[i, b])
  {
    hide *;
    for i := 0 to values.Length0
      invariant forall k :: 0 <= k < i ==> values[k, column] == Eval(coefficients, IndexAt(k))
      invariant forall k, b :: 0 <= k < values.Length0 && 0 <= b < values.Length1 && b != column ==>
                  values[k, b] == old(values[k, b])
    {
      values[i, column] := Evaluate(coefficients, IndexAt(i));
    }
  }

  /** The random source is a finite tape: setId is the first read, each entry of draws one
      read of the coefficients, and a read past the end of the tape fails. */
  method Split(secret: seq<Byte>, threshold: int, total: int, setId: Option<SetId>, draws: seq<seq<Byte>>)
    returns (r: Result<seq<Share>, Error>)
    requires threshold >= 2 ==> forall d :: d in draws ==> |d| == threshold - 1
    ensures SplitFault(secret, threshold, total).Some? ==>
              r == Err(SplitFault(secret, threshold, total).value)
    ensures SplitFault(secret, threshold, total).None? ==>
              (r.Ok? <==> setId.Some? && |Kept(draws)| >= |secret|) && (r.Err? ==> r.error == RandomFailed)
    ensures r.Ok? ==>
              && |r.value| == total
              && IsSplit(r.value, secret, threshold, setId.value, Polynomials(secret, draws))
  {
    hide Eval, IndexAt, Kept, Polynomials, IsSplit;
    if |secret| == 0 {
      return Err(EmptySecret);
    } else if |secret| > MAX_SECRET_BYTES {
      return Err(SecretTooLong);
    } else if threshold < 2 {
      return Err(ThresholdTooSmall);
    } else if threshold > total {
      return Err(ThresholdExceedsTotal);
    } else if total > 255 {
      return Err(TooManyShares);
    }
    if setId.None? {
      return Err(RandomFailed);
    }
    r := Deal(secret, threshold, total, setId.value, draws);
  }

  /** Make room for the shares, fill them, and hand them out under their indices. */
  method Deal(secret: seq<Byte>, threshold: int, total: int, setId: SetId, draws: seq<seq<Byte>>)
    returns (r: Result<seq<Share>, Error>)
    requires SplitFault(secret, threshold, total).None?
    requires forall d :: d in draws ==> |d| == threshold - 1
    ensures r.Ok? <==> |Kept(draws)| >= |secret|
    ensures r.Err? ==> r.error == RandomFailed
    ensures r.Ok? ==>
              |r.value| == total && IsSplit(r.value, secret, threshold, setId, Polynomials(secret, draws))
  {
    hide Eval, IndexAt, IsSplit, Admissible, Kept;
    var values := new Byte[total, |secret|];
    var ok := FillColumns(values, secret, threshold, draws);
    if !ok {
      return Err(RandomFailed);
    }
    var shares := Assemble(values, threshold, setId);
    SharesFormASplit(shares, secret, threshold, setId, draws);
    return Ok(shares);
  }

  /** One admissible polynomial for each byte of the secret, evaluated at every index. The
      coefficient buffer is reused from byte to byte. */
  method FillColumns(values: array2<Byte>, secret: seq<Byte>, threshold: nat, draws: seq<seq<Byte>>)
    returns (ok: bool)
    requires values.Length0 <= 255 && values.Length1 == |secret| && threshold >= 2
    requires forall d :: d in draws ==> |d| == threshold - 1
    modifies values
    ensures ok <==> |Kept(draws)| >= |secret|
    ensures ok ==> forall i, b :: 0 <= i < values.Length0 && 0 <= b < |secret| ==>
                     values[i, b] == Eval([secret[b]] + Kept(draws)[b], IndexAt(i))
  {
    hide Eval, IndexAt, Kept;
    var coefficients := new Byte[threshold];
    var next := 0;
    var kept := Kept(draws);
    assert draws[0..] == draws;
    for b := 0 to |secret|
      invariant next <= |draws| && b <= |kept|
      invariant Kept(draws[next..]) == kept[b..]
      invariant forall i, k :: 0 <= i < values.Length0 && 0 <= k < b ==>
                  values[i, k] == Eval([secret[k]] + kept[k], IndexAt(i))
    {
      coefficients[0] := secret[b];
      var drawn;
      drawn, next := Resample(coefficients, draws, next);
      if !drawn {
        return false;
      }
      assert kept[b] == coefficients[1..] && kept[b + 1..] == kept[b..][1..];
      assert coefficients[..] == [secret[b]] + kept[b];
      FillColumn(values, b, coefficients[..]);
    }
    return true;
  }

  function Assemble(values: array2<Byte>, threshold: int, setId: SetId): (shares: seq<Share>)
    requires values.Length0 <= 255
    reads values
    ensures |shares| == values.Length0
    ensures forall i :: 0 <= i < |shares| ==> shares[i] == Share(threshold, setId, IndexAt(i), Row(values, i))
  {
    seq(values.Length0, i requires 0 <= i < values.Length0 reads values =>
      Share(threshold, setId, IndexAt(i), Row(values, i)))
  }

  lemma SharesFormASplit(shares: seq<Share>, secret: seq<Byte>, threshold: int, setId: SetId, draws: seq<seq<Byte>>)
    requires 2 <= threshold <= |shares| <= 255 && 1 <= |secret| <= MAX_SECRET_BYTES
    requires forall d :: d in draws ==> |d| == threshold - 1
    requires |Kept(draws)| >= |secret|
    requires forall i :: 0 <= i < |shares| ==>
               shares[i] == Share(threshold, setId, IndexAt(i), shares[i].value) && |shares[i].value| == |secret|
    requires forall i, b :: 0 <= i < |shares| && 0 <= b < |secret| ==>
               shares[i].value[b] == Eval([secret[b]] + Kept(draws)[b], IndexAt(i))
    ensures IsSplit(shares, secret, threshold, setId, Polynomials(secret, draws))
  {
    hide Eval, IndexAt;
    var polys := Polynomials(secret, draws);
    forall b | 0 <= b < |secret|
      ensures Admissible(polys[b], secret[b], threshold)
    {
      assert Kept(draws)[b] in Kept(draws);
    }
  }

  function Row(values: array2<Byte>, i: nat): (row: seq<Byte>)
    requires i < values.Length0
    reads values
    ensures |row| == values.Length1
    ensures forall b :: 0 <= b < |row| ==> row[b] == values[i, b]
  {
    seq(values.Length1, b requires 0 <= b < values.Length1 reads values => values[i, b])
  }
}
