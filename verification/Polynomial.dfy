/** Polynomials over GF(2^8), constant term first: Horner evaluation, and the root bound by
    synthetic division. */
module Polynomial {
  import opened Gf256
  import opened Sequences

  type Poly = seq<Byte>

  /** The value at x, by Horner's rule. */
  function Eval(p: Poly, x: Byte): Byte {
    if p == [] then 0 else Add(p[0], Times(x, Eval(p[1..], x)))
  }

  /** The value at x as the sum of the first n terms p[i] x^i. */
  function PowerSum(p: Poly, x: Byte, n: nat): Byte
    requires n <= |p|
  {
    if n == 0 then 0 else Add(PowerSum(p, x, n - 1), Times(p[n - 1], Pow(x, n - 1)))
  }

  /** Horner's loop, from the highest coefficient down. */
  method Evaluate(coefficients: seq<Byte>, x: Byte) returns (y: Byte)
    ensures y == Eval(coefficients, x)
  {
    y := 0;
    var i := |coefficients|;
    while i > 0
      invariant 0 <= i <= |coefficients|
      invariant y == Eval(coefficients[i..], x)
    {
      i := i - 1;
      EvalStep(coefficients, i, x);
      var product := Mul(y, x);
      AddsByXor(product, coefficients[i]);
      y := product ^ coefficients[i];
    }
    assert coefficients[0..] == coefficients;
  }

  lemma EvalStep(p: Poly, i: nat, x: Byte)
    requires i < |p|
    ensures Eval(p[i..], x) == Add(p[i], Times(x, Eval(p[i + 1..], x)))
    ensures Eval(p[i..], x) == Add(Times(Eval(p[i + 1..], x), x), p[i])
  {
    hide Add, Times;
    assert p[i..][1..] == p[i + 1..];
    TimesCommutes(x, Eval(p[i + 1..], x));
    AddCommutes(p[i], Times(x, Eval(p[i + 1..], x)));
  }

  lemma AddsByXor(a: Byte, b: Byte)
    ensures a ^ b == Add(a, b)
  {}

  /** Horner's rule computes the sum of the terms. */
  lemma EvalIsPowerSum(p: Poly, x: Byte)
    ensures Eval(p, x) == PowerSum(p, x, |p|)
  {
    HornerPrefix(p, x, |p|);
    assert p[..|p|] == p;
  }

  lemma {:induction false} HornerPrefix(p: Poly, x: Byte, n: nat)
    requires n <= |p|
    ensures Eval(p[..n], x) == PowerSum(p, x, n)
  {
    hide Add, Times;
    if n > 0 {
      HornerPrefix(p, x, n - 1);
      assert p[..n] == p[..n - 1] + [p[n - 1]];
      EvalAppend(p[..n - 1], p[n - 1], x);
    }
  }

  lemma {:induction false} EvalAppend(p: Poly, c: Byte, x: Byte)
    ensures Eval(p + [c], x) == Add(Eval(p, x), Times(c, Pow(x, |p|)))
  {
    hide Add, Times, Pow;
    if p == [] {
      EvalConstant(c, x);
      PowZero(x);
      TimesOne(c);
      AddZero(c);
      assert p + [c] == [c];
    } else {
      var q := p[1..];
      assert (p + [c])[1..] == q + [c];
      EvalAppend(q, c, x);
      var tail := Times(c, Pow(x, |q|));
      TimesAdd(x, Eval(q, x), tail);
      TimesAssociates(x, c, Pow(x, |q|));
      TimesCommutes(x, c);
      TimesAssociates(c, x, Pow(x, |q|));
      PowStep(x, |q|);
      AddAssociates(p[0], Times(x, Eval(q, x)), Times(x, tail));
    }
  }

  lemma PowZero(x: Byte)
    ensures Pow(x, 0) == 1
  {}

  lemma EvalConstant(c: Byte, x: Byte)
    ensures Eval([c], x) == c
  {
    hide Add, Times;
    ZeroTimes(x);
    AddZero(c);
    assert [c][1..] == [];
  }

  // ----- the root bound

  /** The quotient of p by (x - r), coefficient by coefficient. */
  function Quotient(p: Poly, r: Byte): (q: Poly)
    ensures |q| == if |p| == 0 then 0 else |p| - 1
  {
    if |p| <= 1 then [] else [Eval(p[1..], r)] + Quotient(p[1..], r)
  }

  /** Synthetic division: p(x) - p(r) = (x - r) q(x). */
  lemma {:induction false} SyntheticDivision(p: Poly, r: Byte, x: Byte)
    ensures Add(Eval(p, x), Eval(p, r)) == Times(Add(x, r), Eval(Quotient(p, r), x))
  {
    hide Add, Times;
    if |p| <= 1 {
      ZeroTimes(Add(x, r));
      AddSelf(Eval(p, x), 0);
      if |p| == 1 {
        EvalConstant(p[0], x);
        EvalConstant(p[0], r);
        assert p == [p[0]];
      }
    } else {
      var t := p[1..];
      SyntheticDivision(t, r, x);
      assert Quotient(p, r)[1..] == Quotient(t, r);
      QuotientStep(p[0], Eval(t, x), Eval(t, r), Eval(Quotient(t, r), x), x, r);
    }
  }

  /** The algebra of one division step: with tx - tr = (x - r) q,
      (c + x tx) - (c + r tr) = (x - r)(tr + x q). */
  lemma QuotientStep(c: Byte, tx: Byte, tr: Byte, q: Byte, x: Byte, r: Byte)
    requires Add(tx, tr) == Times(Add(x, r), q)
    ensures Add(Add(c, Times(x, tx)), Add(c, Times(r, tr))) == Times(Add(x, r), Add(tr, Times(x, q)))
  {
    hide *;
    var d := Add(x, r);
    calc {
      Times(d, Add(tr, Times(x, q)));
      { TimesAdd(d, tr, Times(x, q)); }
      Add(Times(d, tr), Times(d, Times(x, q)));
      { TimesAssociates(d, x, q); TimesCommutes(d, x); TimesAssociates(x, d, q); }
      Add(Times(d, tr), Times(x, Add(tx, tr)));
      { AddTimes(x, r, tr); TimesAdd(x, tx, tr); }
      Add(Add(Times(x, tr), Times(r, tr)), Add(Times(x, tx), Times(x, tr)));
      { CancelOuter(Times(x, tr), Times(r, tr), Times(x, tx)); }
      Add(Times(x, tx), Times(r, tr));
      { AddSwap(c, Times(x, tx), c, Times(r, tr)); AddSelf(c, 0); AddZero(Add(Times(x, tx), Times(r, tr))); }
      Add(Add(c, Times(x, tx)), Add(c, Times(r, tr)));
    }
  }

  lemma CancelOuter(a: Byte, b: Byte, c: Byte)
    ensures Add(Add(a, b), Add(c, a)) == Add(c, b)
  {
    hide *;
    AddCommutes(a, b);
    AddCommutes(c, a);
    AddAssociates(b, a, Add(a, c));
    AddSelf(a, c);
    AddCommutes(b, c);
  }

  predicate AllZero(p: Poly) {
    forall i :: 0 <= i < |p| ==> p[i] == 0
  }

  lemma {:induction false} ZeroQuotient(p: Poly, r: Byte)
    requires AllZero(Quotient(p, r))
    requires Eval(p, r) == 0
    ensures AllZero(p)
  {
    hide Add, Times;
    if |p| == 1 {
      EvalConstant(p[0], r);
      assert p == [p[0]];
    } else if |p| > 1 {
      var q := Quotient(p, r);
      assert q[0] == 0 && q[1..] == Quotient(p[1..], r);
      assert forall i :: 0 <= i < |q| - 1 ==> q[1..][i] == q[i + 1];
      ZeroQuotient(p[1..], r);
      ZeroTimes(r);
      AddZero(p[0]);
      assert forall i :: 0 < i < |p| ==> p[i] == p[1..][i - 1];
    }
  }

  /** The root bound: with at least as many roots as coefficients, a polynomial is zero. */
  lemma {:induction false} RootBound(p: Poly, xs: seq<Byte>)
    requires Distinct(xs) && |p| <= |xs|
    requires forall i :: 0 <= i < |xs| ==> Eval(p, xs[i]) == 0
    ensures AllZero(p)
    decreases |p|
  {
    hide Add, Times, Eval;
    if p != [] {
      var r, rest := xs[0], xs[1..];
      var q := Quotient(p, r);
      forall i | 0 <= i < |rest|
        ensures Eval(q, rest[i]) == 0
      {
        var x := xs[i + 1];
        SyntheticDivision(p, r, x);
        AddZero(0);
        NoZeroDivisors(Add(x, r), Eval(q, x));
        AddIsZero(x, r);
      }
      RootBound(q, rest);
      ZeroQuotient(p, r);
    }
  }
}
