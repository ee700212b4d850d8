/** Lagrange interpolation: the polynomial through given points, and why evaluating it at
    any x recovers every polynomial with no more coefficients than points. */
module Interpolation {
  import opened Gf256
  import opened Polynomial
  import opened Sequences

  // ----- polynomial arithmetic

  function Plus(p: Poly, q: Poly): (s: Poly)
    requires |p| == |q|
    ensures |s| == |p|
  {
    seq(|p|, i requires 0 <= i < |p| => Add(p[i], q[i]))
  }

  function Scale(c: Byte, p: Poly): (s: Poly)
    ensures |s| == |p|
  {
    seq(|p|, i requires 0 <= i < |p| => Times(c, p[i]))
  }

  /** (x + r) p(x) */
  function TimesLinear(p: Poly, r: Byte): Poly {
    Plus([0] + p, Scale(r, p) + [0])
  }

  function Zeros(n: nat): Poly {
    seq(n, i => 0)
  }

  lemma {:induction false} EvalPlus(p: Poly, q: Poly, x: Byte)
    requires |p| == |q|
    ensures Eval(Plus(p, q), x) == Add(Eval(p, x), Eval(q, x))
  {
    hide Add, Times;
    if p == [] {
      AddZero(0);
    } else {
      assert Plus(p, q)[1..] == Plus(p[1..], q[1..]);
      EvalPlus(p[1..], q[1..], x);
      TimesAdd(x, Eval(p[1..], x), Eval(q[1..], x));
      AddSwap(p[0], q[0], Times(x, Eval(p[1..], x)), Times(x, Eval(q[1..], x)));
    }
  }

  lemma {:induction false} EvalScale(c: Byte, p: Poly, x: Byte)
    ensures Eval(Scale(c, p), x) == Times(c, Eval(p, x))
  {
    hide Add, Times;
    if p == [] {
      ZeroTimes(c);
    } else {
      assert Scale(c, p)[1..] == Scale(c, p[1..]);
      EvalScale(c, p[1..], x);
      var v := Eval(p[1..], x);
      TimesAdd(c, p[0], Times(x, v));
      TimesAssociates(c, x, v);
      TimesCommutes(c, x);
      TimesAssociates(x, c, v);
    }
  }

  lemma {:induction false} EvalZeros(n: nat, x: Byte)
    ensures Eval(Zeros(n), x) == 0
  {
    hide Add, Times;
    if n > 0 {
      assert Zeros(n)[1..] == Zeros(n - 1);
      EvalZeros(n - 1, x);
      ZeroTimes(x);
      AddZero(0);
    }
  }

  lemma EvalPadded(p: Poly, n: nat, x: Byte)
    ensures Eval(p + Zeros(n), x) == Eval(p, x)
    decreases n
  {
    hide Add, Times, Pow;
    if n == 0 {
      assert p + Zeros(0) == p;
    } else {
      EvalPadded(p, n - 1, x);
      assert p + Zeros(n) == (p + Zeros(n - 1)) + [0];
      EvalAppend(p + Zeros(n - 1), 0, x);
      ZeroTimes(Pow(x, |p| + n - 1));
      AddZero(Eval(p, x));
    }
  }

  lemma EvalTimesLinear(p: Poly, r: Byte, x: Byte)
    ensures Eval(TimesLinear(p, r), x) == Times(Eval(p, x), Add(x, r))
  {
    hide Add, Times;
    var v := Eval(p, x);
    EvalPlus([0] + p, Scale(r, p) + [0], x);
    assert ([0] + p)[1..] == p;
    AddZero(Times(x, v));
    assert Zeros(1) == [0];
    EvalPadded(Scale(r, p), 1, x);
    EvalScale(r, p, x);
    TimesAdd(v, x, r);
    TimesCommutes(v, x);
    TimesCommutes(v, r);
  }

  // ----- the Lagrange basis

  /** The product of (x - z) over zs. */
  function Product(zs: seq<Byte>, x: Byte): Byte {
    if zs == [] then 1 else Times(Product(zs[..|zs| - 1], x), Add(x, zs[|zs| - 1]))
  }

  function NodePolynomial(zs: seq<Byte>): (p: Poly)
    ensures |p| == |zs| + 1
  {
    if zs == [] then [1] else TimesLinear(NodePolynomial(zs[..|zs| - 1]), zs[|zs| - 1])
  }

  lemma {:induction false} EvalNodePolynomial(zs: seq<Byte>, x: Byte)
    ensures Eval(NodePolynomial(zs), x) == Product(zs, x)
  {
    hide Add, Times, Eval;
    if zs == [] {
      EvalConstant(1, x);
    } else {
      EvalNodePolynomial(zs[..|zs| - 1], x);
      EvalTimesLinear(NodePolynomial(zs[..|zs| - 1]), zs[|zs| - 1], x);
    }
  }

  lemma {:induction false} ProductIsZero(zs: seq<Byte>, x: Byte)
    ensures Product(zs, x) == 0 <==> x in zs
  {
    hide Add, Times;
    if zs != [] {
      var front, last := zs[..|zs| - 1], zs[|zs| - 1];
      assert zs == front + [last];
      ProductIsZero(front, x);
      AddIsZero(x, last);
      ZeroTimes(Add(x, last));
      ZeroTimes(Product(front, x));
      if Product(zs, x) == 0 {
        NoZeroDivisors(Product(front, x), Add(x, last));
      }
    }
  }

  function Others(xs: seq<Byte>, i: nat): seq<Byte>
    requires i < |xs|
  {
    xs[..i] + xs[i + 1..]
  }

  /** The value at x of the i-th basis polynomial, which is 1 at xs[i] and 0 at the others. */
  function Weight(xs: seq<Byte>, i: nat, x: Byte): Byte
    requires i < |xs|
  {
    Times(Product(Others(xs, i), x), Inverse(Product(Others(xs, i), xs[i])))
  }

  lemma WeightAtNodes(xs: seq<Byte>, i: nat, j: nat)
    requires Distinct(xs) && i < |xs| && j < |xs|
    ensures Weight(xs, i, xs[j]) == if i == j then 1 else 0
  {
    hide Add, Times, Inverse, Product;
    var others := Others(xs, i);
    if i == j {
      ProductIsZero(others, xs[i]);
      InverseIsInverse(Product(others, xs[i]));
    } else {
      assert xs[j] == others[if j < i then j else j - 1];
      ProductIsZero(others, xs[j]);
      ZeroTimes(Inverse(Product(others, xs[i])));
    }
  }

  function BasisPolynomial(xs: seq<Byte>, i: nat): (p: Poly)
    requires i < |xs|
    ensures |p| == |xs|
  {
    Scale(Inverse(Product(Others(xs, i), xs[i])), NodePolynomial(Others(xs, i)))
  }

  lemma EvalBasisPolynomial(xs: seq<Byte>, i: nat, x: Byte)
    requires i < |xs|
    ensures Eval(BasisPolynomial(xs, i), x) == Weight(xs, i, x)
  {
    hide Add, Times, Inverse, Product, Eval;
    var inv := Inverse(Product(Others(xs, i), xs[i]));
    EvalScale(inv, NodePolynomial(Others(xs, i)), x);
    EvalNodePolynomial(Others(xs, i), x);
    TimesCommutes(inv, Product(Others(xs, i), x));
  }

  // ----- interpolation

  /** The first n terms of the Lagrange sum through (xs, ys), evaluated at x. */
  function LagrangeSum(xs: seq<Byte>, ys: seq<Byte>, x: Byte, n: nat): Byte
    requires |xs| == |ys| && n <= |xs|
  {
    if n == 0 then 0 else Add(LagrangeSum(xs, ys, x, n - 1), Times(ys[n - 1], Weight(xs, n - 1, x)))
  }

  function Lagrange(xs: seq<Byte>, ys: seq<Byte>, x: Byte): Byte
    requires |xs| == |ys|
  {
    LagrangeSum(xs, ys, x, |xs|)
  }

  function PartialInterpolant(xs: seq<Byte>, ys: seq<Byte>, n: nat): (p: Poly)
    requires |xs| == |ys| && n <= |xs|
    ensures |p| == |xs|
  {
    if n == 0 then Zeros(|xs|)
    else Plus(PartialInterpolant(xs, ys, n - 1), Scale(ys[n - 1], BasisPolynomial(xs, n - 1)))
  }

  /** The coefficients of the polynomial through the points (xs, ys). */
  function Interpolant(xs: seq<Byte>, ys: seq<Byte>): (p: Poly)
    requires |xs| == |ys|
    ensures |p| == |xs|
  {
    PartialInterpolant(xs, ys, |xs|)
  }

  lemma {:induction false} EvalPartialInterpolant(xs: seq<Byte>, ys: seq<Byte>, n: nat, x: Byte)
    requires |xs| == |ys| && n <= |xs|
    ensures Eval(PartialInterpolant(xs, ys, n), x) == LagrangeSum(xs, ys, x, n)
  {
    hide Add, Times, Eval, Weight;
    if n == 0 {
      EvalZeros(|xs|, x);
    } else {
      EvalPartialInterpolant(xs, ys, n - 1, x);
      var term := Scale(ys[n - 1], BasisPolynomial(xs, n - 1));
      EvalPlus(PartialInterpolant(xs, ys, n - 1), term, x);
      EvalScale(ys[n - 1], BasisPolynomial(xs, n - 1), x);
      EvalBasisPolynomial(xs, n - 1, x);
    }
  }

  lemma EvalInterpolant(xs: seq<Byte>, ys: seq<Byte>, x: Byte)
    requires |xs| == |ys|
    ensures Eval(Interpolant(xs, ys), x) == Lagrange(xs, ys, x)
  {
    EvalPartialInterpolant(xs, ys, |xs|, x);
  }

  lemma {:induction false} LagrangeSumAtNode(xs: seq<Byte>, ys: seq<Byte>, j: nat, n: nat)
    requires Distinct(xs) && |xs| == |ys| && j < |xs| && n <= |xs|
    ensures LagrangeSum(xs, ys, xs[j], n) == if j < n then ys[j] else 0
  {
    hide Add, Times, Weight;
    if n > 0 {
      LagrangeSumAtNode(xs, ys, j, n - 1);
      WeightAtNodes(xs, n - 1, j);
      TimesOne(ys[n - 1]);
      ZeroTimes(ys[n - 1]);
      AddZero(ys[j]);
      AddZero(0);
    }
  }

  /** The interpolant passes through its points. */
  lemma InterpolantPassesThrough(xs: seq<Byte>, ys: seq<Byte>, j: nat)
    requires Distinct(xs) && |xs| == |ys| && j < |xs|
    ensures Eval(Interpolant(xs, ys), xs[j]) == ys[j]
  {
    EvalInterpolant(xs, ys, xs[j]);
    LagrangeSumAtNode(xs, ys, j, |xs|);
  }

  ghost predicate Through(p: Poly, xs: seq<Byte>, ys: seq<Byte>)
    requires |xs| == |ys|
  {
    forall i :: 0 <= i < |xs| ==> Eval(p, xs[i]) == ys[i]
  }

  /** Two polynomials of the same length that agree on as many points are the same. */
  lemma AgreeingPolynomials(p: Poly, q: Poly, xs: seq<Byte>)
    requires |p| == |q| <= |xs| && Distinct(xs)
    requires forall i :: 0 <= i < |xs| ==> Eval(p, xs[i]) == Eval(q, xs[i])
    ensures p == q
  {
    hide Add, Times, Eval;
    var d := Plus(p, q);
    forall i | 0 <= i < |xs|
      ensures Eval(d, xs[i]) == 0
    {
      EvalPlus(p, q, xs[i]);
      AddIsZero(Eval(p, xs[i]), Eval(q, xs[i]));
    }
    RootBound(d, xs);
    forall i | 0 <= i < |p|
      ensures p[i] == q[i]
    {
      assert d[i] == 0;
      AddIsZero(p[i], q[i]);
    }
  }

  /** Interpolation recovers every polynomial with no more coefficients than points. */
  lemma InterpolationRecovers(p: Poly, xs: seq<Byte>, ys: seq<Byte>, x: Byte)
    requires Distinct(xs) && |xs| == |ys| && |p| <= |xs|
    requires Through(p, xs, ys)
    ensures Lagrange(xs, ys, x) == Eval(p, x)
  {
    hide Add, Times, Eval, Lagrange;
    var padded := p + Zeros(|xs| - |p|);
    forall i | 0 <= i < |xs|
      ensures Eval(padded, xs[i]) == Eval(Interpolant(xs, ys), xs[i])
    {
      EvalPadded(p, |xs| - |p|, xs[i]);
      InterpolantPassesThrough(xs, ys, i);
    }
    AgreeingPolynomials(padded, Interpolant(xs, ys), xs);
    EvalPadded(p, |xs| - |p|, x);
    EvalInterpolant(xs, ys, x);
  }
}
