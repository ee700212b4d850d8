/** The field of 256 elements that every share is computed in: bytes, XOR as addition, and
    multiplication modulo x^8 + x^4 + x^3 + x + 1 (section 4.2 of FIPS 197). */
module Gf256 {

  type Byte = bv8

  function Add(a: Byte, b: Byte): Byte {
    a ^ b
  }

  /** Multiplication by x: shift, then fold the bit that fell out back in as 0x1b. */
  function Xtime(a: Byte): Byte {
    (a << 1) ^ (0x1b & (0 - (a >> 7)))
  }

  /** a when the lowest bit of b is set, zero otherwise, without a branch. */
  function Masked(a: Byte, b: Byte): Byte {
    a & (0 - (b & 1))
  }

  /** Shift-and-add: for every set bit of b, the matching shift of a is added into p. */
  function Accumulate(a: Byte, b: Byte, p: Byte): Byte
    decreases b
  {
    if b == 0 then p else Accumulate(Xtime(a), b >> 1, Add(p, Masked(a, b)))
  }

  function Times(a: Byte, b: Byte): Byte {
    Accumulate(a, b, 0)
  }

  /** Repeated multiplication. */
  function Pow(a: Byte, n: nat): Byte {
    if n == 0 then 1 else Times(a, Pow(a, n - 1))
  }

  function Inverse(a: Byte): Byte {
    Pow(a, 254)
  }

  // ----- the two loops

  method Mul(a0: Byte, b0: Byte) returns (p: Byte)
    ensures p == Times(a0, b0)
  {
    var a, b := a0, b0;
    p := 0;
    for i := 0 to 8
      invariant Accumulate(a, b, p) == Times(a0, b0)
      invariant b & TopBits(i) == 0
    {
      Round(a, b, p, Xtime(a), Add(p, Masked(a, b)));
      ShiftedOut(b, i);
      p := p ^ (a & (0 - (b & 1)));
      var high := a >> 7;
      a := a << 1;
      a := a ^ (0x1b & (0 - high));
      b := b >> 1;
    }
    AllShiftedOut(b);
  }

  method Invert(a: Byte) returns (result: Byte)
    ensures result == Inverse(a)
  {
    hide Times, Pow, TwoTo;
    var power := a;
    result := 1;
    PowOfOne(a);
    for e := 0 to 8
      invariant power == Pow(a, TwoTo(e))
      invariant result == Pow(a, 254 % TwoTo(e))
    {
      PowersOfTwo(e);
      NextBit(TwoTo(e));
      PowAdd(a, TwoTo(e), TwoTo(e));
      if 254 / TwoTo(e) % 2 == 1 {
        PowAdd(a, 254 % TwoTo(e), TwoTo(e));
        result := Mul(result, power);
      }
      power := Mul(power, power);
    }
    AllBits();
  }

  lemma PowOfOne(a: Byte)
    ensures Pow(a, TwoTo(0)) == a && Pow(a, 254 % TwoTo(0)) == 1
  {
    hide Times;
    TimesOne(a);
    assert Pow(a, 1) == Times(a, Pow(a, 0));
  }

  /** The bits of the exponent below the next one, with that one when it is set. */
  lemma NextBit(p: nat)
    requires p in {1, 2, 4, 8, 16, 32, 64, 128}
    ensures 254 % (p + p) == 254 % p + (if 254 / p % 2 == 1 then p else 0)
  {}

  lemma PowersOfTwo(e: nat)
    requires e < 8
    ensures TwoTo(e) in {1, 2, 4, 8, 16, 32, 64, 128} && TwoTo(e + 1) == TwoTo(e) + TwoTo(e)
  {
    assert TwoTo(0) == 1 && TwoTo(1) == 2 && TwoTo(2) == 4 && TwoTo(3) == 8 && TwoTo(4) == 16;
    assert TwoTo(5) == 32 && TwoTo(6) == 64 && TwoTo(7) == 128;
  }

  lemma AllBits()
    ensures 254 % TwoTo(8) == 254
  {
    assert TwoTo(4) == 16;
    assert TwoTo(8) == 256;
  }

  /** The n highest bits of a byte. */
  function TopBits(n: nat): Byte {
    if n == 0 then 0 else (TopBits(n - 1) >> 1) | 0x80
  }

  lemma ShiftedOut(b: Byte, n: nat)
    requires b & TopBits(n) == 0
    ensures (b >> 1) & TopBits(n + 1) == 0
  {
    var t := TopBits(n);
    assert TopBits(n + 1) == (t >> 1) | 0x80;
  }

  lemma AllShiftedOut(b: Byte)
    requires b & TopBits(8) == 0
    ensures b == 0
  {
    assert TopBits(8) == 0xff;
  }

  /** One round, also valid when no bits of b are left, as the fixed-length loop needs. */
  lemma Round(a: Byte, b: Byte, p: Byte, a': Byte, p': Byte)
    requires a' == Xtime(a) && p' == Add(p, Masked(a, b))
    ensures Accumulate(a, b, p) == Accumulate(a', b >> 1, p')
  {}

  // ----- addition

  lemma AddCommutes(a: Byte, b: Byte)
    ensures Add(a, b) == Add(b, a)
  {}

  lemma AddAssociates(a: Byte, b: Byte, c: Byte)
    ensures Add(a, Add(b, c)) == Add(Add(a, b), c)
  {}

  lemma AddZero(a: Byte)
    ensures Add(a, 0) == a && Add(0, a) == a
  {}

  lemma AddSelf(a: Byte, b: Byte)
    ensures Add(a, a) == 0 && Add(a, Add(a, b)) == b && Add(Add(b, a), a) == b
  {}

  lemma AddIsZero(a: Byte, b: Byte)
    ensures Add(a, b) == 0 <==> a == b
  {}

  lemma AddSwap(p: Byte, q: Byte, r: Byte, s: Byte)
    ensures Add(Add(p, q), Add(r, s)) == Add(Add(p, r), Add(q, s))
  {
    hide *;
    AddAssociates(Add(p, q), r, s);
    AddAssociates(p, q, r);
    AddCommutes(q, r);
    AddAssociates(p, r, q);
    AddAssociates(Add(p, r), q, s);
  }

  // ----- multiplication is additive, commutative and associative

  lemma XtimeAdd(a: Byte, c: Byte)
    ensures Xtime(Add(a, c)) == Add(Xtime(a), Xtime(c))
  {}

  lemma MaskedAdd(a: Byte, c: Byte, b: Byte)
    ensures Masked(Add(a, c), b) == Add(Masked(a, b), Masked(c, b))
  {
    MaskedCases(a, b);
    MaskedCases(c, b);
    MaskedCases(Add(a, c), b);
    AddZero(0);
  }

  lemma MaskedCases(a: Byte, b: Byte)
    ensures Masked(a, b) == if b & 1 == 1 then a else 0
  {
    assert b & 1 == 0 || b & 1 == 1;
  }

  lemma MaskedXtime(a: Byte, b: Byte)
    ensures Xtime(Masked(a, b)) == Masked(Xtime(a), b)
  {}

  lemma {:induction false} AccumulateAdd(a: Byte, c: Byte, b: Byte, p: Byte, q: Byte)
    ensures Accumulate(Add(a, c), b, Add(p, q)) == Add(Accumulate(a, b, p), Accumulate(c, b, q))
    decreases b
  {
    hide Add, Xtime, Masked;
    if b != 0 {
      var a', c', p', q' := Xtime(a), Xtime(c), Add(p, Masked(a, b)), Add(q, Masked(c, b));
      MaskedAdd(a, c, b);
      AddSwap(p, q, Masked(a, b), Masked(c, b));
      XtimeAdd(a, c);
      AccumulateAdd(a', c', b >> 1, p', q');
    }
  }

  lemma {:induction false} AccumulateXtime(a: Byte, b: Byte, p: Byte)
    ensures Accumulate(Xtime(a), b, Xtime(p)) == Xtime(Accumulate(a, b, p))
    decreases b
  {
    hide Add, Xtime, Masked;
    if b != 0 {
      XtimeAdd(p, Masked(a, b));
      MaskedXtime(a, b);
      AccumulateXtime(Xtime(a), b >> 1, Add(p, Masked(a, b)));
    }
  }

  lemma {:induction false} AccumulateZero(b: Byte, p: Byte)
    ensures Accumulate(0, b, p) == p
    decreases b
  {
    if b != 0 {
      AccumulateZero(b >> 1, p);
    }
  }

  lemma AddTimes(a: Byte, c: Byte, b: Byte)
    ensures Times(Add(a, c), b) == Add(Times(a, b), Times(c, b))
  {
    AccumulateAdd(a, c, b, 0, 0);
  }

  lemma XtimeTimes(a: Byte, b: Byte)
    ensures Times(Xtime(a), b) == Xtime(Times(a, b))
  {
    AccumulateXtime(a, b, 0);
  }

  lemma ZeroTimes(b: Byte)
    ensures Times(0, b) == 0 && Times(b, 0) == 0
  {
    AccumulateZero(b, 0);
  }

  lemma MaskedTimes(a: Byte, c: Byte, b: Byte)
    ensures Times(Masked(a, c), b) == Masked(Times(a, b), c)
  {
    hide Times;
    ZeroTimes(b);
    if c & 1 == 0 {
    } else {
      assert c & 1 == 1;
    }
  }

  lemma OneTimes(b: Byte)
    ensures Times(1, b) == b
  {
    hide Accumulate, Xtime, Masked;
    OneTimesLow(b);
    OneTimesHigh(b);
  }

  lemma OneTimesLow(b: Byte)
    ensures Accumulate(1, b, 0) == Accumulate(16, b >> 4, b & 15)
  {
    hide Accumulate;
    Round(1, b, 0, 2, b & 1);
    Round(2, b >> 1, b & 1, 4, b & 3);
    Round(4, b >> 2, b & 3, 8, b & 7);
    Round(8, b >> 3, b & 7, 16, b & 15);
  }

  lemma OneTimesHigh(b: Byte)
    ensures Accumulate(16, b >> 4, b & 15) == b
  {
    hide Accumulate;
    Round(16, b >> 4, b & 15, 32, b & 31);
    Round(32, b >> 5, b & 31, 64, b & 63);
    Round(64, b >> 6, b & 63, 128, b & 127);
    Round(128, b >> 7, b & 127, 0x1b, b);
    NoBitsLeft(0x1b, b);
  }

  lemma NoBitsLeft(a: Byte, p: Byte)
    ensures Accumulate(a, 0, p) == p
  {}

  /** A product's left factor may be expanded bit by bit: (p + a.c) b = p b + (a b).c */
  lemma {:induction false} AccumulateTimes(a: Byte, c: Byte, p: Byte, b: Byte)
    ensures Times(Accumulate(a, c, p), b) == Accumulate(Times(a, b), c, Times(p, b))
    decreases c
  {
    hide Add, Times, Xtime, Masked;
    if c != 0 {
      AccumulateTimes(Xtime(a), c >> 1, Add(p, Masked(a, c)), b);
      XtimeTimes(a, b);
      AddTimes(p, Masked(a, c), b);
      MaskedTimes(a, c, b);
    }
  }

  lemma TimesCommutes(a: Byte, b: Byte)
    ensures Times(a, b) == Times(b, a)
  {
    hide Accumulate;
    AccumulateTimes(1, a, 0, b);
    OneTimes(a);
    OneTimes(b);
    ZeroTimes(b);
  }

  lemma TimesAssociates(a: Byte, b: Byte, c: Byte)
    ensures Times(a, Times(b, c)) == Times(Times(a, b), c)
  {
    hide Accumulate;
    AccumulateTimes(b, c, 0, a);
    ZeroTimes(a);
    TimesCommutes(a, Times(b, c));
    TimesCommutes(a, b);
  }

  lemma TimesAdd(a: Byte, b: Byte, c: Byte)
    ensures Times(a, Add(b, c)) == Add(Times(a, b), Times(a, c))
  {
    hide *;
    AddTimes(b, c, a);
    TimesCommutes(a, Add(b, c));
    TimesCommutes(a, b);
    TimesCommutes(a, c);
  }

  lemma TimesOne(a: Byte)
    ensures Times(a, 1) == a && Times(1, a) == a
  {
    hide *;
    TimesCommutes(a, 1);
    OneTimes(a);
  }

  // ----- every element but zero has an inverse

  lemma {:induction false} PowAdd(a: Byte, m: nat, n: nat)
    ensures Pow(a, m + n) == Times(Pow(a, m), Pow(a, n))
  {
    hide Times;
    if m == 0 {
      OneTimes(Pow(a, n));
    } else {
      PowAdd(a, m - 1, n);
      TimesAssociates(a, Pow(a, m - 1), Pow(a, n));
    }
  }

  /** a squared n times over. */
  function Frobenius(a: Byte, n: nat): Byte
    decreases n
  {
    if n == 0 then a else Frobenius(Times(a, a), n - 1)
  }

  lemma SquareAdd(a: Byte, b: Byte)
    ensures Times(Add(a, b), Add(a, b)) == Add(Times(a, a), Times(b, b))
  {
    hide *;
    AddTimes(a, b, Add(a, b));
    TimesAdd(a, a, b);
    TimesAdd(b, a, b);
    TimesCommutes(a, b);
    var cross := Times(a, b);
    AddCommutes(cross, Times(b, b));
    AddSwap(Times(a, a), cross, Times(b, b), cross);
    AddSelf(cross, 0);
    AddZero(Add(Times(a, a), Times(b, b)));
  }

  lemma SquareTimes(a: Byte, b: Byte)
    ensures Times(Times(a, b), Times(a, b)) == Times(Times(a, a), Times(b, b))
  {
    hide *;
    TimesAssociates(Times(a, b), a, b);
    TimesCommutes(Times(a, b), a);
    TimesAssociates(a, a, b);
    TimesAssociates(Times(a, a), b, b);
  }

  /** Repeated squaring is additive, because the cross terms cancel in characteristic two. */
  lemma {:induction false} FrobeniusAdd(a: Byte, b: Byte, n: nat)
    ensures Frobenius(Add(a, b), n) == Add(Frobenius(a, n), Frobenius(b, n))
    decreases n
  {
    hide Add, Times;
    if n > 0 {
      SquareAdd(a, b);
      FrobeniusAdd(Times(a, a), Times(b, b), n - 1);
    }
  }

  lemma {:induction false} FrobeniusTimes(a: Byte, b: Byte, n: nat)
    ensures Frobenius(Times(a, b), n) == Times(Frobenius(a, n), Frobenius(b, n))
    decreases n
  {
    hide Add, Times;
    if n > 0 {
      SquareTimes(a, b);
      FrobeniusTimes(Times(a, a), Times(b, b), n - 1);
    }
  }

  lemma {:induction false} FrobeniusIsPow(a: Byte, n: nat, m: nat)
    requires m > 0
    ensures Frobenius(Pow(a, m), n) == Pow(a, TwoTo(n) * m)
    decreases n
  {
    hide Times, Pow;
    if n > 0 {
      PowAdd(a, m, m);
      FrobeniusIsPow(a, n - 1, m + m);
      Doubled(n, m);
    }
  }

  lemma Doubled(n: nat, m: nat)
    requires n > 0
    ensures TwoTo(n) * m == TwoTo(n - 1) * (m + m)
  {
    var p := TwoTo(n - 1);
    assert 2 * p * m == p * (m + m);
  }

  function TwoTo(n: nat): (p: nat)
    ensures p >= 1
  {
    if n == 0 then 1 else 2 * TwoTo(n - 1)
  }

  lemma {:induction false} FrobeniusMasked(a: Byte, b: Byte, n: nat)
    ensures Frobenius(Masked(a, b), n) == Masked(Frobenius(a, n), b)
    decreases n
  {
    hide Times, Masked;
    MaskedCases(a, b);
    MaskedCases(Frobenius(a, n), b);
    FrobeniusZero(n);
  }

  lemma {:induction false} FrobeniusZero(n: nat)
    ensures Frobenius(0, n) == 0
    decreases n
  {
    hide Times;
    if n > 0 {
      ZeroTimes(0);
      FrobeniusZero(n - 1);
    }
  }

  /** All eight rounds of a product written out. */
  function Unrolled(a: Byte, b: Byte): Byte {
    var a1 := Xtime(a);
    var a2 := Xtime(a1);
    var a3 := Xtime(a2);
    var a4 := Xtime(a3);
    var a5 := Xtime(a4);
    var a6 := Xtime(a5);
    var a7 := Xtime(a6);
    Add(Add(Add(Add(Add(Add(Add(Add(0, Masked(a, b)), Masked(a1, b >> 1)), Masked(a2, b >> 2)), Masked(a3, b >> 3)),
      Masked(a4, b >> 4)), Masked(a5, b >> 5)), Masked(a6, b >> 6)), Masked(a7, b >> 7))
  }

  lemma TimesIsUnrolled(a: Byte, b: Byte)
    ensures Times(a, b) == Unrolled(a, b)
  {
    hide Add, Xtime, Masked, Accumulate;
    var a1 := Xtime(a);
    var a2 := Xtime(a1);
    var a3 := Xtime(a2);
    var a4 := Xtime(a3);
    var p4 := Add(Add(Add(Add(0, Masked(a, b)), Masked(a1, b >> 1)), Masked(a2, b >> 2)), Masked(a3, b >> 3));
    FourRounds(a, b, 0);
    FourRounds(a4, b >> 4, p4);
    assert b >> 4 >> 1 == b >> 5 && b >> 4 >> 2 == b >> 6 && b >> 4 >> 3 == b >> 7 && b >> 4 >> 4 == 0;
    NoBitsLeft(Xtime(Xtime(Xtime(Xtime(a4)))), Unrolled(a, b));
  }

  lemma FourRounds(a: Byte, b: Byte, p: Byte)
    ensures
      var a1 := Xtime(a);
      var a2 := Xtime(a1);
      var a3 := Xtime(a2);
      Accumulate(a, b, p) == Accumulate(Xtime(a3), b >> 4,
        Add(Add(Add(Add(p, Masked(a, b)), Masked(a1, b >> 1)), Masked(a2, b >> 2)), Masked(a3, b >> 3)))
  {
    hide Add, Xtime, Masked, Accumulate;
    var a1, p1 := Xtime(a), Add(p, Masked(a, b));
    Round(a, b, p, a1, p1);
    var a2, p2 := Xtime(a1), Add(p1, Masked(a1, b >> 1));
    Round(a1, b >> 1, p1, a2, p2);
    var a3, p3 := Xtime(a2), Add(p2, Masked(a2, b >> 2));
    Round(a2, b >> 2, p2, a3, p3);
    Round(a3, b >> 3, p3, Xtime(a3), Add(p3, Masked(a3, b >> 3)));
    assert b >> 1 >> 1 == b >> 2 && b >> 2 >> 1 == b >> 3 && b >> 3 >> 1 == b >> 4;
  }

  /** Eight squarings fix x, hence fix everything. */
  lemma EightSquaringsOfX()
    ensures Frobenius(1, 8) == 1 && Frobenius(2, 8) == 2
  {
    hide Times;
    OneTimes(1);
    Square(0x02, 0x04);
    Square(0x04, 0x10);
    Square(0x10, 0x1b);
    Square(0x1b, 0x5e);
    Square(0x5e, 0xe4);
    Square(0xe4, 0x4d);
    Square(0x4d, 0xfa);
    Square(0xfa, 0x02);
  }

  lemma Square(a: Byte, r: Byte)
    requires r == Unrolled(a, a)
    ensures Times(a, a) == r
  {
    hide *;
    TimesIsUnrolled(a, a);
  }

  /** The field is the AES one: x^8 = x^4 + x^3 + x + 1, and {57} times {83} is {c1} (section
      4.2 of FIPS 197). */
  lemma FieldIsAes()
    ensures Times(0x80, 2) == Add(Add(0x10, 0x08), Add(0x02, 0x01))
    ensures Times(0x57, 0x83) == 0xc1
  {
    hide Times;
    TimesIsUnrolled(0x80, 2);
    TimesIsUnrolled(0x57, 0x83);
  }

  lemma {:induction false} FrobeniusAccumulate(a: Byte, b: Byte, p: Byte)
    ensures Frobenius(Accumulate(a, b, p), 8) == Accumulate(Frobenius(a, 8), b, Frobenius(p, 8))
    decreases b
  {
    hide Add, Times, Xtime, Masked, Frobenius;
    if b != 0 {
      FrobeniusAccumulate(Xtime(a), b >> 1, Add(p, Masked(a, b)));
      FrobeniusAdd(p, Masked(a, b), 8);
      FrobeniusMasked(a, b, 8);
      FrobeniusXtime(a);
    }
  }

  lemma FrobeniusXtime(a: Byte)
    ensures Frobenius(Xtime(a), 8) == Xtime(Frobenius(a, 8))
  {
    hide *;
    XIsTwo(a);
    XIsTwo(Frobenius(a, 8));
    FrobeniusTimes(2, a, 8);
    EightSquaringsOfX();
  }

  lemma XIsTwo(a: Byte)
    ensures Xtime(a) == Times(2, a)
  {
    hide Times;
    XtimeTimes(1, a);
    OneTimes(a);
  }

  lemma EightSquaringsAreIdentity(a: Byte)
    ensures Frobenius(a, 8) == a
  {
    hide *;
    FrobeniusAccumulate(1, a, 0);
    EightSquaringsOfX();
    FrobeniusZero(8);
    UnfoldTimes(1, a);
    OneTimes(a);
  }

  lemma UnfoldTimes(a: Byte, b: Byte)
    ensures Times(a, b) == Accumulate(a, b, 0)
  {}

  lemma Pow256(a: Byte)
    ensures Pow(a, 256) == a
  {
    hide Times;
    TimesOne(a);
    assert Pow(a, 1) == a;
    FrobeniusIsPow(a, 8, 1);
    EightSquaringsAreIdentity(a);
    assert TwoTo(8) == 256;
  }

  /** No element but 0 and 1 is its own square. */
  lemma Idempotent(e: Byte)
    requires Times(e, e) == e
    ensures e == 0 || e == 1
  {
    hide Times;
    TimesIsUnrolled(e, e);
  }

  lemma InverseIsInverse(a: Byte)
    requires a != 0
    ensures Times(a, Inverse(a)) == 1 && Inverse(a) != 0
  {
    hide *;
    var e := Pow(a, 255);
    PowStep(a, 255);
    Pow256(a);
    ZeroTimes(a);
    PowAdd(a, 255, 255);
    PowAdd(a, 256, 254);
    PowStep(a, 254);
    assert Times(e, e) == e;
    Idempotent(e);
    InverseIsPow(a);
  }

  lemma PowStep(a: Byte, n: nat)
    ensures Pow(a, n + 1) == Times(a, Pow(a, n))
  {
    hide Times;
  }

  lemma InverseIsPow(a: Byte)
    ensures Inverse(a) == Pow(a, 254)
  {}

  lemma NoZeroDivisors(a: Byte, b: Byte)
    requires Times(a, b) == 0
    ensures a == 0 || b == 0
  {
    hide *;
    if a != 0 {
      InverseIsInverse(a);
      TimesCommutes(a, Inverse(a));
      TimesAssociates(Inverse(a), a, b);
      TimesOne(b);
      ZeroTimes(Inverse(a));
    }
  }
}
