/** The fused multiply-add on binary32 patterns, compared with the
    fusedMultiplyAdd of section 5.4.1 of IEEE 754-2019. */
module FusedMultiplyAdd {
  import opened Powers
  import opened Rounding
  import opened RoundingLaws

  predicate IsNan(b: Bits) {
    Field(b) == 0xFF && Magnitude(b) % HIDDEN != 0
  }

  predicate IsInf(b: Bits) {
    Field(b) == 0xFF && Magnitude(b) % HIDDEN == 0
  }

  predicate IsZero(b: Bits) {
    Magnitude(b) == 0
  }

  function Times(v: Frac, w: Frac): Frac {
    Frac(v.num * w.num, v.den * w.den)
  }

  function Plus(v: Frac, w: Frac): Frac {
    Frac(v.num * w.den + w.num * v.den, v.den * w.den)
  }

  // The exact a * b + c of finite operands.
  function ExactFma(a: Bits, b: Bits, c: Bits): (v: Frac)
    requires Field(a) < 0xFF && Field(b) < 0xFF && Field(c) < 0xFF
    ensures v.den > 0
  {
    var p := Times(ExactOf(a), ExactOf(b));
    Positive(ExactOf(a).den, ExactOf(b).den);
    Positive(p.den, ExactOf(c).den);
    Plus(p, ExactOf(c))
  }

  /** The code. */
  function Fma(a: Bits, b: Bits, c: Bits): Bits {
    if IsNan(a) || IsNan(b) || IsNan(c) then QUIET_NAN
    else if Field(a) == 0xFF || Field(b) == 0xFF then
      if Field(c) == 0xFF && Negative(c) != (Negative(a) != Negative(b)) then QUIET_NAN
      else Signed(Negative(a) != Negative(b), INFINITY)
    else if Field(c) == 0xFF then Signed(Negative(c), INFINITY)
    else FracToF32(ExactFma(a, b, c))
  }

  // ---------------- the standard ----------------

  // The exact result in units of 2^-298.
  function ExactUnits(a: Bits, b: Bits, c: Bits): int {
    SignedScale(a) * SignedScale(b) + SignedScale(c) * Pow2(149)
  }

  /** r is what the standard requires, with the one quiet NaN pattern the
      emulator uses: an invalid operation or a NaN operand gives it; an
      infinite operand dominates; a nonzero exact result is rounded once; an
      exact zero is +0 unless it is the sum of two negative zeros. */
  predicate Standard(a: Bits, b: Bits, c: Bits, r: Bits) {
    var product := Negative(a) != Negative(b);
    if IsNan(a) || IsNan(b) || IsNan(c) then r == QUIET_NAN
    else if (IsInf(a) && IsZero(b)) || (IsZero(a) && IsInf(b)) then r == QUIET_NAN
    else if IsInf(a) || IsInf(b) then
      r == if IsInf(c) && Negative(c) != product then QUIET_NAN else Signed(product, INFINITY)
    else if IsInf(c) then r == c
    else if ExactUnits(a, b, c) == 0 then
      r == Signed((IsZero(a) || IsZero(b)) && IsZero(c) && product && Negative(c), 0)
    else
      (Negative(r) <==> ExactUnits(a, b, c) < 0) && Nearest(AbsOf(ExactUnits(a, b, c)), Pow2(298), Magnitude(r))
  }

  // infinity * 0, with an addend that does not by itself make the code return a NaN.
  predicate InfinityTimesZero(a: Bits, b: Bits, c: Bits) {
    && !IsNan(c) && ((IsInf(a) && IsZero(b)) || (IsZero(a) && IsInf(b)))
    && !(IsInf(c) && Negative(c) != (Negative(a) != Negative(b)))
  }

  // (-0) + (-0): a product that is a negative zero and a negative zero addend.
  predicate NegativeZeros(a: Bits, b: Bits, c: Bits) {
    && Field(a) < 0xFF && Field(b) < 0xFF && (IsZero(a) || IsZero(b)) && Negative(a) != Negative(b)
    && IsZero(c) && Negative(c)
  }

  // ---------------- exact arithmetic on scaled integers ----------------

  lemma ScaledSum(a: Frac, b: Frac, c: Frac, x: int, y: int, z: int, p: nat, p2: nat)
    requires a.num * p == x * a.den && b.num * p == y * b.den && c.num * p == z * c.den && p2 == p * p
    ensures var v := Plus(Times(a, b), c); v.num * p2 == (x * y + z * p) * v.den
  {
    var ab := a.num * b.num;
    assert ab * p2 == (x * y) * (a.den * b.den) by { Products(a.num, b.num, x, y, a.den, b.den, p); }
    Distribute(ab, c.den, c.num, a.den * b.den, p2);
    Carry(ab, c.den, p2, x * y, a.den * b.den);
    Carry2(c.num, a.den * b.den, p, z, c.den);
    Distribute2(x * y, z * p, a.den * b.den * c.den);
  }

  lemma Products(an: int, bn: int, x: int, y: int, ad: nat, bd: nat, p: nat)
    requires an * p == x * ad && bn * p == y * bd
    ensures an * bn * (p * p) == (x * y) * (ad * bd)
  {
    assert an * bn * (p * p) == (an * p) * (bn * p) by { Interleave(an, bn, p, p); }
    Interleave(x, y, ad, bd);
  }

  lemma Interleave(a: int, b: int, c: int, d: int)
    ensures a * b * (c * d) == (a * c) * (b * d)
  {
    assert a * b * (c * d) == a * (b * c) * d;
    assert (a * c) * (b * d) == a * (c * b) * d;
  }

  lemma Distribute(ab: int, cd: nat, cn: int, abd: nat, p2: nat)
    ensures (ab * cd + cn * abd) * p2 == ab * cd * p2 + cn * abd * p2
  {
  }

  lemma Distribute2(u: int, w: int, d: nat)
    ensures (u + w) * d == u * d + w * d
  {
  }

  lemma Carry(ab: int, cd: nat, p2: nat, xy: int, abd: nat)
    requires ab * p2 == xy * abd
    ensures ab * cd * p2 == xy * (abd * cd)
  {
    assert ab * cd * p2 == ab * p2 * cd;
  }

  lemma Carry2(cn: int, abd: nat, p: nat, z: int, cd: nat)
    requires cn * p == z * cd
    ensures cn * abd * (p * p) == z * p * (abd * cd)
  {
    Interleave(cn, abd, p, p);
    Interleave(z, p, cd, abd);
    assert cn * abd * (p * p) == (cn * p) * (abd * p);
    assert z * p * (cd * abd) == (z * cd) * (p * abd);
  }

  lemma {:induction false} ExactIsUnits(a: Bits, b: Bits, c: Bits)
    requires Field(a) < 0xFF && Field(b) < 0xFF && Field(c) < 0xFF
    ensures ExactFma(a, b, c).num * Pow2(298) == ExactUnits(a, b, c) * ExactFma(a, b, c).den
  {
    hide Pow2, ExactOf, SignedScale;
    ExactIsScale(a);
    ExactIsScale(b);
    ExactIsScale(c);
    PowSum(149, 149);
    ScaledSum(ExactOf(a), ExactOf(b), ExactOf(c), SignedScale(a), SignedScale(b), SignedScale(c), Pow2(149), Pow2(298));
  }

  // ---------------- one rounding ----------------

  /** On finite operands with a nonzero exact result the code rounds that
      result once, to nearest, ties to even. */
  lemma {:induction false} OneRounding(a: Bits, b: Bits, c: Bits)
    requires Field(a) < 0xFF && Field(b) < 0xFF && Field(c) < 0xFF && ExactUnits(a, b, c) != 0
    ensures Negative(Fma(a, b, c)) <==> ExactUnits(a, b, c) < 0
    ensures Nearest(AbsOf(ExactUnits(a, b, c)), Pow2(298), Magnitude(Fma(a, b, c)))
  {
    hide Pow2, ExactFma, ExactUnits, RoundMagnitude, Nearest;
    var v, units := ExactFma(a, b, c), ExactUnits(a, b, c);
    ExactIsUnits(a, b, c);
    SignsAgree(v.num, units, v.den, Pow2(298));
    AbsProduct(v.num, Pow2(298), units, v.den);
    RoundsToNearest(AbsOf(v.num), v.den);
    SignedParts(v.num < 0, RoundMagnitude(AbsOf(v.num), v.den));
    SameRational(AbsOf(v.num), v.den, AbsOf(units), Pow2(298), RoundMagnitude(AbsOf(v.num), v.den));
  }

  /** The nearest pattern depends only on the rational. */
  lemma SameRational(n: nat, d: nat, n2: nat, d2: nat, r: nat)
    requires d > 0 && d2 > 0 && n * d2 == n2 * d && Nearest(n, d, r)
    ensures Nearest(n2, d2, r)
  {
    hide Pow2, Scale;
    if r > 0 {
      BelowTransfers(n, d, n2, d2, Scale(r - 1) + Scale(r));
    }
    if r < INFINITY {
      BelowTransfers(n, d, n2, d2, Scale(r) + Scale(r + 1));
    }
  }

  lemma BelowTransfers(n: nat, d: nat, n2: nat, d2: nat, x: nat)
    requires d > 0 && d2 > 0 && n * d2 == n2 * d
    ensures d * x <= 2 * n * Pow2(149) ==> d2 * x <= 2 * n2 * Pow2(149)
    ensures d * x < 2 * n * Pow2(149) ==> d2 * x < 2 * n2 * Pow2(149)
    ensures 2 * n * Pow2(149) <= d * x ==> 2 * n2 * Pow2(149) <= d2 * x
    ensures 2 * n * Pow2(149) < d * x ==> 2 * n2 * Pow2(149) < d2 * x
  {
    hide Pow2;
    var p := Pow2(149);
    assert 2 * n * p * d2 == 2 * n2 * p * d by { Move(n, d2, p); Move(n2, d, p); }
    Three(d, x, d2);
    Three(d2, x, d);
    TimesOrdered(d * x, 2 * n * p, d2);
    TimesOrdered(2 * n * p, d * x, d2);
    CancelRight(d2 * x, 2 * n2 * p, d);
    CancelRight(2 * n2 * p, d2 * x, d);
  }

  // ---------------- the code and the standard ----------------

  lemma {:induction false} ZeroResult(a: Bits, b: Bits, c: Bits)
    requires Field(a) < 0xFF && Field(b) < 0xFF && Field(c) < 0xFF && ExactUnits(a, b, c) == 0
    ensures Fma(a, b, c) == 0
  {
    hide Pow2, ExactFma, ExactUnits;
    ExactIsUnits(a, b, c);
    SignsAgree(ExactFma(a, b, c).num, 0, ExactFma(a, b, c).den, Pow2(298));
  }

  lemma {:induction false} ZeroUnits(a: Bits, b: Bits, c: Bits)
    requires (IsZero(a) || IsZero(b)) && IsZero(c)
    ensures ExactUnits(a, b, c) == 0
  {
    hide Pow2, Scale;
    ScaleSmall(0);
    assert SignedScale(c) == 0;
    assert SignedScale(a) * SignedScale(b) == 0;
  }

  /** For all inputs: the code is the standard's fusedMultiplyAdd unless an
      infinity meets a zero, or both summands are negative zeros. */
  lemma {:induction false} FmaExactlyWhen(a: Bits, b: Bits, c: Bits)
    ensures Standard(a, b, c, Fma(a, b, c)) <==> !InfinityTimesZero(a, b, c) && !NegativeZeros(a, b, c)
  {
    hide Pow2, ExactFma, ExactUnits, Nearest, FracToF32;
    if Field(a) < 0xFF && Field(b) < 0xFF && Field(c) < 0xFF {
      if ExactUnits(a, b, c) == 0 {
        ZeroResult(a, b, c);
      } else {
        OneRounding(a, b, c);
        if (IsZero(a) || IsZero(b)) && IsZero(c) {
          ZeroUnits(a, b, c);
        }
      }
    } else {
      InfinityParts(c);
    }
  }

  lemma InfinityParts(c: Bits)
    ensures IsInf(c) ==> c == Signed(Negative(c), INFINITY)
  {
  }

  /** infinity * 0 + 1 comes back as infinity, where the standard has a NaN. */
  lemma {:induction false} InfinityTimesZeroIsWrong()
    ensures Fma(INFINITY, 0, 0x3F80_0000) == INFINITY && !Standard(INFINITY, 0, 0x3F80_0000, INFINITY)
    ensures Standard(INFINITY, 0, 0x3F80_0000, QUIET_NAN)
  {
    hide Pow2, ExactFma, ExactUnits, Nearest, FracToF32;
  }

  /** (-0) * 1 + (-0) comes back as +0, where the standard has -0. */
  lemma {:induction false} NegativeZerosAreWrong()
    ensures var z, one := 0x8000_0000, 0x3F80_0000;
      Fma(z, one, z) == 0 && !Standard(z, one, z, 0) && Standard(z, one, z, z)
  {
    hide Pow2, ExactFma, ExactUnits, Nearest, FracToF32;
    ZeroUnits(0x8000_0000, 0x3F80_0000, 0x8000_0000);
    ZeroResult(0x8000_0000, 0x3F80_0000, 0x8000_0000);
  }

  // ---------------- laws ----------------

  /** The product's operands can be exchanged, whatever they are. */
  lemma {:induction false} FmaCommutes(a: Bits, b: Bits, c: Bits)
    ensures Fma(a, b, c) == Fma(b, a, c)
  {
    hide ExactOf, FracToF32;
    if Field(a) < 0xFF && Field(b) < 0xFF && Field(c) < 0xFF {
      Swapped(ExactOf(a).num, ExactOf(b).num);
      Swapped(ExactOf(a).den, ExactOf(b).den);
    }
  }

  lemma Swapped(x: int, y: int)
    ensures x * y == y * x
  {
  }

  /** A larger addend never gives a smaller result. */
  lemma {:induction false} FmaMonotone(a: Bits, b: Bits, c: Bits, c2: Bits)
    requires Field(a) < 0xFF && Field(b) < 0xFF && Field(c) < 0xFF && Field(c2) < 0xFF
    requires SignedScale(c) <= SignedScale(c2)
    ensures Rank(Fma(a, b, c)) <= Rank(Fma(a, b, c2))
  {
    hide Pow2, SignedScale, ExactFma, FracToF32;
    var v, w := ExactFma(a, b, c), ExactFma(a, b, c2);
    var x, y := ExactUnits(a, b, c), ExactUnits(a, b, c2);
    ExactIsUnits(a, b, c);
    ExactIsUnits(a, b, c2);
    assert x <= y by { SignedOrdered(SignedScale(c), SignedScale(c2), Pow2(149)); }
    CrossOrdered(v.num, v.den, x, w.num, w.den, y, Pow2(298));
    RoundingMonotone(v, w);
  }

  lemma SignedOrdered(x: int, y: int, p: nat)
    requires x <= y
    ensures x * p <= y * p
  {
    assert y * p == x * p + (y - x) * p;
  }

  lemma CrossOrdered(n: int, d: nat, x: int, m: int, e: nat, y: int, p: nat)
    requires p > 0 && n * p == x * d && m * p == y * e && x <= y
    ensures n * e <= m * d
  {
    SignedOrdered(x, y, d * e);
    Interleave(x, 1, d, e);
    Interleave(y, 1, e, d);
    assert n * e * p == x * (d * e) by { assert n * e * p == n * p * e; assert x * d * e == x * (d * e); }
    assert m * d * p == y * (d * e) by { assert m * d * p == m * p * d; assert y * e * d == y * (d * e); }
    CancelRight(n * e, m * d, p);
  }
}
