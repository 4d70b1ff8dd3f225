/** Rounding an exact rational to binary32, and the fused multiply-add.
    Magnitudes are compared in units of 2^-149, the smallest subnormal. */
module Rounding {
  import opened Powers

  const HIDDEN: nat := 0x80_0000          // 2^23
  const INFINITY: nat := 0x7F80_0000
  const SIGN: nat := 0x8000_0000
  const QUIET_NAN: nat := 0x7FC0_0000

  // ---------------- the reference ----------------

  // The magnitude of a sign-less pattern in units of 2^-149; infinity stands for 2^128.
  function Scale(b: nat): nat {
    var e, m := b / HIDDEN, b % HIDDEN;
    if e == 0 then m else (m + HIDDEN) * Pow2(e - 1)
  }

  // x <= y, strictly when asked.
  predicate AtMost(x: int, y: int, strict: bool) {
    if strict then x < y else x <= y
  }

  /** r is n / d rounded to nearest, ties to even: n / d lies between the
      midpoints to both neighbours, and on a midpoint only when r is even. */
  predicate Nearest(n: nat, d: nat, r: nat)
    requires d > 0
  {
    && r <= INFINITY
    && (r > 0 ==> AtMost(d * (Scale(r - 1) + Scale(r)), 2 * n * Pow2(149), r % 2 == 1))
    && (r < INFINITY ==> AtMost(2 * n * Pow2(149), d * (Scale(r) + Scale(r + 1)), r % 2 == 1))
  }

  // ---------------- the code ----------------

  function BitLength(n: nat): nat {
    if n == 0 then 0 else 1 + BitLength(n / 2)
  }

  // sn / sd rounded to an integer, ties to even.
  function RoundInt(sn: nat, sd: nat): nat
    requires sd > 0
  {
    var q, rem := sn / sd, sn % sd;
    if 2 * rem > sd || (2 * rem == sd && q % 2 == 1) then q + 1 else q
  }

  // floor(log2(n / d)).
  function Exponent(n: nat, d: nat): int
    requires n > 0 && d > 0
  {
    var e := BitLength(n) - BitLength(d);
    if n * Pow2(if e < 0 then -e else 0) < d * Pow2(if e > 0 then e else 0) then e - 1 else e
  }

  // The 24-bit significand of n / d at exponent e, after rounding.
  function Significand(n: nat, d: nat, e: int): nat
    requires d > 0
  {
    if e <= 23 then RoundInt(n * Pow2(23 - e), d) else RoundInt(n, d * Pow2(e - 23))
  }

  function RoundMagnitude(n: nat, d: nat): (r: nat)
    requires n > 0 && d > 0
    ensures r <= INFINITY
  {
    var exp := Exponent(n, d);
    if exp < -200 then 0
    else if exp > 127 then INFINITY
    else
      var q0 := Significand(n, d, exp);
      var carry := q0 >= 2 * HIDDEN;
      var q := if carry then q0 / 2 else q0;
      var e := (if carry then exp + 1 else exp) + 127;
      if e >= 0xFF then INFINITY
      else if e <= 0 then
        var q2 := RoundInt(n * Pow2(149), d);
        if q2 >= HIDDEN then HIDDEN else q2
      else e * HIDDEN + q % HIDDEN
  }

  // ---------------- powers and logarithms ----------------

  lemma {:induction false} BitLengthBounds(n: nat)
    requires n > 0
    ensures BitLength(n) > 0 && Pow2(BitLength(n) - 1) <= n < Pow2(BitLength(n))
  {
    if n > 1 {
      BitLengthBounds(n / 2);
    }
  }

  // 2^e <= n / d < 2^(e + 1)
  predicate IsExponent(n: nat, d: nat, e: int) {
    if e >= 0 then d * Pow2(e) <= n < d * Pow2(e + 1)
    else d <= n * Pow2(-e) && n * Pow2(-e - 1) < d
  }

  lemma TimesOrdered(a: nat, b: nat, c: nat)
    ensures a <= b ==> a * c <= b * c
    ensures a < b && c > 0 ==> a * c < b * c
  {
  }

  lemma CancelRight(a: int, b: int, c: nat)
    requires c > 0
    ensures a * c <= b * c ==> a <= b
    ensures a * c < b * c ==> a < b
  {
    if a > b {
      assert a * c == b * c + (a - b) * c;
    }
  }

  lemma LengthUpper(n: nat, d: nat, e: nat)
    requires n > 0 && d > 0 && BitLength(n) <= BitLength(d) + e
    ensures n < d * Pow2(e + 1)
  {
    hide Pow2, BitLength;
    BitLengthBounds(n);
    BitLengthBounds(d);
    PowOrdered(BitLength(n), BitLength(d) + e);
    PowSum(BitLength(d) - 1, e + 1);
    TimesOrdered(Pow2(BitLength(d) - 1), d, Pow2(e + 1));
  }

  lemma LengthLower(n: nat, d: nat, e: nat)
    requires n > 0 && d > 0 && e > 0 && BitLength(d) + e <= BitLength(n)
    ensures d * Pow2(e - 1) < n
  {
    hide Pow2, BitLength;
    BitLengthBounds(n);
    BitLengthBounds(d);
    PowOrdered(BitLength(d) + e - 1, BitLength(n) - 1);
    PowSum(BitLength(d), e - 1);
    TimesOrdered(d, Pow2(BitLength(d)), Pow2(e - 1));
  }

  lemma {:induction false} PowOrdered(a: nat, b: nat)
    requires a <= b
    ensures Pow2(a) <= Pow2(b)
  {
    if a < b {
      PowOrdered(a, b - 1);
    }
  }

  lemma ExponentIs(n: nat, d: nat)
    requires n > 0 && d > 0
    ensures IsExponent(n, d, Exponent(n, d))
  {
    hide BitLength;
    var e := BitLength(n) - BitLength(d);
    assert Pow2(0) == 1 && Pow2(1) == 2;
    if e >= 0 {
      LengthUpper(n, d, e);
      if e > 0 {
        LengthLower(n, d, e);
        assert Pow2(e) == 2 * Pow2(e - 1);
      } else {
        LengthUpper(d, n, 0);
      }
    } else {
      LengthLower(d, n, -e);
      LengthUpper(d, n, -e);
      assert Pow2(-e + 1) == 2 * Pow2(-e);
    }
  }

  // ---------------- the scale of patterns ----------------

  // A significand q at binary exponent k - 126 sits at this pattern.
  function At(k: nat, q: nat): nat {
    k * HIDDEN + q
  }

  lemma ScaleAt(k: nat, q: nat)
    requires HIDDEN <= q <= 2 * HIDDEN
    ensures Scale(At(k, q)) == q * Pow2(k)
  {
    hide Pow2;
    if q < 2 * HIDDEN {
      assert At(k, q) / HIDDEN == k + 1 && At(k, q) % HIDDEN == q - HIDDEN;
    } else {
      assert At(k, q) / HIDDEN == k + 2 && At(k, q) % HIDDEN == 0;
      Doubled(k);
    }
  }

  lemma Doubled(k: nat)
    ensures HIDDEN * Pow2(k + 1) == 2 * HIDDEN * Pow2(k)
  {
  }

  lemma ScaleSmall(q: nat)
    requires q <= HIDDEN
    ensures Scale(q) == q
  {
    assert Pow2(0) == 1;
  }

  lemma ScaleStep(b: nat)
    ensures Scale(b) < Scale(b + 1)
  {
    hide Pow2;
    if b < HIDDEN {
      ScaleSmall(b);
      ScaleSmall(b + 1);
    } else {
      var k, q := b / HIDDEN - 1, b % HIDDEN + HIDDEN;
      assert b == At(k, q) && b + 1 == At(k, q + 1);
      ScaleAt(k, q);
      ScaleAt(k, q + 1);
      assert (q + 1) * Pow2(k) == q * Pow2(k) + Pow2(k);
    }
  }

  lemma {:induction false} ScaleOrdered(a: nat, b: nat)
    requires a <= b
    ensures Scale(a) <= Scale(b)
    ensures a < b ==> Scale(a) < Scale(b)
    decreases b - a
  {
    hide Scale;
    if a < b {
      ScaleOrdered(a, b - 1);
      ScaleStep(b - 1);
    }
  }

  // ---------------- the code meets the reference ----------------

  lemma RoundIntIs(sn: nat, sd: nat)
    requires sd > 0
    ensures var q := RoundInt(sn, sd);
      && (q > 0 ==> AtMost((2 * q - 1) * sd, 2 * sn, q % 2 == 1))
      && AtMost(2 * sn, (2 * q + 1) * sd, q % 2 == 1)
  {
    var f := sn / sd;
    assert sn == f * sd + sn % sd;
    Around(f, sd);
  }

  lemma Around(f: nat, sd: nat)
    ensures (2 * f + 1) * sd == 2 * (f * sd) + sd && (2 * f - 1) * sd == 2 * (f * sd) - sd
    ensures (2 * (f + 1) - 1) * sd == 2 * (f * sd) + sd && (2 * (f + 1) + 1) * sd == 2 * (f * sd) + 3 * sd
  {
  }

  // A bound on n * 2^149 follows from the same bound on the scaled fraction.
  lemma ScaledBound(x: nat, sn: nat, sd: nat, n: nat, d: nat, u: nat, strict: bool)
    requires sd > 0 && d > 0 && u > 0 && n * Pow2(149) * sd == sn * u * d
    ensures AtMost(x * sd, 2 * sn, strict) ==> AtMost(d * (x * u), 2 * n * Pow2(149), strict)
    ensures AtMost(2 * sn, x * sd, strict) ==> AtMost(2 * n * Pow2(149), d * (x * u), strict)
  {
    hide Pow2;
    var t := n * Pow2(149);
    assert x * sd * (u * d) == d * (x * u) * sd by { Shuffle(x, sd, u, d); }
    assert 2 * sn * (u * d) == 2 * t * sd by { Regroup(sn, u, d); }
    TimesOrdered(x * sd, 2 * sn, u * d);
    TimesOrdered(2 * sn, x * sd, u * d);
    CancelRight(d * (x * u), 2 * t, sd);
    CancelRight(2 * t, d * (x * u), sd);
    assert 2 * t == 2 * n * Pow2(149);
    Positive(u, d);
  }

  lemma Positive(u: nat, d: nat)
    requires u > 0 && d > 0
    ensures u * d > 0
  {
  }

  lemma Shuffle(x: nat, sd: nat, u: nat, d: nat)
    ensures x * sd * (u * d) == d * (x * u) * sd
  {
  }

  lemma Regroup(sn: nat, u: nat, d: nat)
    ensures 2 * sn * (u * d) == 2 * (sn * u * d)
  {
  }

  // The fraction the significand is rounded from, at exponent e.
  function ScaledNum(n: nat, e: int): nat {
    if e <= 23 then n * Pow2(23 - e) else n
  }

  function ScaledDen(d: nat, e: int): nat {
    if e <= 23 then d else d * Pow2(e - 23)
  }

  lemma ScaledSame(n: nat, d: nat, e: int)
    requires d > 0 && e >= -126
    ensures ScaledDen(d, e) > 0
    ensures n * Pow2(149) * ScaledDen(d, e) == ScaledNum(n, e) * Pow2(e + 126) * d
  {
    hide Pow2;
    if e <= 23 {
      PowSum(23 - e, e + 126);
      assert Pow2(149) == Pow2(23 - e) * Pow2(e + 126);
      Reorder(n, Pow2(23 - e), Pow2(e + 126), d);
    } else {
      PowSum(149, e - 23);
      Positive(d, Pow2(e - 23));
      Reorder2(n, Pow2(149), d, Pow2(e - 23));
    }
  }

  lemma Reorder(n: nat, a: nat, b: nat, d: nat)
    ensures n * (a * b) * d == n * a * b * d
  {
    assert n * (a * b) == n * a * b;
  }

  lemma Reorder2(n: nat, a: nat, d: nat, b: nat)
    ensures n * a * (d * b) == n * (a * b) * d
  {
    assert n * a * (d * b) == (n * a * b) * d;
    assert n * (a * b) == n * a * b;
  }

  // The scaled fraction lies in [2^23, 2^24).
  lemma ScaledRange(n: nat, d: nat, e: int)
    requires n > 0 && d > 0 && IsExponent(n, d, e)
    ensures HIDDEN * ScaledDen(d, e) <= ScaledNum(n, e) < 2 * HIDDEN * ScaledDen(d, e)
  {
    hide Pow2;
    Pow23();
    if e > 23 {
      PowSum(23, e - 23);
      PowSum(24, e - 23);
      Reorder3(d, HIDDEN, Pow2(e - 23));
      Reorder3(d, 2 * HIDDEN, Pow2(e - 23));
    } else if e >= 0 {
      PowSum(e, 23 - e);
      PowSum(e + 1, 23 - e);
      TimesOrdered(d * Pow2(e), n, Pow2(23 - e));
      TimesOrdered(n, d * Pow2(e + 1), Pow2(23 - e));
      Reorder4(d, Pow2(e), Pow2(23 - e));
      Reorder4(d, Pow2(e + 1), Pow2(23 - e));
    } else {
      PowSum(-e, 23);
      PowSum(-e - 1, 24);
      TimesOrdered(d, n * Pow2(-e), HIDDEN);
      TimesOrdered(n * Pow2(-e - 1), d, 2 * HIDDEN);
      Reorder4(n, Pow2(-e), HIDDEN);
      Reorder4(n, Pow2(-e - 1), 2 * HIDDEN);
    }
  }

  lemma Pow23()
    ensures Pow2(23) == HIDDEN && Pow2(24) == 2 * HIDDEN
  {
    assert Pow2(8) == 256 by { assert Pow2(4) == 16; PowSum(4, 4); }
    PowSum(8, 8);
    assert Pow2(7) == 128 by { assert Pow2(3) == 8; assert Pow2(4) == 16; PowSum(3, 4); }
    PowSum(16, 7);
  }

  lemma Reorder3(d: nat, a: nat, b: nat)
    ensures a * (d * b) == d * (a * b)
  {
  }

  lemma Reorder4(d: nat, a: nat, b: nat)
    ensures d * a * b == d * (a * b) && d * a * b == (a * b) * d && d * b == b * d
  {
  }

  lemma SignificandIs(n: nat, d: nat, e: int)
    requires n > 0 && d > 0 && IsExponent(n, d, e)
    ensures ScaledDen(d, e) > 0 && Significand(n, d, e) == RoundInt(ScaledNum(n, e), ScaledDen(d, e))
    ensures HIDDEN <= Significand(n, d, e) <= 2 * HIDDEN
  {
    hide Pow2, IsExponent, RoundInt;
    if e > 23 {
      Positive(d, Pow2(e - 23));
    }
    ScaledRange(n, d, e);
    RoundIntRange(ScaledNum(n, e), ScaledDen(d, e), HIDDEN);
  }

  lemma RoundIntRange(sn: nat, sd: nat, h: nat)
    requires sd > 0 && h * sd <= sn < 2 * h * sd
    ensures h <= RoundInt(sn, sd) <= 2 * h
  {
    QuotientBetween(sn, sd, h, 2 * h);
  }

  lemma QuotientBetween(sn: nat, sd: nat, a: nat, b: nat)
    requires sd > 0 && a * sd <= sn < b * sd
    ensures a <= sn / sd < b
  {
    var q := sn / sd;
    assert sn == q * sd + sn % sd;
    assert (q + 1) * sd == q * sd + sd;
    CancelRight(a, q + 1, sd);
    CancelRight(q, b, sd);
  }

  /** At a normal exponent the rounded significand gives the nearest pattern. */
  lemma {:induction false} NormalIsNearest(n: nat, d: nat, e: int)
    requires n > 0 && d > 0 && IsExponent(n, d, e) && -126 <= e <= 127
    ensures Nearest(n, d, At(e + 126, Significand(n, d, e)))
  {
    hide Pow2, IsExponent, RoundInt, Significand, Scale, ScaledNum, ScaledDen;
    SignificandIs(n, d, e);
    ScaledSame(n, d, e);
    ScaledRange(n, d, e);
    var sn, sd, u, q, r := ScaledNum(n, e), ScaledDen(d, e), Pow2(e + 126), Significand(n, d, e), At(e + 126, Significand(n, d, e));
    RoundIntIs(sn, sd);
    ScaleAt(e + 126, q);
    LowerSide(n, d, e + 126, sn, sd, q);
    if r < INFINITY {
      UpperSide(n, d, e + 126, sn, sd, q);
    }
  }

  lemma AtParity(k: nat, q: nat)
    ensures At(k, q) % 2 == q % 2
  {
  }

  // The grid points around q, written as one product each.
  lemma AroundQ(k: nat, q: nat)
    requires HIDDEN <= q <= 2 * HIDDEN
    ensures q > HIDDEN ==> Scale(At(k, q) - 1) + Scale(At(k, q)) == (2 * q - 1) * Pow2(k)
    ensures q < 2 * HIDDEN ==> Scale(At(k, q)) + Scale(At(k, q) + 1) == (2 * q + 1) * Pow2(k)
  {
    hide Pow2, Scale;
    ScaleAt(k, q);
    if q > HIDDEN {
      ScaleAt(k, q - 1);
      assert At(k, q) - 1 == At(k, q - 1);
      Together(q, Pow2(k));
    }
    if q < 2 * HIDDEN {
      ScaleAt(k, q + 1);
      assert At(k, q) + 1 == At(k, q + 1);
      Together(q + 1, Pow2(k));
    }
  }

  // At either end of the binade the neighbour outside is at most as far as the grid point itself.
  lemma AroundEnds(k: nat, q: nat)
    requires HIDDEN <= q <= 2 * HIDDEN
    ensures Scale(At(k, q) - 1) + Scale(At(k, q)) <= 2 * q * Pow2(k) <= Scale(At(k, q)) + Scale(At(k, q) + 1)
    ensures Scale(At(k, q) - 1) + Scale(At(k, q)) < 2 * q * Pow2(k)
  {
    hide Pow2, Scale;
    ScaleAt(k, q);
    ScaleOrdered(At(k, q) - 1, At(k, q));
    ScaleOrdered(At(k, q), At(k, q) + 1);
    assert 2 * q * Pow2(k) == q * Pow2(k) + q * Pow2(k);
  }

  lemma LowerSide(n: nat, d: nat, k: nat, sn: nat, sd: nat, q: nat)
    requires sd > 0 && d > 0 && n * Pow2(149) * sd == sn * Pow2(k) * d
    requires HIDDEN <= q <= 2 * HIDDEN && HIDDEN * sd <= sn
    requires AtMost((2 * q - 1) * sd, 2 * sn, q % 2 == 1)
    ensures AtMost(d * (Scale(At(k, q) - 1) + Scale(At(k, q))), 2 * n * Pow2(149), At(k, q) % 2 == 1)
  {
    hide Pow2, Scale, At;
    AtParity(k, q);
    if q > HIDDEN {
      AroundQ(k, q);
      ScaledBound(2 * q - 1, sn, sd, n, d, Pow2(k), q % 2 == 1);
    } else {
      LowerEnd(n, d, k, sn, sd);
    }
  }

  lemma LowerEnd(n: nat, d: nat, k: nat, sn: nat, sd: nat)
    requires sd > 0 && d > 0 && n * Pow2(149) * sd == sn * Pow2(k) * d && HIDDEN * sd <= sn
    ensures d * (Scale(At(k, HIDDEN) - 1) + Scale(At(k, HIDDEN))) < 2 * n * Pow2(149)
  {
    hide Pow2, Scale;
    AroundEnds(k, HIDDEN);
    EndBelow(2 * HIDDEN, Scale(At(k, HIDDEN) - 1) + Scale(At(k, HIDDEN)), n, d, Pow2(k), sn, sd);
  }

  lemma EndBelow(x: nat, a: nat, n: nat, d: nat, u: nat, sn: nat, sd: nat)
    requires sd > 0 && d > 0 && u > 0 && n * Pow2(149) * sd == sn * u * d && x * sd <= 2 * sn && a < x * u
    ensures d * a < 2 * n * Pow2(149)
  {
    hide Pow2;
    ScaledBound(x, sn, sd, n, d, u, false);
    TimesBelow(a, x * u, d, 2 * n * Pow2(149));
  }

  lemma UpperSide(n: nat, d: nat, k: nat, sn: nat, sd: nat, q: nat)
    requires sd > 0 && d > 0 && n * Pow2(149) * sd == sn * Pow2(k) * d
    requires HIDDEN <= q <= 2 * HIDDEN && sn < 2 * HIDDEN * sd
    requires AtMost(2 * sn, (2 * q + 1) * sd, q % 2 == 1)
    ensures AtMost(2 * n * Pow2(149), d * (Scale(At(k, q)) + Scale(At(k, q) + 1)), At(k, q) % 2 == 1)
  {
    hide Pow2, Scale, At;
    AtParity(k, q);
    if q < 2 * HIDDEN {
      AroundQ(k, q);
      ScaledBound(2 * q + 1, sn, sd, n, d, Pow2(k), q % 2 == 1);
    } else {
      AroundEnds(k, q);
      ScaledBound(2 * q, sn, sd, n, d, Pow2(k), false);
      TimesOrdered(2 * q * Pow2(k), Scale(At(k, q)) + Scale(At(k, q) + 1), d);
      Swap(2 * q * Pow2(k), d);
      Swap(Scale(At(k, q)) + Scale(At(k, q) + 1), d);
      assert q % 2 == 0;
    }
  }

  lemma Swap(a: nat, b: nat)
    ensures a * b == b * a
  {
  }

  lemma TimesBelow(a: nat, b: nat, d: nat, t: nat)
    requires a < b && d > 0 && d * b <= t
    ensures d * a < t
  {
    TimesOrdered(a, b, d);
    Swap(a, d);
    Swap(b, d);
  }

  lemma Together(q: nat, u: nat)
    requires q > 0
    ensures (q - 1) * u + q * u == (2 * q - 1) * u
  {
  }

  // Among subnormals the grid is the unit itself.
  lemma SubnormalIsNearest(n: nat, d: nat, q: nat)
    requires d > 0 && q <= HIDDEN
    requires q > 0 ==> AtMost((2 * q - 1) * d, 2 * (n * Pow2(149)), q % 2 == 1)
    requires AtMost(2 * (n * Pow2(149)), (2 * q + 1) * d, q % 2 == 1)
    ensures Nearest(n, d, q)
  {
    hide Pow2, Scale;
    ScaleSmall(q);
    assert 2 * n * Pow2(149) == 2 * (n * Pow2(149));
    if q > 0 {
      ScaleSmall(q - 1);
      Swap(2 * q - 1, d);
    }
    ScaleStep(q);
    TimesOrdered(2 * q + 1, Scale(q) + Scale(q + 1), d);
    Swap(Scale(q) + Scale(q + 1), d);
    if q < HIDDEN {
      ScaleSmall(q + 1);
    }
  }

  lemma SmallRounds(n: nat, d: nat, e: int)
    requires n > 0 && d > 0 && IsExponent(n, d, e) && e <= -127
    ensures n * Pow2(149) < HIDDEN * d && RoundInt(n * Pow2(149), d) <= HIDDEN
    ensures e < -200 ==> RoundInt(n * Pow2(149), d) == 0
    ensures e == -127 && Significand(n, d, e) >= 2 * HIDDEN ==> RoundInt(n * Pow2(149), d) == HIDDEN
  {
    hide Pow2, RoundInt, Significand;
    Pow23();
    PowOrdered(126, -e - 1);
    TimesOrdered(Pow2(126), Pow2(-e - 1), n);
    assert n * Pow2(126) < d;
    PowSum(126, 23);
    Reorder4(n, Pow2(126), HIDDEN);
    TimesOrdered(n * Pow2(126), d, HIDDEN);
    if n * Pow2(149) < d {
      RoundsToZero(n, d, e);
      RoundsBelow(n * Pow2(149), d, 1);
    } else {
      RoundsBelow(n * Pow2(149), d, HIDDEN);
      RoundsToZero(n, d, e);
    }
    if e == -127 && Significand(n, d, e) >= 2 * HIDDEN {
      CarriesUp(n, d);
    }
  }

  lemma RoundsBelow(sn: nat, sd: nat, h: nat)
    requires sd > 0 && sn < h * sd
    ensures RoundInt(sn, sd) <= h
  {
    var q := sn / sd;
    assert sn == q * sd + sn % sd;
    CancelRight(q, h, sd);
  }

  lemma RoundsToZero(n: nat, d: nat, e: int)
    requires n > 0 && d > 0 && IsExponent(n, d, e) && e <= -127
    ensures e < -200 ==> RoundInt(n * Pow2(149), d) == 0
  {
    hide Pow2, RoundInt;
    if e < -200 {
      PowOrdered(150, -e - 1);
      TimesOrdered(Pow2(150), Pow2(-e - 1), n);
      assert Pow2(150) == 2 * Pow2(149) by { PowSum(1, 149); PowOne(); }
      TwiceProduct(n, Pow2(149), Pow2(150));
      Swap(n, Pow2(150));
      Swap(n, Pow2(-e - 1));
      RoundsToNone(n * Pow2(149), d);
    }
  }

  lemma TwiceProduct(n: nat, p: nat, q: nat)
    requires q == 2 * p
    ensures n * q == 2 * (n * p)
  {
  }

  // Less than half rounds to nothing.
  lemma RoundsToNone(sn: nat, sd: nat)
    requires 2 * sn < sd
    ensures RoundInt(sn, sd) == 0
  {
    var f := sn / sd;
    assert sn == f * sd + sn % sd;
    TimesOrdered(1, f, sd);
    assert f == 0;
  }

  lemma PowOne()
    ensures Pow2(0) == 1 && Pow2(1) == 2
  {
  }

  // Just below the least normal, a carry out of the 24-bit rounding is also a carry on the subnormal grid.
  lemma {:induction false} CarriesUp(n: nat, d: nat)
    requires n > 0 && d > 0 && IsExponent(n, d, -127) && Significand(n, d, -127) >= 2 * HIDDEN
    requires n * Pow2(149) < HIDDEN * d
    ensures RoundInt(n * Pow2(149), d) == HIDDEN
  {
    hide Pow2, RoundInt, IsExponent;
    var t := n * Pow2(149);
    SignificandIs(n, d, -127);
    RoundIntIs(n * Pow2(150), d);
    assert n * Pow2(150) == 2 * t by { PowSum(1, 149); PowOne(); }
    RoundsUpTo(t, d, HIDDEN);
  }

  lemma RoundsUpTo(t: nat, d: nat, h: nat)
    requires d > 0 && h > 0 && t < h * d && (4 * h - 1) * d <= 4 * t
    ensures RoundInt(t, d) == h
  {
    QuotientIs(t, d, h);
    var r := t % d;
    assert t == h * d - d + r;
    Quadruple(h, d);
  }

  lemma QuotientIs(t: nat, d: nat, h: nat)
    requires d > 0 && h > 0 && t < h * d && (4 * h - 1) * d <= 4 * t
    ensures t / d == h - 1 && t == h * d - d + t % d
  {
    var q := t / d;
    assert t == q * d + t % d;
    CancelRight(q, h, d);
    CancelRight(4 * h - 1, 4 * (q + 1), d);
    assert (h - 1) * d == h * d - d;
  }

  lemma Quadruple(h: nat, d: nat)
    requires h > 0
    ensures (4 * h - 1) * d == 4 * (h * d) - d
  {
  }

  /** The code rounds every positive rational to the nearest binary32 magnitude,
      ties to even: subnormals, the carry into the least normal and the
      rounding up to infinity included. */
  lemma {:induction false} RoundsToNearest(n: nat, d: nat)
    requires n > 0 && d > 0
    ensures Nearest(n, d, RoundMagnitude(n, d))
  {
    hide Pow2, RoundInt, Significand, Nearest, Exponent, IsExponent;
    var e := Exponent(n, d);
    ExponentIs(n, d);
    if e > 127 {
      Overflows(n, d, e);
    } else if e >= -126 {
      SignificandIs(n, d, e);
      NormalIsNearest(n, d, e);
    } else {
      SmallRounds(n, d, e);
      SignificandIs(n, d, e);
      RoundIntIs(n * Pow2(149), d);
      SubnormalIsNearest(n, d, RoundInt(n * Pow2(149), d));
    }
  }

  lemma {:induction false} Overflows(n: nat, d: nat, e: int)
    requires n > 0 && d > 0 && IsExponent(n, d, e) && e > 127
    ensures Nearest(n, d, INFINITY)
  {
    hide Pow2, Scale;
    PowOrdered(128, e);
    TimesOrdered(Pow2(128), Pow2(e), d);
    Swap(d, Pow2(128));
    Swap(d, Pow2(e));
    ScaleAt(253, 2 * HIDDEN);
    assert At(253, 2 * HIDDEN) == INFINITY;
    Pow23();
    PowSum(24, 253);
    PowSum(128, 149);
    TimesOrdered(d * Pow2(128), n, Pow2(149));
    Reorder4(d, Pow2(128), Pow2(149));
    ScaleOrdered(INFINITY - 1, INFINITY);
    TimesBelow(Scale(INFINITY - 1) + Scale(INFINITY), 2 * Pow2(277), d, 2 * n * Pow2(149));
  }
}
