/** The conversion of binary32 patterns to binary16.  Subnormal results are
    rounded to nearest, ties to even; normal results are rounded three bits too
    low and then truncated. */
module HalfPrecision {
  import opened Powers
  import opened Rounding
  import opened RoundingLaws

  const HALF_HIDDEN: nat := 0x400
  const HALF_INFINITY: nat := 0x7C00
  const HALF_SIGN: nat := 0x8000

  // ---------------- the code ----------------

  /** The 16-bit pattern of a 32-bit pattern. */
  function ToHalf(b: Bits): nat {
    var sign, mag := if Negative(b) then HALF_SIGN else 0, Magnitude(b);
    if mag > INFINITY then sign + HALF_INFINITY + 0x200 else sign + HalfOf(mag)
  }

  // Infinity, then zero and the binary32 subnormals, then the rest.
  function HalfOf(mag: nat): nat
    requires mag <= INFINITY
  {
    var e, m := mag / HIDDEN, mag % HIDDEN;
    if e == 0xFF then HALF_INFINITY else if e == 0 then 0 else HalfMagnitude(e, m)
  }

  // Finite, not a binary32 subnormal: e is the biased exponent, m the fraction.
  function HalfMagnitude(e: nat, m: nat): nat
    requires 0 < e < 0xFF && m < HIDDEN
  {
    var exp := e - 127;
    var sig := (m + HIDDEN) * 8;
    if exp > 15 then HALF_INFINITY
    else if exp >= -14 then
      var q, r := sig / 0x2000, sig % 0x2000;
      var q' := if r > 0x1000 || (r == 0x1000 && q % 2 == 1) then q + 1 else q;
      if exp == 15 && q' / 8 >= 0x800 then HALF_INFINITY
      else
        var carry := q' / 8 == 0x800;
        var q2 := if carry then q' / 2 else q';
        var exp2 := if carry then exp + 1 else exp;
        if exp2 > 15 then HALF_INFINITY
        else (exp2 + 15) * HALF_HIDDEN + q2 / 8 % HALF_HIDDEN
    else
      var shift := 2 - exp;
      if shift > 45 then 0 else RoundInt(sig, Pow2(shift)) % 0x10000
  }

  // The value of a sign-less binary16 pattern in units of 2^-24; infinity stands for 2^16.
  function HalfScale(h: nat): nat {
    var e, m := h / HALF_HIDDEN, h % HALF_HIDDEN;
    if e == 0 then m else (m + HALF_HIDDEN) * Pow2(e - 1)
  }

  // ---------------- closed forms ----------------

  // The least magnitude with a normal binary16 exponent.
  const NORMAL: nat := 113 * HIDDEN
  // The least magnitude beyond the binary16 range, 2^16.
  const BEYOND: nat := 143 * HIDDEN

  lemma RoundCarry(x: nat)
    requires HIDDEN <= x < 2 * HIDDEN
    ensures var sig := x * 8;
      var q := sig / 0x2000;
      var q' := if sig % 0x2000 > 0x1000 || (sig % 0x2000 == 0x1000 && q % 2 == 1) then q + 1 else q;
      q' / 8 == (x + 512) / 8192
  {
  }

  /** A normal result: the significand plus 512, cut off at 13 bits. */
  lemma {:induction false} NormalForm(mag: nat)
    requires NORMAL <= mag < BEYOND
    ensures var k, x := mag / HIDDEN - 113, mag % HIDDEN + HIDDEN;
      HalfOf(mag) == k * HALF_HIDDEN + (x + 512) / 8192 && HALF_HIDDEN <= (x + 512) / 8192 <= 2 * HALF_HIDDEN
  {
    var e, m := mag / HIDDEN, mag % HIDDEN;
    RoundCarry(m + HIDDEN);
    NormalMagnitude(e, m);
  }

  lemma NormalMagnitude(e: nat, m: nat)
    requires 113 <= e < 143 && m < HIDDEN
    ensures HalfMagnitude(e, m) == (e - 113) * HALF_HIDDEN + (m + HIDDEN + 512) / 8192
  {
    RoundCarry(m + HIDDEN);
  }

  // Rounding depends only on the rational.
  lemma RoundIntScaled(sn: nat, sd: nat, c: nat)
    requires sd > 0 && c > 0
    ensures sd * c > 0 && RoundInt(sn * c, sd * c) == RoundInt(sn, sd)
  {
    Positive(sd, c);
    var q, r := sn / sd, sn % sd;
    assert sn == q * sd + r;
    Together2(q, sd, r, c);
    TimesOrdered(r, sd, c);
    QuotientUnique(sn * c, sd * c, q, r * c);
    CancelRight(2 * r, sd, c);
    CancelRight(sd, 2 * r, c);
  }

  lemma Together2(q: nat, sd: nat, r: nat, c: nat)
    ensures (q * sd + r) * c == q * (sd * c) + r * c
  {
    assert q * sd * c == q * (sd * c);
  }

  lemma QuotientUnique(n: nat, d: nat, q: nat, r: nat)
    requires d > 0 && n == q * d + r && r < d
    ensures n / d == q && n % d == r
  {
    var q2 := n / d;
    assert n == q2 * d + n % d;
    CancelRight(q, q2 + 1, d);
    CancelRight(q2, q + 1, d);
  }

  lemma {:induction false} RoundsToNought(sn: nat, sd: nat)
    requires sd > 0 && 2 * sn < sd
    ensures RoundInt(sn, sd) == 0
  {
    QuotientUnique(sn, sd, 0, sn);
  }

  // The code's subnormal shift is the value in units of 2^-24.
  lemma SubnormalShift(e: nat, m: nat)
    requires 0 < e < 113 && m < HIDDEN
    ensures HalfMagnitude(e, m) == RoundInt((m + HIDDEN) * Pow2(e - 1), Pow2(125)) <= HALF_HIDDEN
  {
    hide Pow2, RoundInt;
    var x := m + HIDDEN;
    if e < 84 {
      PowOrdered(e - 1, 82);
      Reorder4(x, 1, Pow2(e - 1));
      TimesOrdered(Pow2(e - 1), Pow2(82), x);
      TimesOrdered(x, Pow2(24), Pow2(82));
      Pow23();
      PowSum(24, 82);
      PowOrdered(107, 125);
      PowSum(1, 106);
      PowOne();
      Swap(x, Pow2(82));
      Swap(x, Pow2(e - 1));
      RoundsToNought(x * Pow2(e - 1), Pow2(125));
    } else {
      PowSum(129 - e, e - 4);
      PowSum(3, e - 4);
      PowThree();
      Reorder4(x, 8, Pow2(e - 4));
      RoundIntScaled(x * 8, Pow2(129 - e), Pow2(e - 4));
      SubnormalBound(x, e);
    }
  }

  lemma PowThree()
    ensures Pow2(3) == 8
  {
  }

  lemma SubnormalBound(x: nat, e: nat)
    requires 84 <= e < 113 && x < 2 * HIDDEN
    ensures RoundInt(x * 8, Pow2(129 - e)) <= HALF_HIDDEN
  {
    hide Pow2, RoundInt;
    PowOrdered(17, 129 - e);
    PowSum(17, 10);
    Pow23();
    assert Pow2(17) == 131072 by { PowSum(17, 7); PowSeven(); }
    TimesOrdered(131072, Pow2(129 - e), HALF_HIDDEN);
    RoundsBelow(x * 8, Pow2(129 - e), HALF_HIDDEN);
  }

  lemma PowSeven()
    ensures Pow2(7) == 128
  {
    PowSum(3, 4);
    PowThree();
    assert Pow2(4) == 16;
  }

  /** A subnormal result is the value in units of 2^-24, rounded to an integer. */
  lemma {:induction false} SubnormalForm(mag: nat)
    requires mag < NORMAL
    ensures HalfOf(mag) == RoundInt(Scale(mag), Pow2(125)) <= HALF_HIDDEN
  {
    hide Pow2, RoundInt;
    var e, m := mag / HIDDEN, mag % HIDDEN;
    if e == 0 {
      Pow23();
      PowOrdered(24, 125);
      RoundsToNought(mag, Pow2(125));
    } else {
      SubnormalShift(e, m);
    }
  }

  lemma BeyondForm(mag: nat)
    requires BEYOND <= mag <= INFINITY
    ensures HalfOf(mag) == HALF_INFINITY
  {
  }

  // ---------------- order ----------------

  lemma RoundIntMonotone(a: nat, b: nat, d: nat)
    requires d > 0 && a <= b
    ensures RoundInt(a, d) <= RoundInt(b, d)
  {
    QuotientsOrdered(a, b, d);
  }

  lemma QuotientsOrdered(a: nat, b: nat, d: nat)
    requires d > 0 && a <= b
    ensures a / d <= b / d && (a / d == b / d ==> a % d <= b % d)
  {
    var q, p := a / d, b / d;
    assert a == q * d + a % d && b == p * d + b % d;
    assert (p + 1) * d == p * d + d;
    CancelRight(q, p + 1, d);
  }

  /** A larger magnitude never converts to a smaller one. */
  lemma {:induction false} HalfMonotone(a: nat, b: nat)
    requires a <= b <= INFINITY
    ensures HalfOf(a) <= HalfOf(b) <= HALF_INFINITY
  {
    hide Pow2, Scale, RoundInt, HalfOf;
    if b < NORMAL {
      SubnormalForm(a);
      SubnormalForm(b);
      ScaleOrdered(a, b);
      RoundIntMonotone(Scale(a), Scale(b), Pow2(125));
    } else if b >= BEYOND {
      BeyondForm(b);
      HalfBounded(a);
    } else {
      NormalForm(b);
      if a < NORMAL {
        SubnormalForm(a);
      } else {
        NormalForm(a);
      }
    }
  }

  lemma HalfBounded(a: nat)
    requires a <= INFINITY
    ensures HalfOf(a) <= HALF_INFINITY
  {
    hide Pow2, Scale, RoundInt, HalfOf;
    if a < NORMAL {
      SubnormalForm(a);
    } else if a < BEYOND {
      NormalForm(a);
    } else {
      BeyondForm(a);
    }
  }

  function HalfRank(h: nat): int {
    var m: int := h % HALF_SIGN;
    if h >= HALF_SIGN then -m else m
  }

  /** Over all patterns that are not NaN, the conversion keeps the order of values. */
  lemma {:induction false} ConversionMonotone(a: Bits, b: Bits)
    requires Magnitude(a) <= INFINITY && Magnitude(b) <= INFINITY && Rank(a) <= Rank(b)
    ensures HalfRank(ToHalf(a)) <= HalfRank(ToHalf(b))
  {
    hide HalfOf, ToHalf, HalfRank;
    SignSplits(a);
    SignSplits(b);
    if Negative(a) && Negative(b) {
      HalfMonotone(Magnitude(b), Magnitude(a));
    } else if !Negative(a) && !Negative(b) {
      HalfMonotone(Magnitude(a), Magnitude(b));
    }
  }

  lemma SignSplits(b: Bits)
    requires Magnitude(b) <= INFINITY
    ensures var h: int := HalfOf(Magnitude(b)); HalfRank(ToHalf(b)) == if Negative(b) then -h else h
    ensures Magnitude(b) == 0 ==> HalfOf(Magnitude(b)) == 0
  {
    hide HalfMagnitude;
    HalfBounded(Magnitude(b));
  }

  // ---------------- the binary16 grid ----------------

  function HalfAt(k: nat, q: nat): nat {
    k * HALF_HIDDEN + q
  }

  lemma HalfScaleAt(k: nat, q: nat)
    requires HALF_HIDDEN <= q <= 2 * HALF_HIDDEN
    ensures HalfScale(HalfAt(k, q)) == q * Pow2(k)
  {
    hide Pow2;
    if q < 2 * HALF_HIDDEN {
      assert HalfAt(k, q) / HALF_HIDDEN == k + 1 && HalfAt(k, q) % HALF_HIDDEN == q - HALF_HIDDEN;
    } else {
      assert HalfAt(k, q) / HALF_HIDDEN == k + 2 && HalfAt(k, q) % HALF_HIDDEN == 0;
      PowSum(1, k);
      PowOne();
      Reorder4(HALF_HIDDEN, 2, Pow2(k));
    }
  }

  lemma HalfScaleSmall(q: nat)
    requires q <= HALF_HIDDEN
    ensures HalfScale(q) == q
  {
    PowOne();
  }

  lemma HalfScaleStep(h: nat)
    ensures HalfScale(h) < HalfScale(h + 1)
  {
    hide Pow2;
    if h < HALF_HIDDEN {
      HalfScaleSmall(h);
      HalfScaleSmall(h + 1);
    } else {
      var k, q := h / HALF_HIDDEN - 1, h % HALF_HIDDEN + HALF_HIDDEN;
      assert h == HalfAt(k, q) && h + 1 == HalfAt(k, q + 1);
      HalfScaleAt(k, q);
      HalfScaleAt(k, q + 1);
      assert (q + 1) * Pow2(k) == q * Pow2(k) + Pow2(k);
    }
  }

  lemma {:induction false} HalfScaleOrdered(a: nat, b: nat)
    requires a <= b
    ensures HalfScale(a) <= HalfScale(b)
    ensures a < b ==> HalfScale(a) < HalfScale(b)
    decreases b - a
  {
    hide HalfScale;
    if a < b {
      HalfScaleOrdered(a, b - 1);
      HalfScaleStep(b - 1);
    }
  }

  // ---------------- one of the two neighbours ----------------

  /** r is the value itself or one of the two binary16 values around it. */
  predicate Neighbour(mag: nat, r: nat) {
    && r <= HALF_INFINITY
    && (r > 0 ==> HalfScale(r - 1) * Pow2(125) < Scale(mag))
    && (r < HALF_INFINITY ==> Scale(mag) < HalfScale(r + 1) * Pow2(125))
  }

  lemma SubnormalNeighbour(mag: nat)
    requires mag < NORMAL
    ensures Neighbour(mag, HalfOf(mag))
  {
    hide Pow2, Scale, HalfScale, HalfOf, RoundInt;
    SubnormalForm(mag);
    var x, r := Scale(mag), HalfOf(mag);
    RoundIntIs(x, Pow2(125));
    if r > 0 {
      HalfScaleSmall(r - 1);
      OddMultiple(r - 1, Pow2(125));
    }
    HalfScaleSmall(r);
    HalfScaleStep(r);
    TimesOrdered(r + 1, HalfScale(r + 1), Pow2(125));
    OddMultiple(r, Pow2(125));
  }

  lemma OddMultiple(r: nat, p: nat)
    ensures (2 * r + 1) * p == 2 * (r * p) + p == 2 * ((r + 1) * p) - p
  {
  }

  // In the normal range both grids are multiples of one unit.
  lemma NormalScale(mag: nat)
    requires NORMAL <= mag < BEYOND
    ensures var k, x := mag / HIDDEN - 113, mag % HIDDEN + HIDDEN;
      && Scale(mag) == x * Pow2(k + 112)
      && forall q: nat :: q * Pow2(k) * Pow2(125) == q * 8192 * Pow2(k + 112)
  {
    hide Pow2;
    var k := mag / HIDDEN - 113;
    PowSum(k, 125);
    PowSum(13, k + 112);
    assert Pow2(13) == 8192 by { PowSum(3, 10); PowThree(); PowSum(3, 7); PowSeven(); }
    forall q: nat ensures q * Pow2(k) * Pow2(125) == q * 8192 * Pow2(k + 112) {
      Reorder4(q, Pow2(k), Pow2(125));
      Reorder4(q, 8192, Pow2(k + 112));
    }
  }

  lemma NormalNeighbour(mag: nat)
    requires NORMAL <= mag < BEYOND
    ensures Neighbour(mag, HalfOf(mag))
  {
    hide Pow2, Scale, HalfScale, HalfOf, HalfAt;
    NormalForm(mag);
    NormalScale(mag);
    var k, x := mag / HIDDEN - 113, mag % HIDDEN + HIDDEN;
    var q, u := (x + 512) / 8192, Pow2(k + 112);
    var r := HalfAt(k, q);
    assert r == HalfOf(mag) && r >= HALF_HIDDEN by { HalfAtIs(k, q); }
    NormalLower(k, q, x, Scale(mag));
    NormalUpper(k, q, x, Scale(mag));
    assert r <= HALF_INFINITY by { HalfBounded(mag); }
  }

  lemma HalfAtIs(k: nat, q: nat)
    ensures HalfAt(k, q) == k * HALF_HIDDEN + q
  {
  }

  lemma NormalLower(k: nat, q: nat, x: nat, s: nat)
    requires HALF_HIDDEN <= q <= 2 * HALF_HIDDEN && HIDDEN <= x && q == (x + 512) / 8192
    requires s == x * Pow2(k + 112)
    requires forall q: nat :: q * Pow2(k) * Pow2(125) == q * 8192 * Pow2(k + 112)
    ensures HalfScale(HalfAt(k, q) - 1) * Pow2(125) < s
  {
    hide Pow2, HalfScale;
    var u := Pow2(k + 112);
    if q > HALF_HIDDEN {
      HalfScaleAt(k, q - 1);
      assert HalfAt(k, q) - 1 == HalfAt(k, q - 1);
      TimesOrdered((q - 1) * 8192, x, u);
    } else {
      HalfScaleStep(HalfAt(k, q) - 1);
      HalfScaleAt(k, q);
      TimesOrdered(HalfScale(HalfAt(k, q) - 1), q * Pow2(k), Pow2(125));
      TimesOrdered(q * 8192, x, u);
    }
  }

  lemma NormalUpper(k: nat, q: nat, x: nat, s: nat)
    requires HALF_HIDDEN <= q <= 2 * HALF_HIDDEN && x < 2 * HIDDEN && q == (x + 512) / 8192
    requires s == x * Pow2(k + 112)
    requires forall q: nat :: q * Pow2(k) * Pow2(125) == q * 8192 * Pow2(k + 112)
    ensures s < HalfScale(HalfAt(k, q) + 1) * Pow2(125)
  {
    hide Pow2, HalfScale;
    var u := Pow2(k + 112);
    if q < 2 * HALF_HIDDEN {
      HalfScaleAt(k, q + 1);
      assert HalfAt(k, q) + 1 == HalfAt(k, q + 1);
      TimesOrdered(x, (q + 1) * 8192, u);
    } else {
      HalfScaleStep(HalfAt(k, q));
      HalfScaleAt(k, q);
      TimesOrdered(q * Pow2(k), HalfScale(HalfAt(k, q) + 1), Pow2(125));
      TimesOrdered(x, q * 8192, u);
    }
  }

  // 2^16, the grid point that stands for infinity.
  lemma InfinityScale()
    ensures HalfScale(HALF_INFINITY) * Pow2(125) == Scale(BEYOND)
  {
    hide Pow2;
    assert HALF_INFINITY == HalfAt(30, HALF_HIDDEN);
    HalfScaleAt(30, HALF_HIDDEN);
    ScaleAt(142, HIDDEN);
    assert At(142, HIDDEN) == BEYOND;
    PowSum(30, 125);
    PowSum(13, 142);
    assert Pow2(13) == 8192 by { PowSum(3, 10); PowThree(); PowSum(3, 7); PowSeven(); }
    Reorder4(HALF_HIDDEN, Pow2(30), Pow2(125));
    Reorder4(HALF_HIDDEN, 8192, Pow2(142));
  }

  lemma BeyondNeighbour(mag: nat)
    requires BEYOND <= mag <= INFINITY
    ensures Neighbour(mag, HALF_INFINITY)
  {
    hide Pow2, Scale, HalfScale;
    InfinityScale();
    ScaleOrdered(BEYOND, mag);
    HalfScaleStep(HALF_INFINITY - 1);
    TimesOrdered(HalfScale(HALF_INFINITY - 1), HalfScale(HALF_INFINITY), Pow2(125));
  }

  lemma {:induction false} MagnitudeIsNeighbour(mag: nat)
    requires mag <= INFINITY
    ensures Neighbour(mag, HalfOf(mag))
  {
    hide Neighbour, HalfOf;
    if mag < NORMAL {
      SubnormalNeighbour(mag);
    } else if mag < BEYOND {
      NormalNeighbour(mag);
    } else {
      BeyondForm(mag);
      BeyondNeighbour(mag);
    }
  }

  // The sign is kept, and the magnitude is the value or next to it.
  predicate NeighbourPattern(b: Bits, h: nat) {
    (h >= HALF_SIGN <==> Negative(b)) && Neighbour(Magnitude(b), h % HALF_SIGN)
  }

  /** Every conversion returns the value itself or one of its two neighbours. */
  lemma {:induction false} ConversionIsNeighbour(b: Bits)
    requires Magnitude(b) <= INFINITY
    ensures NeighbourPattern(b, ToHalf(b))
  {
    hide Neighbour, HalfOf;
    MagnitudeIsNeighbour(Magnitude(b));
    HalfBounded(Magnitude(b));
  }

  /** A magnitude with the value of a binary16 pattern converts to that pattern. */
  lemma {:induction false} ConversionIsIdentity(mag: nat, h: nat)
    requires mag <= INFINITY && h <= HALF_INFINITY && Scale(mag) == HalfScale(h) * Pow2(125)
    ensures HalfOf(mag) == h
  {
    hide Pow2, Scale, HalfScale, HalfOf;
    var r := HalfOf(mag);
    MagnitudeIsNeighbour(mag);
    if r > h {
      HalfScaleOrdered(h, r - 1);
      TimesOrdered(HalfScale(h), HalfScale(r - 1), Pow2(125));
    } else if r < h {
      HalfScaleOrdered(r + 1, h);
      TimesOrdered(HalfScale(r + 1), HalfScale(h), Pow2(125));
    }
  }

  // ---------------- widening ----------------

  type HalfBits = h: nat | h < 0x1_0000

  // What the widening function returns: a float, exact and signed.
  datatype Float = NotANumber | Infinite(negative: bool) | Finite(negative: bool, num: nat, den: nat)

  /** The value of a 16-bit pattern. */
  function Widen(h: HalfBits): (f: Float)
    ensures f.Finite? ==> f.den > 0
  {
    var s, e, m := h / HALF_SIGN == 1, h % HALF_SIGN / HALF_HIDDEN, h % HALF_HIDDEN;
    if e == 0 then Finite(s, m, Pow2(24))
    else if e == 31 then if m == 0 then Infinite(s) else NotANumber
    else if e >= 15 then Finite(s, (1024 + m) * Pow2(e - 15), 1024)
    else Finite(s, 1024 + m, 1024 * Pow2(15 - e))
  }

  // The float as a binary32 pattern; a zero keeps its sign.
  function Packed(f: Float): Bits
    requires f.Finite? ==> f.den > 0
  {
    match f
    case NotANumber => QUIET_NAN
    case Infinite(s) => Signed(s, INFINITY)
    case Finite(s, n, d) => Signed(s, if n == 0 then 0 else RoundMagnitude(n, d))
  }

  // The formula in units of 2^-24.
  lemma WidenIsScale(h: HalfBits)
    requires h % HALF_SIGN < HALF_INFINITY
    ensures var f := Widen(h); f.Finite? && f.num * Pow2(24) == HalfScale(h % HALF_SIGN) * f.den
  {
    hide Pow2;
    var g := h % HALF_SIGN;
    var e, m := g / HALF_HIDDEN, g % HALF_HIDDEN;
    assert h % HALF_HIDDEN == m;
    assert Pow2(10) == 1024 by { PowSum(3, 7); PowThree(); PowSeven(); }
    if e >= 15 {
      PowSum(e - 15, 24);
      PowSum(e - 1, 10);
      Reorder4(1024 + m, Pow2(e - 15), Pow2(24));
      Reorder4(1024 + m, Pow2(e - 1), 1024);
    } else if e > 0 {
      PowSum(e - 1, 15 - e);
      PowSum(10, 14);
      Reorder4(1024 + m, Pow2(e - 1), 1024 * Pow2(15 - e));
      Reorder4(1024, Pow2(e - 1), Pow2(15 - e));
    }
  }

  // A rational with the value of a binary32 magnitude rounds to it.
  lemma ExactlyRounded(n: nat, d: nat, mag: nat)
    requires n > 0 && d > 0 && mag <= INFINITY && n * Pow2(149) == Scale(mag) * d
    ensures RoundMagnitude(n, d) == mag
  {
    hide RoundMagnitude, Nearest, Scale, Pow2;
    RoundsToNearest(n, d);
    ScaleIsNearest(mag);
    NearestUnique(n, d, RoundMagnitude(n, d), Scale(mag), Pow2(149), mag);
  }

  lemma {:induction false} FiniteComesBack(h: HalfBits)
    requires h % HALF_SIGN < HALF_INFINITY
    ensures ToHalf(Packed(Widen(h))) == h
  {
    hide Pow2, HalfOf, Scale, HalfScale, RoundMagnitude, Widen;
    var f, g := Widen(h), h % HALF_SIGN;
    WidenIsScale(h);
    var mag := MagnitudeFor(g);
    ConversionIsIdentity(mag, g);
    PowSum(24, 125);
    Scaled3(f.num, HalfScale(g), f.den, Scale(mag));
    if f.num > 0 {
      ExactlyRounded(f.num, f.den, mag);
    } else {
      ZeroScale(g, f.den, mag);
    }
    assert Packed(f) == Signed(f.negative, mag);
    SignedParts(f.negative, mag);
    WidenSign(h);
  }

  lemma Scaled3(n: nat, s: nat, d: nat, x: nat)
    requires n * Pow2(24) == s * d && x == s * Pow2(125) && Pow2(149) == Pow2(24) * Pow2(125)
    ensures n * Pow2(149) == x * d
  {
    hide Pow2;
    Reorder4(n, Pow2(24), Pow2(125));
    Reorder4(s, d, Pow2(125));
    Reorder4(s, Pow2(125), d);
  }

  lemma ZeroScale(g: nat, d: nat, mag: nat)
    requires d > 0 && HalfScale(g) * d == 0 && Scale(mag) == HalfScale(g) * Pow2(125)
    ensures mag == 0
  {
    hide Pow2, HalfScale;
    assert HalfScale(g) == 0 by { if HalfScale(g) > 0 { Positive(HalfScale(g), d); } }
    ScaleSmall(0);
    ScaleOrdered(0, mag);
  }

  lemma WidenSign(h: HalfBits)
    requires h % HALF_SIGN < HALF_INFINITY
    ensures Widen(h).negative == (h >= HALF_SIGN)
  {
  }

  /** Converting back what widening gave is the identity on every 16-bit pattern;
      the NaNs become one quiet NaN. */
  lemma {:induction false} WidenAndBack(h: HalfBits)
    ensures ToHalf(Packed(Widen(h))) == if h % HALF_SIGN > HALF_INFINITY then HALF_INFINITY + 0x200 else h
  {
    hide Pow2, HalfOf, RoundMagnitude;
    if h % HALF_SIGN < HALF_INFINITY {
      FiniteComesBack(h);
    } else {
      BeyondForm(INFINITY);
    }
  }

  lemma MagnitudeFor(h: nat) returns (mag: nat)
    requires h < HALF_INFINITY
    ensures mag < INFINITY && Scale(mag) == HalfScale(h) * Pow2(125)
  {
    hide Pow2, Scale, HalfScale;
    if h == 0 {
      mag := 0;
      ScaleSmall(0);
      HalfScaleSmall(0);
    } else if h < HALF_HIDDEN {
      mag := WidenSubnormal(h);
    } else {
      var k, q := h / HALF_HIDDEN - 1, h % HALF_HIDDEN + HALF_HIDDEN;
      mag := At(k + 112, q * 8192);
      assert h == HalfAt(k, q);
      HalfScaleAt(k, q);
      ScaleAt(k + 112, q * 8192);
      PowSum(k, 125);
      PowSum(13, k + 112);
      assert Pow2(13) == 8192 by { PowSum(3, 10); PowThree(); PowSum(3, 7); PowSeven(); }
      Reorder4(q, Pow2(k), Pow2(125));
      Reorder4(q, 8192, Pow2(k + 112));
    }
  }

  lemma WidenSubnormal(h: nat) returns (mag: nat)
    requires 0 < h < HALF_HIDDEN
    ensures mag < INFINITY && Scale(mag) == HalfScale(h) * Pow2(125)
  {
    hide Pow2, Scale, HalfScale, BitLength;
    var l := BitLength(h);
    BitLengthBounds(h);
    LengthAtMost(h, 10);
    PowSum(l - 1, 24 - l);
    PowSum(l, 24 - l);
    Pow23();
    TimesOrdered(Pow2(l - 1), h, Pow2(24 - l));
    TimesOrdered(h, Pow2(l), Pow2(24 - l));
    var q := h * Pow2(24 - l);
    mag := At(101 + l, q);
    ScaleAt(101 + l, q);
    PowSum(24 - l, 101 + l);
    Reorder4(h, Pow2(24 - l), Pow2(101 + l));
    HalfScaleSmall(h);
  }

  lemma LengthAtMost(h: nat, n: nat)
    requires 0 < h < HALF_HIDDEN && n == 10
    ensures BitLength(h) <= n
  {
    hide BitLength, Pow2;
    BitLengthBounds(h);
    if BitLength(h) > 10 {
      PowOrdered(10, BitLength(h) - 1);
      PowSum(3, 7);
      PowThree();
      PowSeven();
    }
  }

  // ---------------- ties to even, and where it fails ----------------

  /** r is the value rounded to the nearest binary16 pattern, ties to even. */
  predicate NearestHalf(mag: nat, r: nat) {
    && r <= HALF_INFINITY
    && (r > 0 ==> AtMost((HalfScale(r - 1) + HalfScale(r)) * Pow2(125), 2 * Scale(mag), r % 2 == 1))
    && (r < HALF_INFINITY ==> AtMost(2 * Scale(mag), (HalfScale(r) + HalfScale(r + 1)) * Pow2(125), r % 2 == 1))
  }

  // The 13 fraction bits that do not fit, and the last bit that does.
  predicate RoundsCorrectly(mag: nat) {
    var d, t := mag % 8192, mag / 8192;
    d < 4096 || (d == 4096 && t % 2 == 0) || d >= 7680
  }

  lemma SubnormalIsNearestHalf(mag: nat)
    requires mag < NORMAL
    ensures NearestHalf(mag, HalfOf(mag))
  {
    hide Pow2, Scale, HalfScale, HalfOf, RoundInt;
    SubnormalForm(mag);
    var x, r, p := Scale(mag), HalfOf(mag), Pow2(125);
    RoundIntIs(x, p);
    HalfScaleSmall(r);
    if r > 0 {
      HalfScaleSmall(r - 1);
    }
    HalfScaleStep(r);
    TimesOrdered(2 * r + 1, HalfScale(r) + HalfScale(r + 1), p);
    if r < HALF_HIDDEN {
      HalfScaleSmall(r + 1);
    }
  }

  lemma BeyondIsNearestHalf(mag: nat)
    requires BEYOND <= mag <= INFINITY
    ensures NearestHalf(mag, HALF_INFINITY)
  {
    hide Pow2, Scale, HalfScale;
    InfinityScale();
    ScaleOrdered(BEYOND, mag);
    HalfScaleStep(HALF_INFINITY - 1);
    TimesOrdered(HalfScale(HALF_INFINITY - 1) + HalfScale(HALF_INFINITY), 2 * HalfScale(HALF_INFINITY), Pow2(125));
  }

  // Both sides of a normal candidate, in units of 2^(k - 37).
  predicate NearestUnits(x: nat, q: nat) {
    && (q > HALF_HIDDEN ==> AtMost((2 * q - 1) * 8192, 2 * x, q % 2 == 1))
    && (q < 2 * HALF_HIDDEN ==> AtMost(2 * x, (2 * q + 1) * 8192, q % 2 == 1))
  }

  lemma UnitsDecide(x: nat)
    requires HIDDEN <= x < 2 * HIDDEN
    ensures NearestUnits(x, (x + 512) / 8192) <==> RoundsCorrectly(x)
  {
    var t, d := x / 8192, x % 8192;
    assert x == t * 8192 + d;
    var q := (x + 512) / 8192;
    assert q == if d >= 7680 then t + 1 else t;
    assert (2 * q + 1) * 8192 == 16384 * q + 8192 && (2 * q - 1) * 8192 == 16384 * q - 8192;
  }

  lemma SameBits(mag: nat)
    ensures RoundsCorrectly(mag % HIDDEN + HIDDEN) <==> RoundsCorrectly(mag)
  {
    var e, m := mag / HIDDEN, mag % HIDDEN;
    var t, d := m / 8192, m % 8192;
    QuotientUnique(mag, 8192, 1024 * e + t, d);
    QuotientUnique(m + HIDDEN, 8192, 1024 + t, d);
    EvenShift(512 * e, t);
    EvenShift(512, t);
  }

  lemma EvenShift(a: nat, t: nat)
    ensures (2 * a + t) % 2 == t % 2
  {
  }

  lemma HalfAround(k: nat, q: nat)
    requires HALF_HIDDEN <= q <= 2 * HALF_HIDDEN
    ensures q > HALF_HIDDEN ==> HalfScale(HalfAt(k, q) - 1) + HalfScale(HalfAt(k, q)) == (2 * q - 1) * Pow2(k)
    ensures q < 2 * HALF_HIDDEN ==> HalfScale(HalfAt(k, q)) + HalfScale(HalfAt(k, q) + 1) == (2 * q + 1) * Pow2(k)
  {
    hide Pow2, HalfScale;
    HalfScaleAt(k, q);
    if q > HALF_HIDDEN {
      HalfScaleAt(k, q - 1);
      assert HalfAt(k, q) - 1 == HalfAt(k, q - 1);
      Together(q, Pow2(k));
    }
    if q < 2 * HALF_HIDDEN {
      HalfScaleAt(k, q + 1);
      assert HalfAt(k, q) + 1 == HalfAt(k, q + 1);
      Together(q + 1, Pow2(k));
    }
  }

  // At the ends of a binade the side outside it always holds.
  lemma HalfEnds(k: nat, x: nat, s: nat)
    requires HIDDEN <= x < 2 * HIDDEN && s == x * Pow2(k + 112)
    requires forall q: nat :: q * Pow2(k) * Pow2(125) == q * 8192 * Pow2(k + 112)
    ensures (HalfScale(HalfAt(k, HALF_HIDDEN) - 1) + HalfScale(HalfAt(k, HALF_HIDDEN))) * Pow2(125) < 2 * s
    ensures 2 * s < (HalfScale(HalfAt(k, 2 * HALF_HIDDEN)) + HalfScale(HalfAt(k, 2 * HALF_HIDDEN) + 1)) * Pow2(125)
  {
    hide Pow2, HalfScale;
    var u, p := Pow2(k + 112), Pow2(125);
    HalfScaleAt(k, HALF_HIDDEN);
    HalfScaleAt(k, 2 * HALF_HIDDEN);
    HalfScaleStep(HalfAt(k, HALF_HIDDEN) - 1);
    HalfScaleStep(HalfAt(k, 2 * HALF_HIDDEN));
    var low, high := HALF_HIDDEN * Pow2(k), 2 * HALF_HIDDEN * Pow2(k);
    TimesOrdered(HalfScale(HalfAt(k, HALF_HIDDEN) - 1) + low, 2 * low, p);
    TimesOrdered(2 * high, high + HalfScale(HalfAt(k, 2 * HALF_HIDDEN) + 1), p);
    TimesOrdered(HALF_HIDDEN * 8192, x, u);
    TimesOrdered(x, 2 * HALF_HIDDEN * 8192, u);
  }

  lemma SideTransfers(y: nat, z: nat, x: nat, u: nat, strict: bool)
    requires u > 0 && z == y * u
    ensures AtMost(z, 2 * (x * u), strict) <==> AtMost(y, 2 * x, strict)
    ensures AtMost(2 * (x * u), z, strict) <==> AtMost(2 * x, y, strict)
  {
    assert 2 * (x * u) == 2 * x * u;
    TimesOrdered(y, 2 * x, u);
    TimesOrdered(2 * x, y, u);
    CancelRight(y, 2 * x, u);
    CancelRight(2 * x, y, u);
  }

  lemma NormalSides(k: nat, q: nat, x: nat, s: nat)
    requires k < 30 && HALF_HIDDEN <= q <= 2 * HALF_HIDDEN && HIDDEN <= x < 2 * HIDDEN && s == x * Pow2(k + 112)
    requires forall q: nat :: q * Pow2(k) * Pow2(125) == q * 8192 * Pow2(k + 112)
    ensures var r := HalfAt(k, q);
      && (AtMost((HalfScale(r - 1) + HalfScale(r)) * Pow2(125), 2 * s, q % 2 == 1)
          <==> (q > HALF_HIDDEN ==> AtMost((2 * q - 1) * 8192, 2 * x, q % 2 == 1)))
      && (AtMost(2 * s, (HalfScale(r) + HalfScale(r + 1)) * Pow2(125), q % 2 == 1)
          <==> (q < 2 * HALF_HIDDEN ==> AtMost(2 * x, (2 * q + 1) * 8192, q % 2 == 1)))
  {
    hide Pow2, HalfScale, HalfAt;
    HalfAtIs(k, q);
    HalfAround(k, q);
    HalfEnds(k, x, s);
    var u := Pow2(k + 112);
    SideTransfers((2 * q - 1) * 8192, (2 * q - 1) * 8192 * u, x, u, q % 2 == 1);
    SideTransfers((2 * q + 1) * 8192, (2 * q + 1) * 8192 * u, x, u, q % 2 == 1);
  }

  lemma {:induction false} NormalNearestWhen(mag: nat)
    requires NORMAL <= mag < BEYOND
    ensures NearestHalf(mag, HalfOf(mag)) <==> RoundsCorrectly(mag)
  {
    hide Pow2, Scale, HalfScale, HalfOf, RoundsCorrectly;
    NormalForm(mag);
    NormalScale(mag);
    SameBits(mag);
    var k, x := mag / HIDDEN - 113, mag % HIDDEN + HIDDEN;
    var q := (x + 512) / 8192;
    UnitsDecide(x);
    NormalSides(k, q, x, Scale(mag));
    AtInfinity(k, q, x, mag);
  }

  // A candidate that is infinity has no upper side, and needs none.
  lemma AtInfinity(k: nat, q: nat, x: nat, mag: nat)
    requires k < 30 && HALF_HIDDEN <= q <= 2 * HALF_HIDDEN
    ensures HalfAt(k, q) <= HALF_INFINITY && HalfAt(k, q) % 2 == q % 2 && HalfAt(k, q) > 0
    ensures HalfAt(k, q) == HALF_INFINITY ==> q == 2 * HALF_HIDDEN
  {
  }

  lemma {:induction false} MagnitudeNearestWhen(mag: nat)
    requires mag <= INFINITY
    ensures NearestHalf(mag, HalfOf(mag)) <==> mag < NORMAL || mag >= BEYOND || RoundsCorrectly(mag)
  {
    hide NearestHalf, HalfOf, RoundsCorrectly;
    if mag < NORMAL {
      SubnormalIsNearestHalf(mag);
    } else if mag < BEYOND {
      NormalNearestWhen(mag);
    } else {
      BeyondForm(mag);
      BeyondIsNearestHalf(mag);
    }
  }

  // The sign is kept, and the magnitude is rounded to nearest, ties to even.
  predicate NearestPattern(b: Bits, h: nat) {
    (h >= HALF_SIGN <==> Negative(b)) && NearestHalf(Magnitude(b), h % HALF_SIGN)
  }

  /** For all patterns that are not NaN: the conversion is the nearest binary16
      value, ties to even, if and only if the result is not normal, or the 13
      dropped bits round the way three bits fewer would. */
  lemma {:induction false} NearestExactlyWhen(b: Bits)
    requires Magnitude(b) <= INFINITY
    ensures NearestPattern(b, ToHalf(b))
      <==> Magnitude(b) < NORMAL || Magnitude(b) >= BEYOND || RoundsCorrectly(Magnitude(b))
  {
    hide NearestHalf, HalfOf, RoundsCorrectly;
    MagnitudeNearestWhen(Magnitude(b));
    HalfBounded(Magnitude(b));
  }

  /** 1 + 3/4 of the last place converts to 1: the next value up is nearer. */
  lemma {:induction false} RoundsTooLow()
    ensures ToHalf(0x3F80_1800) == 0x3C00 && !NearestPattern(0x3F80_1800, 0x3C00)
  {
    NearestExactlyWhen(0x3F80_1800);
    NormalForm(0x3F80_1800);
  }

  /** The largest subnormal results carry into the least normal pattern. */
  lemma {:induction false} SubnormalCarries()
    ensures ToHalf(NORMAL - 1) == HALF_HIDDEN
  {
    hide Pow2, HalfScale, HalfOf, Scale;
    SubnormalForm(NORMAL - 1);
    ScaleAt(111, 2 * HIDDEN - 1);
    assert At(111, 2 * HIDDEN - 1) == NORMAL - 1;
    PowSum(14, 111);
    assert Pow2(14) == 16384 by { PowSum(7, 7); PowSeven(); }
    RoundsUpToHidden(Pow2(111));
  }

  lemma RoundsUpToHidden(u: nat)
    requires u > 0
    ensures 16384 * u > 0 && RoundInt((2 * HIDDEN - 1) * u, 16384 * u) == HALF_HIDDEN
  {
    RoundIntScaled(2 * HIDDEN - 1, 16384, u);
  }
}
