/** What rounding to nearest means for a caller: it is determined, monotone,
    as close as possible, and undoes the exact reading of a pattern. */
module RoundingLaws {
  import opened Powers
  import opened Rounding

  // ---------------- the reference determines the result ----------------

  // Twice n / d in units, between two sums of grid points.
  lemma SumsOrdered(n: nat, d: nat, n2: nat, d2: nat, x: nat, y: nat)
    requires d > 0 && d2 > 0 && n * d2 <= n2 * d
    ensures d * x <= 2 * n * Pow2(149) && 2 * n2 * Pow2(149) <= d2 * y ==> x <= y
    ensures d * x < 2 * n * Pow2(149) && 2 * n2 * Pow2(149) <= d2 * y ==> x < y
    ensures d * x <= 2 * n * Pow2(149) && 2 * n2 * Pow2(149) < d2 * y ==> x < y
  {
    hide Pow2;
    var p := Pow2(149);
    TimesOrdered(n * d2, n2 * d, 2 * p);
    assert n * d2 * (2 * p) == 2 * n * p * d2 by { Move(n, d2, p); }
    assert n2 * d * (2 * p) == 2 * n2 * p * d by { Move(n2, d, p); }
    TimesOrdered(d * x, 2 * n * p, d2);
    TimesOrdered(2 * n2 * p, d2 * y, d);
    assert d * x * d2 == x * (d * d2) by { Three(d, x, d2); }
    assert d2 * y * d == y * (d * d2) by { Three(d2, y, d); }
    Positive(d, d2);
    CancelRight(x, y, d * d2);
  }

  lemma Move(n: nat, d: nat, p: nat)
    ensures n * d * (2 * p) == 2 * n * p * d
  {
    assert n * d * (2 * p) == 2 * (n * d * p);
    assert n * d * p == n * p * d;
  }

  lemma Three(a: nat, x: nat, b: nat)
    ensures a * x * b == x * (a * b) && x * (a * b) == x * (b * a)
  {
    assert a * x * b == x * a * b;
  }

  /** A larger rational never rounds to a smaller pattern. */
  lemma NearestMonotone(n: nat, d: nat, r: nat, n2: nat, d2: nat, r2: nat)
    requires d > 0 && d2 > 0 && n * d2 <= n2 * d
    requires Nearest(n, d, r) && Nearest(n2, d2, r2)
    ensures r <= r2
  {
    hide Pow2, Scale;
    if r > r2 {
      ScaleOrdered(r2, r - 1);
      ScaleOrdered(r2 + 1, r);
      SumsOrdered(n, d, n2, d2, Scale(r - 1) + Scale(r), Scale(r2) + Scale(r2 + 1));
    }
  }

  /** Rationals that are equal round alike, so the nearest pattern is unique. */
  lemma {:induction false} NearestUnique(n: nat, d: nat, r: nat, n2: nat, d2: nat, r2: nat)
    requires d > 0 && d2 > 0 && n * d2 == n2 * d
    requires Nearest(n, d, r) && Nearest(n2, d2, r2)
    ensures r == r2
  {
    hide Nearest;
    NearestMonotone(n, d, r, n2, d2, r2);
    NearestMonotone(n2, d2, r2, n, d, r);
  }

  function Distance(x: int, y: int): nat {
    if x < y then y - x else x - y
  }

  /** No other pattern is closer. */
  lemma {:induction false} NearestIsClosest(n: nat, d: nat, r: nat, x: nat)
    requires d > 0 && Nearest(n, d, r) && x <= INFINITY
    ensures Distance(n * Pow2(149), d * Scale(r)) <= Distance(n * Pow2(149), d * Scale(x))
  {
    hide Pow2, Scale;
    assert 2 * n * Pow2(149) == 2 * (n * Pow2(149));
    if x < r {
      ScaleOrdered(x, r - 1);
      ScaleOrdered(r - 1, r);
      Sides(d, Scale(x), Scale(r - 1), Scale(r));
    } else if x > r {
      ScaleOrdered(r, r + 1);
      ScaleOrdered(r + 1, x);
      Sides(d, Scale(r), Scale(r + 1), Scale(x));
    }
  }

  lemma Sides(d: nat, a: nat, b: nat, c: nat)
    requires a <= b <= c
    ensures d * a <= d * b <= d * c
    ensures d * (a + b) == d * a + d * b && d * (b + c) == d * b + d * c
  {
  }

  // ---------------- signed patterns ----------------

  type Bits = b: nat | b < 0x1_0000_0000

  function Magnitude(b: Bits): nat {
    b % SIGN
  }

  predicate Negative(b: Bits) {
    b / SIGN == 1
  }

  function Field(b: Bits): nat {
    Magnitude(b) / HIDDEN
  }

  function Signed(neg: bool, mag: nat): Bits
    requires mag < SIGN
  {
    if neg then SIGN + mag else mag
  }

  // A rational, denominator positive.
  datatype Frac = Frac(num: int, den: nat)

  function AbsOf(x: int): nat {
    if x < 0 then -x else x
  }

  /** The rounding of a signed rational, as the code packs it. */
  function FracToF32(v: Frac): (r: Bits)
    requires v.den > 0
    ensures Magnitude(r) <= INFINITY
  {
    if v.num == 0 then 0
    else
      Signed(v.num < 0, RoundMagnitude(AbsOf(v.num), v.den))
  }

  lemma SignedParts(neg: bool, mag: nat)
    requires mag < SIGN
    ensures Magnitude(Signed(neg, mag)) == mag && (Negative(Signed(neg, mag)) <==> neg)
  {
  }

  // Where a pattern stands in the order of values.
  function Rank(b: Bits): int {
    var m: int := Magnitude(b);
    if Negative(b) then -m else m
  }

  lemma {:induction false} RankOf(v: Frac)
    requires v.den > 0
    ensures v.num > 0 ==> Rank(FracToF32(v)) == RoundMagnitude(v.num, v.den)
    ensures v.num < 0 ==> Rank(FracToF32(v)) + RoundMagnitude(-v.num, v.den) == 0
    ensures v.num == 0 ==> Rank(FracToF32(v)) == 0
  {
    hide RoundMagnitude, Nearest;
    if v.num != 0 {
      SignedParts(v.num < 0, RoundMagnitude(AbsOf(v.num), v.den));
    }
  }

  /** Rounding keeps the order of all rationals, negative ones included. */
  lemma {:induction false} RoundingMonotone(v: Frac, w: Frac)
    requires v.den > 0 && w.den > 0 && v.num * w.den <= w.num * v.den
    ensures Rank(FracToF32(v)) <= Rank(FracToF32(w))
  {
    hide RoundMagnitude, Nearest, FracToF32, Rank;
    RankOf(v);
    RankOf(w);
    if v.num > 0 {
      SignOfProduct(v.num, w.den, w.num, v.den);
      RoundsToNearest(v.num, v.den);
      RoundsToNearest(w.num, w.den);
      NearestMonotone(v.num, v.den, RoundMagnitude(v.num, v.den), w.num, w.den, RoundMagnitude(w.num, w.den));
    } else if w.num < 0 {
      assert -w.num * v.den == -(w.num * v.den) && -v.num * w.den == -(v.num * w.den);
      SignOfProduct(-w.num, v.den, -v.num, w.den);
      RoundsToNearest(-v.num, v.den);
      RoundsToNearest(-w.num, w.den);
      NearestMonotone(-w.num, w.den, RoundMagnitude(-w.num, w.den), -v.num, v.den, RoundMagnitude(-v.num, v.den));
    }
  }

  lemma SignOfProduct(a: int, d: nat, b: int, e: nat)
    requires a > 0 && d > 0 && e > 0 && a * d <= b * e
    ensures b > 0
  {
    Positive(a, d);
    if b <= 0 {
      CancelRight(1, b, e);
    }
  }

  /** Rounding commutes with negation. */
  lemma {:induction false} RoundingSymmetric(v: Frac)
    requires v.den > 0 && v.num > 0
    ensures FracToF32(Frac(-v.num, v.den)) == SIGN + FracToF32(v)
  {
  }

  // ---------------- the exact value of a pattern ----------------

  /** The exact reading of a finite pattern. */
  function ExactOf(b: Bits): (v: Frac)
    requires Field(b) < 0xFF
    ensures v.den > 0
  {
    var e, m := Field(b), Magnitude(b) % HIDDEN;
    var v := if e == 0 then Frac(m, Pow2(149))
             else if e >= 150 then Frac((m + HIDDEN) * Pow2(e - 150), 1)
             else Frac(m + HIDDEN, Pow2(150 - e));
    if Negative(b) then Frac(-v.num, v.den) else v
  }

  function SignedScale(b: Bits): int {
    var m: int := Scale(Magnitude(b));
    if Negative(b) then -m else m
  }

  lemma ExactMagnitude(e: nat, m: nat)
    requires 0 < e < 0xFF
    ensures e >= 150 ==> m * Pow2(e - 150) * Pow2(149) == m * Pow2(e - 1)
    ensures e < 150 ==> m * Pow2(149) == m * Pow2(e - 1) * Pow2(150 - e)
  {
    hide Pow2;
    if e >= 150 {
      PowSum(e - 150, 149);
      Reorder4(m, Pow2(e - 150), Pow2(149));
    } else {
      PowSum(e - 1, 150 - e);
      Reorder4(m, Pow2(e - 1), Pow2(150 - e));
    }
  }

  lemma {:induction false} ExactIsScale(b: Bits)
    requires Field(b) < 0xFF
    ensures ExactOf(b).num * Pow2(149) == SignedScale(b) * ExactOf(b).den
  {
    hide Pow2;
    var e, m := Field(b), Magnitude(b) % HIDDEN;
    if e > 0 {
      ExactMagnitude(e, m + HIDDEN);
      Negated((m + HIDDEN) * Pow2(if e >= 150 then e - 150 else 0), Pow2(149));
      Negated((m + HIDDEN) * Pow2(e - 1), Pow2(if e >= 150 then 0 else 150 - e));
      Negated(m + HIDDEN, Pow2(149));
    } else {
      Negated(m, Pow2(149));
    }
  }

  lemma Negated(a: int, b: nat)
    ensures -a * b == -(a * b)
  {
  }

  lemma ScaleIsNearest(b: nat)
    requires b <= INFINITY
    ensures Nearest(Scale(b), Pow2(149), b)
  {
    hide Pow2, Scale;
    var p := Pow2(149);
    if b > 0 {
      ScaleOrdered(b - 1, b);
      TimesBelow(Scale(b - 1) + Scale(b), 2 * Scale(b), p, 2 * Scale(b) * p);
    }
    ScaleOrdered(b, b + 1);
    TimesBelow(2 * Scale(b), Scale(b) + Scale(b + 1), p, p * (Scale(b) + Scale(b + 1)));
    Swap(p, 2 * Scale(b));
  }

  /** Rounding the exact value of any finite nonzero pattern gives the pattern back. */
  lemma {:induction false} RoundTrip(b: Bits)
    requires Field(b) < 0xFF && Magnitude(b) > 0
    ensures FracToF32(ExactOf(b)) == b
  {
    hide Pow2, RoundMagnitude, Nearest, Scale, ExactOf;
    var v := ExactOf(b);
    ExactIsScale(b);
    ScaleOrdered(0, Magnitude(b));
    ScaleSmall(0);
    assert Magnitude(b) <= INFINITY;
    ScaleIsNearest(Magnitude(b));
    SignsAgree(v.num, SignedScale(b), v.den, Pow2(149));
    RoundsToNearest(AbsOf(v.num), v.den);
    AbsProduct(v.num, Pow2(149), SignedScale(b), v.den);
    NearestUnique(AbsOf(v.num), v.den, RoundMagnitude(AbsOf(v.num), v.den), Scale(Magnitude(b)), Pow2(149), Magnitude(b));
  }

  lemma SignsAgree(x: int, y: int, d: nat, p: nat)
    requires d > 0 && p > 0 && x * p == y * d
    ensures (x < 0 <==> y < 0) && (x == 0 <==> y == 0)
  {
    if x > 0 {
      assert x * p > 0;
    } else if x < 0 {
      assert x * p < 0;
    }
    if y > 0 {
      assert y * d > 0;
    } else if y < 0 {
      assert y * d < 0;
    }
  }

  lemma AbsProduct(x: int, p: nat, y: int, d: nat)
    requires x * p == y * d && (x < 0 <==> y < 0)
    ensures AbsOf(x) * p == AbsOf(y) * d
  {
  }
}
