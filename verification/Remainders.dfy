/** Mod and Remainder (math/mod.go, math/remainder.go). Magnitudes are integers in units of 2^-1074,
    so "exact remainder" is integer remainder. */
module Remainders {
  import opened Pow2s
  import opened Words
  import opened Float64
  import opened FloatOps
  import opened Scaling

  // ---- exactness ----

  /** m * 2^e is a double whenever m has at most 53 bits (and the value is in range). */
  lemma {:induction false} Representable(m: nat, e: nat) returns (c: nat)
    requires m <= 2 * IMPLICIT
    ensures Mag(c) == m * Pow2(e)
    decreases e
  {
    hide Pow2, Mag;
    if e == 0 || IMPLICIT <= m {
      MagAt(e, m);
      c := e * IMPLICIT + m;
    } else {
      Pow2Double(e - 1);
      Assoc(m, 2, Pow2(e - 1));
      c := Representable(2 * m, e - 1);
    }
  }

  /** Sterbenz: the difference of two doubles within a factor of two of each other is a double. */
  lemma Sterbenz(a: nat, b: nat) returns (c: nat)
    requires Mag(a) <= Mag(b) <= 2 * Mag(a)
    ensures Mag(c) == Mag(b) - Mag(a)
  {
    hide Pow2, Mag;
    var ea, ma := MagShape(a);
    var eb, mb := MagShape(b);
    MagOrder(b, a);
    assert ea <= eb;
    Pow2Minus(ea, eb);
    var j := mb * Pow2(eb - ea);
    Assoc(mb, Pow2(eb - ea), Pow2(ea));
    DistribSub(j, ma, Pow2(ea));
    MulCancel(j - ma, ma, Pow2(ea));
    MulCancel(0, j - ma, Pow2(ea));
    c := Representable(j - ma, ea);
  }

  /** Doubling a double gives a double. */
  lemma DoubleExact(a: nat) returns (c: nat)
    ensures Mag(c) == 2 * Mag(a)
  {
    hide Pow2, Mag;
    var e, m := MagShape(a);
    Pow2Double(e);
    Assoc(m, 2, Pow2(e));
    c := Representable(m, e + 1);
  }

  /** The subtraction of finite a and b is exact when the difference is a double. */
  lemma ExactSub(a: Word, b: Word, c: nat)
    requires Finite(a) && Finite(b) && Mag(c) == Dist(Value(a), Value(b))
    requires c < INF
    ensures Finite(FSub(a, b)) && Value(FSub(a, b)) == Value(a) - Value(b)
    ensures Value(a) > Value(b) ==> !Negative(FSub(a, b))
    ensures Value(a) < Value(b) ==> Negative(FSub(a, b))
    ensures Value(a) == Value(b) && !Negative(a) ==> FSub(a, b) == 0
  {
    hide Pow2, Mag, RoundNE;
    MagZero(c);
    MagZero(0);
    Pow2One();
    RoundExact(c, Mag(c), 0);
  }

  lemma FiniteMag(w: Word)
    ensures Finite(w) <==> Mag(Abs(w)) < Pow2(2098)
    ensures IsZero(w) <==> Mag(Abs(w)) == 0
  {
    hide Mag, Pow2;
    MagInf();
    MagOrder(Abs(w), INF);
    MagZero(Abs(w));
  }

  lemma SmallerFinite(c: nat, w: Word)
    requires Finite(w) && Mag(c) <= Mag(Abs(w))
    ensures c < INF
  {
    hide Mag;
    MagOrder(Abs(w), c);
  }

  // ---- mod ----

  /** 2^-1073 <= f < 2^-1074 scaled: the fraction frexp returns, in units. */
  lemma FractionRange(w: Word)
    requires Exponent(w) == 1022
    ensures Pow2(1073) <= Mag(Abs(w)) < 2 * Pow2(1073)
  {
    hide Pow2, Mag, Exponent, Fraction;
    NormalMag(w);
    Pow2Values();
    Pow2Add(52, 1021);
    MulMono(IMPLICIT, IMPLICIT + Fraction(w), Pow2(1021));
    MulMonoStrict(IMPLICIT + Fraction(w), 2 * IMPLICIT, Pow2(1021));
    Assoc(2, IMPLICIT, Pow2(1021));
  }

  lemma ScaledOffset(a: nat, b: nat, e: int, t: nat)
    requires ScaledBy(a, b, e) && t >= e
    ensures a * Pow2(t - e) == b * Pow2(t)
  {
    hide Pow2;
    if e >= 0 {
      TimesPow2(b, e, t - e);
    } else {
      TimesPow2(a, -e, t);
    }
  }

  /** The scale mod picks: y * 2^k is the largest power-of-two multiple of y not above r. */
  lemma ScaleChosen(r: nat, y: nat, fr: nat, fy: nat, re: int, ye: int, k: int)
    requires 0 < y <= r
    requires ScaledBy(r, fr, re) && ScaledBy(y, fy, ye) && -1073 <= re <= 1024 && -1073 <= ye <= 1024
    requires Pow2(1073) <= fr < 2 * Pow2(1073) && Pow2(1073) <= fy < 2 * Pow2(1073)
    requires k == re - ye - (if fr < fy then 1 else 0)
    ensures 0 <= k <= 2098 && y * Pow2(k) <= r < 2 * (y * Pow2(k))
  {
    hide Pow2, ScaledBy;
    var t, n := 1100, ye + k;
    ScaledOffset(r, fr, re, t);
    ScaledOffset(y, fy, ye, t);
    var g := if fr < fy then 2 * fr else fr;
    Pow2Double(t - re);
    Assoc(r, 2, Pow2(t - re));
    Assoc(2, fr, Pow2(t));
    assert r * Pow2(t - n) == g * Pow2(t);
    MulMono(fy, g, Pow2(t));
    MulMonoStrict(g, 2 * fy, Pow2(t));
    Assoc(2, fy, Pow2(t));
    assert y * Pow2(t - ye) <= r * Pow2(t - n) < 2 * (y * Pow2(t - ye));
    ScaleCompare(r, y, t - n, t - ye);
  }

  lemma ScaleTooFar(r: nat, y: nat, i: nat, j: nat)
    requires y <= r && j < i
    ensures 2 * (y * Pow2(j)) <= r * Pow2(i)
  {
    hide Pow2;
    Pow2Less(j, i);
    MulMono(2 * Pow2(j), Pow2(i), r);
    MulMono(y, r, 2 * Pow2(j));
    Assoc(y, 2, Pow2(j));
  }

  lemma ScaleCompare(r: nat, y: nat, i: nat, j: nat)
    requires 0 < y <= r
    requires y * Pow2(j) <= r * Pow2(i) < 2 * (y * Pow2(j))
    ensures i <= j && y * Pow2(j - i) <= r < 2 * (y * Pow2(j - i))
  {
    hide Pow2;
    if j < i {
      ScaleTooFar(r, y, i, j);
    }
    TimesPow2(y, j - i, i);
    MulCancel(y * Pow2(j - i), r, Pow2(i));
    Assoc(2, y * Pow2(j - i), Pow2(i));
    MulCancel(r, 2 * (y * Pow2(j - i)), Pow2(i));
  }

  lemma IlogbRange(w: Word)
    requires Finite(w) && !IsZero(w)
    ensures -1074 <= Ilogb(w) <= 1023
  {
    hide Pow2, Mag, BitLen;
    FiniteMag(w);
    BitLenBounds(Mag(Abs(w)));
    BitLenAtMost(Mag(Abs(w)), 2098);
  }

  /** y * 2^k is a double when it does not exceed one. */
  lemma ScaledIsDouble(y: Word, k: nat, r: Word, w: Word)
    requires Finite(r) && Mag(Abs(y)) * Pow2(k) <= Mag(Abs(r))
    requires ScaledNearest(Abs(w), Mag(Abs(y)), k)
    ensures Finite(w) && Mag(Abs(w)) == Mag(Abs(y)) * Pow2(k)
  {
    hide Pow2, Mag, IsNearestEven;
    var e, m := MagShape(Abs(y));
    TimesPow2(m, e, k);
    var c := Representable(m, e + k);
    SmallerFinite(c, r);
    Pow2One();
    NearestExact(c, Mag(c), 0);
    ScaledNearestUnique(c, Abs(w), Mag(Abs(y)), k);
  }

  lemma ModSubtract(r: nat, y: nat, j: nat)
    requires y > 0 && j * y <= r
    ensures (r - j * y) % y == r % y
  {
    DivMod(r, y);
    DistribSub(r / y, j, y);
    DivUnique(r - j * y, y, r / y - j, r % y);
  }

  /** Subtracting a scaled y from r loses nothing and keeps the remainder. */
  lemma ReductionExact(r: Word, w: Word, y: nat, k: nat)
    requires Finite(r) && Finite(w) && !Negative(r) && !Negative(w) && y > 0
    requires Mag(w) == y * Pow2(k) && Mag(w) <= Mag(r) < 2 * Mag(w)
    ensures var d := FSub(r, w);
            Finite(d) && !Negative(d) && Mag(d) == Mag(r) - Mag(w) < Mag(r) && Mag(d) % y == Mag(r) % y
  {
    hide Pow2, Mag, FSub;
    var c := Sterbenz(w, r);
    SmallerFinite(c, r);
    ExactSub(r, w, c);
    MagZero(0);
    ModSubtract(Mag(r), y, Pow2(k));
    MulMonoStrict(0, y, Pow2(k));
  }

  /** The exact remainder, with the sign of x; an infinite y leaves x alone (its Mag is 2^2098). */
  method Mod(x: Word, y0: Word) returns (r: Word)
    ensures IsZero(y0) || IsInf(x) || IsNaN(x) || IsNaN(y0) ==> r == NAN && IsNaN(r)
    ensures Finite(x) && !IsZero(y0) && !IsNaN(y0) ==>
              && Finite(r) && Negative(r) == Negative(x)
              && Mag(Abs(y0)) > 0 && Mag(Abs(r)) == Mag(Abs(x)) % Mag(Abs(y0))
  {
    hide Pow2, Mag, FSub, ScaledBy, ScaledNearest, Exponent, Ilogb;
    if IsZero(y0) || IsInf(x) || IsNaN(x) || IsNaN(y0) {
      return NAN;
    }
    var y := Abs(y0);
    MagZero(y);
    MagZero(0);
    MagZero(Abs(x));
    var yfr, yexp := Frexp(y);
    r := x;
    if FLess(x, 0) {
      r := Neg(x);
    }
    while FLessEq(y, r)
      invariant Finite(r) && Mag(Abs(r)) % Mag(y) == Mag(Abs(x)) % Mag(y)
      invariant Negative(r) ==> r == x
      invariant Value(x) == 0 ==> r == x
      invariant Value(x) != 0 ==> !Negative(r)
      decreases Mag(Abs(r))
    {
      ModOrder(y, r);
      var rfr, rexp := Frexp(r);
      MagOrder(rfr, yfr);
      if FLess(rfr, yfr) {
        rexp := rexp - 1;
      }
      FractionRange(rfr);
      FractionRange(yfr);
      ghost var k := rexp - yexp;
      ScaleChosen(Mag(r), Mag(y), Mag(rfr), Mag(yfr), if FLess(rfr, yfr) then rexp + 1 else rexp, yexp, k);
      IlogbRange(y);
      var w := Ldexp(y, rexp - yexp);
      ScaledIsDouble(y, k, r, w);
      ReductionExact(r, w, Mag(y), k);
      r := FSub(r, w);
    }
    ModDone(x, y, r);
    if FLess(x, 0) {
      r := Neg(r);
    }
  }

  lemma ModOrder(y: Word, r: Word)
    requires !Negative(y) && !IsZero(y) && FLessEq(y, r) && Finite(r)
    ensures !Negative(r) && Finite(y) && 0 < Mag(y) <= Mag(r)
  {
    hide Mag;
    MagZero(y);
    MagOrder(r, y);
  }

  lemma ModDone(x: Word, y: Word, r: Word)
    requires Finite(x) && Finite(r) && !Negative(y) && !IsNaN(y) && !IsZero(y)
    requires !FLessEq(y, r) && Mag(Abs(r)) % Mag(y) == Mag(Abs(x)) % Mag(y)
    requires Negative(r) ==> Value(r) == 0
    ensures Mag(Abs(r)) == Mag(Abs(x)) % Mag(y)
  {
    hide Mag;
    MagZero(y);
    DivUnique(Mag(Abs(r)), Mag(y), 0, Mag(Abs(r)));
  }

  // ---- remainder ----

  /** 2^-1021 and half the largest double. */
  const TINY: Word := 0x0020_0000_0000_0000
  const HALF_MAX: Word := 0x7FDF_FFFF_FFFF_FFFF
  const HALF: Word := 0x3FE0_0000_0000_0000

  /** r is x - n * y with |r| at most |y| / 2, and n even when it is exactly that. */
  ghost predicate RemainderOf(r: int, x: int, y: int, n: int) {
    && r == x - n * y
    && 2 * Dist(r, 0) <= Dist(y, 0)
    && (2 * Dist(r, 0) == Dist(y, 0) ==> n % 2 == 0)
  }

  ghost predicate IsRemainder(r: int, x: int, y: int) {
    exists n: int :: RemainderOf(r, x, y, n)
  }

  /** x + x is exact away from the top of the range. */
  lemma DoubleWord(x: Word)
    requires Abs(x) <= HALF_MAX
    ensures var z := FAdd(x, x); Finite(z) && Value(z) == 2 * Value(x)
    ensures Value(x) > 0 ==> !Negative(FAdd(x, x))
  {
    hide Mag, FSub;
    var c := DoubleExact(Abs(x));
    BelowMax(Abs(x), c);
    ExactSub(x, Neg(x), c);
  }

  /** Doubling at most half the maximum stays finite. */
  lemma BelowMax(y: nat, c: nat)
    requires y <= HALF_MAX && Mag(c) == 2 * Mag(y)
    ensures c < INF
  {
    hide Mag, Pow2;
    MagInf();
    MagAt(2045, IMPLICIT);
    MagOrder(y, HALF_MAX);
    MagOrder(HALF_MAX, HALF_MAX + 1);
    Pow2Values();
    Pow2Add(52, 2045);
    Pow2Double(2097);
    MagOrder(c, INF);
  }

  /** 0.5 * y is exact for y of at least 2^-1021. */
  lemma HalfWord(y: Word)
    requires Finite(y) && !Negative(y) && TINY <= y
    ensures var h := FMul(HALF, y); Finite(h) && !Negative(h) && 2 * Mag(h) == Mag(y)
  {
    hide Mag, Pow2, RoundNE;
    var e, m := MagShape(y);
    MagAt(1021, IMPLICIT);
    Pow2Values();
    Pow2Add(52, 1021);
    Pow2Double(1073);
    Pow2Double(e - 1);
    Assoc(m, 2, Pow2(e - 1));
    var c := Representable(m, e - 1);
    MagOrder(y, c);
    Assoc(Mag(c), 2, Pow2(1073));
    RoundExact(c, Pow2(1073) * Mag(y), 1074);
  }

  /** Subtracting y from an x within a factor of two of it is exact. */
  lemma SubtractClose(x: Word, y: Word)
    requires Finite(x) && Finite(y) && !Negative(x) && !Negative(y) && !IsZero(y)
    requires Mag(y) <= 2 * Mag(x) && Mag(x) <= 2 * Mag(y)
    ensures var d := FSub(x, y);
            Finite(d) && Value(d) == Mag(x) - Mag(y)
            && (Mag(x) == Mag(y) ==> d == 0) && (Mag(x) > Mag(y) ==> !Negative(d))
  {
    hide Mag, FSub;
    if Mag(y) <= Mag(x) {
      var c := Sterbenz(y, x);
      SmallerFinite(c, x);
      ExactSub(x, y, c);
    } else {
      var c := Sterbenz(x, y);
      SmallerFinite(c, y);
      ExactSub(x, y, c);
    }
  }

  /** After the first reduction: x0 - 2 q y, below 2 y. */
  ghost predicate Reduced(x: int, x0: int, y: int, q: int) {
    y > 0 && x == x0 - 2 * q * y && 0 <= x < 2 * y
  }

  /** The nearest multiple among the three left, ties to the even one. */
  function NearestOfThree(x: int, y: int): int {
    if 2 * x > y then (if 2 * (x - y) >= y then x - y - y else x - y) else x
  }

  lemma NearestOfThreeIsRemainder(x: int, x0: int, y: int, q: int)
    requires Reduced(x, x0, y, q)
    ensures IsRemainder(NearestOfThree(x, y), x0, y)
  {
    var k := if 2 * x > y then (if 2 * (x - y) >= y then 2 else 1) else 0;
    Distrib(2 * q, k, y);
    assert RemainderOf(NearestOfThree(x, y), x0, y, 2 * q + k);
  }

  /** Signs of x and y only flip the result and the quotient. */
  lemma RemainderSigns(r: int, x: int, y: int)
    requires IsRemainder(r, x, y)
    ensures IsRemainder(-r, -x, y) && IsRemainder(r, x, -y) && IsRemainder(-r, -x, -y)
  {
    var n :| RemainderOf(r, x, y, n);
    assert -n * y == -(n * y) && -n * -y == n * y && n * -y == -(n * y);
    assert RemainderOf(-r, -x, y, -n);
    assert RemainderOf(r, x, -y, -n);
    assert RemainderOf(-r, -x, -y, n);
  }

  lemma ModReduces(x: nat, y: nat)
    requires y > 0
    ensures Reduced(x % (2 * y), x, y, x / (2 * y))
  {
    DivMod(x, 2 * y);
    Assoc(x / (2 * y), 2, y);
  }

  /** The reduction below 2^-1021 doubles x; above, it halves y. Either way the tests are exact. */
  method ReduceTwice(x0: Word, y: Word) returns (x: Word)
    requires Finite(x0) && Finite(y) && !Negative(y) && !IsZero(y)
    requires (Negative(x0) ==> IsZero(x0)) && Mag(Abs(x0)) < 2 * Mag(y)
    ensures Finite(x) && Value(x) == NearestOfThree(Mag(Abs(x0)), Mag(y))
    ensures Value(x) == 0 ==> Negative(x) == Negative(x0)
  {
    hide Mag, FSub, FAdd, FMul;
    x := x0;
    MagZero(Abs(x0));
    MagZero(y);
    MagOrder(y, TINY);
    TinyMag();
    if FLess(y, TINY) {
      MagOrder(Abs(x0), TINY + IMPLICIT);
      DoubleWord(x);
      if FLess(y, FAdd(x, x)) {
        SubtractClose(x, y);
        x := FSub(x, y);
        SmallerThan(x, y);
        DoubleWord(x);
        if FLessEq(y, FAdd(x, x)) {
          SubtractClose(x, y);
          x := FSub(x, y);
        }
      }
    } else {
      HalfWord(y);
      var yHalf := FMul(HALF, y);
      if FLess(yHalf, x) {
        SubtractClose(x, y);
        x := FSub(x, y);
        if FLessEq(yHalf, x) {
          SubtractClose(x, y);
          x := FSub(x, y);
        }
      }
    }
    MagZero(Abs(x));
  }

  lemma TinyMag()
    ensures Mag(TINY) == 2 * IMPLICIT && Mag(TINY + IMPLICIT) == 4 * IMPLICIT
  {
    MagAt(1, IMPLICIT);
    MagAt(2, IMPLICIT);
  }

  lemma SmallerThan(x: Word, y: Word)
    requires !Negative(y) && y < TINY && Dist(Value(x), 0) <= Mag(y)
    ensures Abs(x) <= HALF_MAX
  {
    hide Mag;
    MagOrder(y, Abs(x));
  }

  /** `if y <= HalfMax { x = Mod(x, y+y) }`: afterwards x is below 2y whatever y was. */
  method ReduceBelowTwice(x0: Word, y: Word) returns (x: Word, ghost q: int)
    requires Finite(x0) && Finite(y) && !Negative(y) && !IsZero(y) && (Negative(x0) ==> IsZero(x0))
    ensures Finite(x) && Negative(x) == Negative(x0) && (Negative(x) ==> IsZero(x))
    ensures Reduced(Mag(Abs(x)), Mag(Abs(x0)), Mag(y), q)
  {
    hide Mag, FSub, FAdd;
    x, q := x0, 0;
    MagZero(y);
    MagZero(Abs(x0));
    MagOrder(y, HALF_MAX);
    if FLessEq(y, HALF_MAX) {
      DoubleWord(y);
      MagZero(Abs(FAdd(y, y)));
      ModReduces(Mag(Abs(x0)), Mag(y));
      x := Mod(x, FAdd(y, y));
      q := Mag(Abs(x0)) / (2 * Mag(y));
      MagZero(Abs(x));
    } else {
      LargeDivisor(x, y);
    }
  }

  /** The IEEE 754 remainder (section 5.3.1): x minus the multiple of y nearest x / y, ties to even. */
  method Remainder(x0: Word, y0: Word) returns (x: Word)
    ensures IsNaN(x0) || IsNaN(y0) || IsInf(x0) || IsZero(y0) ==> x == NAN && IsNaN(x)
    ensures Finite(x0) && IsInf(y0) ==> x == x0
    ensures Finite(x0) && Finite(y0) && !IsZero(y0) ==>
              && Finite(x) && IsRemainder(Value(x), Value(x0), Value(y0))
              && (Value(x) == 0 ==> Negative(x) == Negative(x0))
  {
    hide Mag, FSub, FAdd, IsRemainder, NearestOfThree;
    if IsNaN(x0) || IsNaN(y0) || IsInf(x0) || IsZero(y0) {
      return NAN;
    }
    if IsInf(y0) {
      return x0;
    }
    var sign := false;
    x := x0;
    var y := y0;
    MagZero(0);
    MagZero(Abs(x0));
    MagZero(Abs(y0));
    if FLess(x, 0) {
      x := Neg(x);
      sign := true;
    }
    if FLess(y, 0) {
      y := Neg(y);
    }
    ghost var mx, my := Mag(Abs(x0)), Mag(Abs(y0));
    if FEqual(x, y) {
      MultipleRemainder(mx, my);
      SignedRemainder(x0, y0, 0);
      if sign {
        return Neg(0);
      }
      return 0;
    }
    ghost var q;
    x, q := ReduceBelowTwice(x, y);
    NearestOfThreeIsRemainder(Mag(Abs(x)), mx, my, q);
    MagZero(Abs(x));
    x := ReduceTwice(x, y);
    SignedRemainder(x0, y0, Value(x));
    if sign {
      x := Neg(x);
    }
  }

  /** Above half the maximum, twice the divisor exceeds every double. */
  lemma LargeDivisor(x: Word, y: Word)
    requires Finite(x) && Finite(y) && !Negative(y) && HALF_MAX < y
    ensures Mag(Abs(x)) < 2 * Mag(y)
  {
    hide Mag, Pow2;
    MagInf();
    MagAt(2045, IMPLICIT);
    Pow2Values();
    Pow2Add(52, 2045);
    Pow2Double(2097);
    MagOrder(y, HALF_MAX + 1);
    MagOrder(Abs(x), INF);
  }

  lemma MultipleRemainder(x: int, y: int)
    requires x == y > 0
    ensures IsRemainder(0, x, y)
  {
    assert RemainderOf(0, x, y, 1);
  }

  lemma SignedRemainder(x: Word, y: Word, r: int)
    requires IsRemainder(r, Mag(Abs(x)), Mag(Abs(y)))
    ensures IsRemainder(if Value(x) < 0 then -r else r, Value(x), Value(y))
  {
    hide Mag, IsRemainder;
    RemainderSigns(r, Mag(Abs(x)), Mag(Abs(y)));
  }
}
