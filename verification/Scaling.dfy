/** Frexp and Ldexp (math/frexp.go, math/ldexp.go) and the normalize helper (math/bits.go). */
module Scaling {
  import opened Pow2s
  import opened Words
  import opened Float64
  import opened FloatOps

  /** Go's int on a 64-bit platform; addition wraps. */
  type Int = x: int | -0x8000_0000_0000_0000 <= x < 0x8000_0000_0000_0000

  function Wrap(x: int): Int {
    (x + 0x8000_0000_0000_0000) % WORD - 0x8000_0000_0000_0000
  }

  const SMALLEST_NORMAL: Word := 0x0010_0000_0000_0000
  /** 2^52 and 2^-53 as doubles. */
  const TWO52: Word := 0x4330_0000_0000_0000
  const TWOM53: Word := 0x3CA0_0000_0000_0000

  /** floor(log2 |w|) of a finite non-zero w. */
  function Ilogb(w: Word): int {
    BitLen(Mag(Abs(w))) - 1075
  }

  // ---- exponent and fraction fields ----

  function Exponent(w: Word): (e: nat)
    ensures e < 2048
  {
    Abs(w) / IMPLICIT
  }

  function Fraction(w: Word): (f: nat)
    ensures f < IMPLICIT
  {
    w % IMPLICIT
  }

  lemma Fields(w: Word)
    ensures Abs(w) == Exponent(w) * IMPLICIT + Fraction(w)
    ensures And(Shr(w, 52), 0x7FF) == Exponent(w)
    ensures And(w, INF) == Exponent(w) * IMPLICIT
  {
    hide Pow2, And;
    Pow2Values();
    AndMask(Shr(w, 52), 11);
    AndLow(w, INF, 63);
    AndHighMask(Abs(w), 52, 63);
    DivMod(w, SIGN);
    DivMod(w, IMPLICIT);
    DivMod(Abs(w), IMPLICIT);
  }

  /** `x &^= mask << shift; x |= e << shift`: replaces the exponent field. */
  function SetExponent(w: Word, e: Word): Word {
    OrWord(AndNot(w, Shl(0x7FF, 52)), Shl(e, 52));
    Or(AndNot(w, Shl(0x7FF, 52)), Shl(e, 52))
  }

  lemma SetExponentFields(w: Word, e: Word)
    requires e < 2047
    ensures SetExponent(w, e) == WithSign(Negative(w), e * IMPLICIT + Fraction(w))
    ensures Exponent(SetExponent(w, e)) == e && Fraction(SetExponent(w, e)) == Fraction(w)
  {
    hide Pow2, And, Or, Shl;
    Pow2Values();
    ShlExact(0x7FF, 52);
    ShlExact(e, 52);
    Fields(w);
    AndNotSubtracts(w, INF);
    var cleared := if Negative(w) then SIGN + Fraction(w) else Fraction(w);
    OrPlusAnd(cleared, e * IMPLICIT);
    AndLow(cleared, e * IMPLICIT, 63);
    AndComm(Fraction(w), e * IMPLICIT);
    AndLow(e * IMPLICIT, Fraction(w), 52);
    DivUnique(e * IMPLICIT, IMPLICIT, e, 0);
    DivUnique(cleared, SIGN, if Negative(w) then 1 else 0, Fraction(w));
    DivUnique(e * IMPLICIT + Fraction(w), IMPLICIT, e, Fraction(w));
  }

  lemma NormalMag(w: Word)
    requires Exponent(w) >= 1
    ensures Mag(Abs(w)) == (IMPLICIT + Fraction(w)) * Pow2(Exponent(w) - 1)
  {
    hide Pow2, And, Shr;
    Fields(w);
    MagParts(Exponent(w), Fraction(w));
  }

  // ---- normalize ----

  /** Scales a subnormal up by 2^52, exactly; leaves a normal number alone. */
  method Normalize(x: Word) returns (y: Word, exp: Int)
    requires Finite(x) && !IsZero(x)
    ensures Finite(y) && 1 <= Exponent(y) <= 2046 && Negative(y) == Negative(x)
    ensures -52 <= exp <= 0 && Mag(Abs(y)) == Mag(Abs(x)) * Pow2(-exp)
  {
    hide Pow2, Mag, FMul;
    ConstantMags();
    PositiveOrder(Abs(x), SMALLEST_NORMAL);
    if FLess(Abs(x), SMALLEST_NORMAL) {
      ScaleSubnormal(x);
      return FMul(x, TWO52), -52;
    }
    Pow2One();
    return x, 0;
  }

  lemma PositiveOrder(a: Word, b: Word)
    requires a < INF && b < INF
    ensures FLess(a, b) <==> a < b
  {
    hide Mag;
    MagOrder(a, b);
  }

  lemma ConstantMags()
    ensures Mag(TWO52) == IMPLICIT * Pow2(1074)
    ensures Mag(TWOM53) == IMPLICIT * Pow2(969)
    ensures Mag(ONE) == IMPLICIT * Pow2(1022)
  {
    hide Pow2, Mag;
    MagAt(1074, IMPLICIT);
    MagAt(969, IMPLICIT);
    MagAt(1022, IMPLICIT);
  }

  /** A subnormal f becomes the normal number f * 2^52: its bits move up and its exponent drops. */
  lemma ScaleSubnormal(x: Word)
    requires 0 < Abs(x) < IMPLICIT
    ensures var y := FMul(x, TWO52);
            Finite(y) && 1 <= Exponent(y) <= 2046 && Negative(y) == Negative(x)
            && Mag(Abs(y)) == Mag(Abs(x)) * Pow2(52)
  {
    hide Pow2, Mag, RoundNE;
    ConstantMags();
    Pow2Values();
    var f := Abs(x);
    MagParts(0, f);
    var e, b := ShiftedPattern(f);
    Assoc(f, IMPLICIT, Pow2(1074));
    RoundExact(b, f * (IMPLICIT * Pow2(1074)), 1074);
  }

  lemma ShiftedPattern(f: nat) returns (e: nat, b: nat)
    requires 0 < f < IMPLICIT
    ensures b == e * IMPLICIT + b % IMPLICIT && 1 <= e <= 53 && b < INF
    ensures Mag(b) == f * Pow2(52)
  {
    hide Pow2, Mag;
    Pow2Values();
    BitLenBounds(f);
    BitLenAtMost(f, 52);
    var l := BitLen(f);
    var m := f * Pow2(53 - l);
    Pow2Add(l - 1, 53 - l);
    Pow2Add(l, 53 - l);
    MulMono(Pow2(l - 1), f, Pow2(53 - l));
    MulMonoStrict(f, Pow2(l), Pow2(53 - l));
    MagAt(l - 1, m);
    Pow2Add(53 - l, l - 1);
    Assoc(f, Pow2(53 - l), Pow2(l - 1));
    e := l;
    b := (l - 1) * IMPLICIT + m;
    DivUnique(b, IMPLICIT, l, m - IMPLICIT);
  }

  // ---- frexp ----

  /** f == frac * 2^exp with |frac| in [1/2, 1). */
  method Frexp(f: Word) returns (frac: Word, exp: Int)
    ensures IsZero(f) || !Finite(f) ==> frac == f && exp == 0
    ensures Finite(f) && !IsZero(f) ==>
              && Negative(frac) == Negative(f) && Finite(frac) && Exponent(frac) == 1022
              && ScaledBy(Mag(Abs(f)), Mag(Abs(frac)), exp) && -1073 <= exp <= 1024
  {
    hide Pow2, Mag, And, Or, Shl, Shr, SetExponent, ScaledBy;
    if IsZero(f) {
      return f, 0;
    }
    if IsInf(f) || IsNaN(f) {
      return f, 0;
    }
    var g, e := Normalize(f);
    var x: Word := g;
    Fields(x);
    exp := Wrap(e + And(Shr(x, 52), 0x7FF) - 1023 + 1);
    x := SetExponent(x, 1022);
    SetExponentFields(g, 1022);
    frac := x;
    FrexpValue(Mag(Abs(f)), g, e, frac);
  }

  lemma FrexpValue(m: nat, g: Word, e: int, frac: Word)
    requires e <= 0 && Mag(Abs(g)) == m * Pow2(-e) && Exponent(g) >= 1
    requires Exponent(frac) == 1022 && Fraction(frac) == Fraction(g)
    ensures ScaledBy(m, Mag(Abs(frac)), e + Exponent(g) - 1022)
  {
    hide Pow2, Mag, ScaledBy, Exponent, Fraction;
    NormalMag(g);
    NormalMag(frac);
    var s, k := IMPLICIT + Fraction(g), Exponent(g) - 1;
    Pow2Add(-e, 1021);
    Assoc(m, Pow2(-e), Pow2(1021));
    Assoc(s, Pow2(k), Pow2(1021));
    ScaledFrom(m, Mag(Abs(frac)), 1021 - e, k);
  }

  // ---- ldexp ----

  predicate FitsInt(x: int) {
    -0x8000_0000_0000_0000 <= x < 0x8000_0000_0000_0000
  }

  /** frac * 2^exp rounded once, to nearest even - exactly when the exponent sum fits in an int.
      When it does not, the wrapped exponent turns an underflow into infinity and an overflow into zero. */
  method Ldexp(frac: Word, exp0: Int) returns (r: Word)
    ensures IsZero(frac) || !Finite(frac) ==> r == frac
    ensures Finite(frac) && !IsZero(frac) ==>
              && Negative(r) == Negative(frac)
              && (ScaledNearest(Abs(r), Mag(Abs(frac)), exp0) <==> FitsInt(exp0 + Ilogb(frac)))
              && (exp0 + Ilogb(frac) < -0x8000_0000_0000_0000 ==> Abs(r) == INF)
              && (exp0 + Ilogb(frac) >= 0x8000_0000_0000_0000 ==> Abs(r) == 0)
  {
    hide Pow2, Mag, And, Or, Shl, Shr, SetExponent, ScaledNearest, BitLen, FMul, Ilogb, Exponent, Fraction;
    if IsZero(frac) {
      return frac;
    }
    if IsInf(frac) || IsNaN(frac) {
      return frac;
    }
    var g, e := Normalize(frac);
    var exp: Int := Wrap(exp0 + e);
    var x: Word := g;
    Fields(x);
    IlogbNormal(frac, g, e);
    exp := Wrap(exp + And(Shr(x, 52), 0x7FF) - 1023);
    ghost var exact := exp0 + Ilogb(frac);
    assert exp == Wrap(exact);
    FarAway(frac, exp0);
    if exp < -1075 {
      return WithSign(Negative(frac), 0);
    }
    if exp > 1023 {
      return WithSign(Negative(frac), INF);
    }
    assert exp == exact;
    var m := ONE;
    ghost var target := exp;
    if exp < -1022 {
      exp := exp + 53;
      m := TWOM53;
    }
    x := SetExponent(x, exp + 1023);
    SetExponentFields(g, exp + 1023);
    r := FMul(m, x);
    LdexpNear(frac, exp0, g, e, target, m, x, r);
  }

  lemma IlogbNormal(frac: Word, g: Word, e: int)
    requires -52 <= e <= 0 && Mag(Abs(g)) == Mag(Abs(frac)) * Pow2(-e) && Exponent(g) >= 1
    ensures Ilogb(frac) == e + Exponent(g) - 1023
    ensures Pow2(Ilogb(frac) + 1074) <= Mag(Abs(frac)) < Pow2(Ilogb(frac) + 1075)
    ensures -1074 <= Ilogb(frac)
  {
    hide Pow2, Mag, BitLen, Exponent, Fraction;
    var m := Mag(Abs(frac));
    NormalMag(g);
    Pow2Values();
    var k := Exponent(g) - 1;
    Pow2Add(52, k);
    Pow2Add(53, k);
    MulMono(Pow2(52), IMPLICIT + Fraction(g), Pow2(k));
    MulMonoStrict(IMPLICIT + Fraction(g), Pow2(53), Pow2(k));
    MulMonoStrict(0, IMPLICIT + Fraction(g), Pow2(k));
    var l := BitLen(m);
    BitLenBounds(m);
    Pow2Add(l - 1, -e);
    Pow2Add(l, -e);
    MulMono(Pow2(l - 1), m, Pow2(-e));
    MulMonoStrict(m, Pow2(l), Pow2(-e));
    BitLenUnique(m * Pow2(-e), l - 1 - e);
    BitLenUnique(m * Pow2(-e), 52 + k);
  }

  /** Results that must be infinite or zero, and that they are not the other one. */
  lemma FarAway(frac: Word, e: int)
    requires Finite(frac) && !IsZero(frac)
    requires Pow2(Ilogb(frac) + 1074) <= Mag(Abs(frac)) < Pow2(Ilogb(frac) + 1075) && -1074 <= Ilogb(frac)
    ensures e + Ilogb(frac) > 1023 ==>
              ScaledNearest(INF, Mag(Abs(frac)), e) && !ScaledNearest(0, Mag(Abs(frac)), e)
    ensures e + Ilogb(frac) < -1075 ==>
              ScaledNearest(0, Mag(Abs(frac)), e) && !ScaledNearest(INF, Mag(Abs(frac)), e)
  {
    hide Pow2, Mag, Ilogb, ScaledNearest;
    var m, l := Mag(Abs(frac)), Ilogb(frac) + 1074;
    if e + l > 2097 { FarOverflow(m, l, e); }
    if e + l < -1 { FarUnderflow(m, l, e); }
    if ScaledNearest(INF, m, e) && ScaledNearest(0, m, e) { ScaledNearestUnique(INF, 0, m, e); }
  }

  lemma FarOverflow(m: nat, l: nat, e: int)
    requires Pow2(l) <= m && e + l > 2097
    ensures ScaledNearest(INF, m, e)
  {
    hide Pow2, IsNearestEven;
    if e >= 0 {
      Pow2Add(l, e);
      MulMono(Pow2(l), m, Pow2(e));
      Pow2Minus(2098, l + e);
      NearestOverflow(m * Pow2(e), 0);
    } else {
      Pow2Minus(2098 - e, l);
      NearestOverflow(m, -e);
    }
  }

  lemma FarUnderflow(m: nat, l: nat, e: int)
    requires m < Pow2(l + 1) && e + l < -1
    ensures ScaledNearest(0, m, e)
  {
    hide Pow2, IsNearestEven;
    Pow2Less(l + 1, -e);
    assert 0 * Pow2(-e) == 0;
    NearestOnGrid(0, 0, m, -e);
  }

  /** In range, the single multiplication at the end is the only rounding. */
  lemma LdexpNear(frac: Word, exp0: int, g: Word, e: int, target: int, m: Word, x: Word, r: Word)
    requires e <= 0 && Mag(Abs(g)) == Mag(Abs(frac)) * Pow2(-e) && 1 <= Exponent(g)
    requires target == exp0 + e + Exponent(g) - 1023 && -1075 <= target <= 1023
    requires Finite(x) && Fraction(x) == Fraction(g) && Negative(x) == Negative(frac)
    requires m == (if target < -1022 then TWOM53 else ONE)
    requires Exponent(x) == target + 1023 + (if target < -1022 then 53 else 0)
    requires r == FMul(m, x)
    ensures Negative(r) == Negative(frac) && ScaledNearest(Abs(r), Mag(Abs(frac)), exp0)
  {
    hide Pow2, Mag, ScaledNearest, Exponent, Fraction, RoundNE, IsNearestEven;
    NormalMag(g);
    NormalMag(x);
    ConstantMags();
    var s, k := IMPLICIT + Fraction(g), Exponent(g) - 1;
    var me := if target < -1022 then 969 else 1022;
    var n := Mag(m) * Mag(Abs(x));
    RoundNECorrect(n, 1074);
    Pow2Values();
    // n == s * 2^(52 + me) * 2^(Exponent(x) - 1)
    var xe := Exponent(x) - 1;
    Pow2Add(52, me);
    Pow2Add(52 + me, xe);
    Assoc(s, Pow2(xe), Pow2(52 + me));
    LdexpAlign(Mag(Abs(frac)), exp0, s, -e, k, n, 52 + me + xe, Abs(r));
  }

  /** Both sides written with the same power of two: m * 2^j == s * 2^k and n == s * 2^t. */
  lemma LdexpAlign(m: nat, e: int, s: nat, j: nat, k: nat, n: nat, t: nat, b: nat)
    requires m * Pow2(j) == s * Pow2(k) && n == s * Pow2(t)
    requires k + e + 1074 == t + j
    ensures ScaledNearest(b, m, e) <==> IsNearestEven(b, n, 1074)
  {
    hide Pow2, ScaledNearest, IsNearestEven;
    var c := if e < 0 then -e else 0;
    var u := c + e + 1074;
    Pow2Add(c + e, 1074);
    Assoc(m, Pow2(c + e), Pow2(1074));
    ShiftBoth(m, j, s, k, u);
    ShiftTwice(n, s, t, c, j);
    MulCancel(m * Pow2(u), n * Pow2(c), Pow2(j));
    ScaledNearestSame(b, m, e, n, 1074, c);
  }

  lemma ShiftBoth(m: nat, j: nat, s: nat, k: nat, u: nat)
    requires m * Pow2(j) == s * Pow2(k)
    ensures m * Pow2(u) * Pow2(j) == s * Pow2(k + u)
  {
    hide Pow2;
    TimesPow2(s, k, u);
    Assoc(m, Pow2(u), Pow2(j));
    Assoc(m, Pow2(j), Pow2(u));
  }

  lemma ShiftTwice(n: nat, s: nat, t: nat, c: nat, j: nat)
    requires n == s * Pow2(t)
    ensures n * Pow2(c) * Pow2(j) == s * Pow2(t + c + j)
  {
    hide Pow2;
    TimesPow2(s, t, c);
    TimesPow2(s, t + c, j);
  }

  lemma TimesPow2(m: nat, i: nat, j: nat)
    ensures m * Pow2(i) * Pow2(j) == m * Pow2(i + j)
  {
    hide Pow2;
    Pow2Add(i, j);
    Assoc(m, Pow2(i), Pow2(j));
  }

  /** Ldexp undoes Frexp on every input. */
  method LdexpOfFrexp(f: Word) returns (g: Word)
    ensures g == f
  {
    hide Pow2, Mag, Ilogb, IsNearestEven;
    var frac, exp := Frexp(f);
    g := Ldexp(frac, exp);
    if Finite(f) && !IsZero(f) {
      FractionIlogb(frac);
      RoundTripValue(f, frac, exp, g);
    }
  }

  lemma FractionIlogb(w: Word)
    requires Exponent(w) == 1022
    ensures Ilogb(w) == -1
  {
    hide Pow2, Mag, BitLen, Exponent, Fraction;
    Pow2One();
    IlogbNormal(w, w, 0);
  }

  lemma RoundTripValue(f: Word, frac: Word, exp: int, g: Word)
    requires Finite(f) && Negative(g) == Negative(f)
    requires ScaledBy(Mag(Abs(f)), Mag(Abs(frac)), exp)
    requires ScaledNearest(Abs(g), Mag(Abs(frac)), exp)
    ensures g == f
  {
    hide Pow2, Mag, IsNearestEven;
    var m := Mag(Abs(frac));
    if exp >= 0 {
      Pow2One();
      NearestExact(Abs(f), m * Pow2(exp), 0);
    } else {
      NearestExact(Abs(f), m, -exp);
    }
    ScaledNearestUnique(Abs(f), Abs(g), m, exp);
  }

  /** The exponent sum can wrap: the smallest double times 2^-2^63 rounds to zero, and the result is infinite. */
  lemma LdexpWraps()
    ensures Finite(1) && !FitsInt(-0x8000_0000_0000_0000 + Ilogb(1))
    ensures ScaledNearest(0, Mag(Abs(1)), -0x8000_0000_0000_0000)
    ensures !ScaledNearest(INF, Mag(Abs(1)), -0x8000_0000_0000_0000)
  {
    hide Pow2, IsNearestEven, ScaledNearest;
    MagParts(0, 1);
    Pow2One();
    FarAway(1, -0x8000_0000_0000_0000);
  }
}
