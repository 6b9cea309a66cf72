/** Trunc, Round and RoundToEven (math/floor.go): rounding to an integer by arithmetic on the bit pattern. */
module Integers {
  import opened Pow2s
  import opened Words
  import opened Float64
  import opened FloatOps
  import opened Scaling
  import opened StickyShifts

  /** The number 1, in units of 2^-1074. */
  ghost function Unit(): (u: nat)
    ensures u >= 1
  {
    Pow2(1074)
  }

  /** j is n / u rounded to the nearest integer, halves away from zero. */
  ghost predicate TiesAway(j: nat, n: nat, u: nat) {
    2 * Dist(n, j * u) <= u && (2 * Dist(n, j * u) == u ==> n < j * u)
  }

  /** The pattern b is the integer j. */
  ghost predicate Whole(b: nat, j: nat) {
    b < INF && Mag(b) == j * Unit()
  }

  /** b is the integer nearest to n / 2^1074, ties to even. */
  ghost predicate NearestInteger(b: nat, n: nat) {
    exists j: nat :: Whole(b, j) && TiesToEven(j, n, Unit())
  }

  /** b is the integer nearest to n / 2^1074, ties away from zero. */
  ghost predicate NearestIntegerAway(b: nat, n: nat) {
    exists j: nat :: Whole(b, j) && TiesAway(j, n, Unit())
  }

  /** b with its low s bits cleared. */
  function Cleared(b: nat, s: nat): (c: nat)
    ensures c <= b
  {
    DivLe(b, Pow2(s));
    DivMod(b, Pow2(s));
    MulMono(0, b / Pow2(s), Pow2(s));
    b - b % Pow2(s)
  }

  // ---- bit operations ----

  lemma SignBit(w: Word)
    ensures And(w, SIGN) == WithSign(Negative(w), 0)
    ensures Or(And(w, SIGN), ONE) == WithSign(Negative(w), ONE)
  {
    hide Pow2, And, Or;
    Pow2Values();
    AndHighMask(w, 63, 64);
    OrDisjoint(if Negative(w) then 1 else 0, ONE, 63);
  }

  lemma ShiftedMasks(e: nat)
    requires e <= 51
    ensures Shr(IMPLICIT - 1, e) == Pow2(52 - e) - 1
    ensures Shr(IMPLICIT / 2, e) == Pow2(51 - e)
    ensures Shr(IMPLICIT / 2 - 1, e) == Pow2(51 - e) - 1
    ensures Pow2(51 - e) <= IMPLICIT / 2
  {
    hide Pow2;
    Pow2Values();
    Pow2Minus(51 - e, 51);
    var p := Pow2(e);
    Pow2Add(52 - e, e);
    Pow2Add(51 - e, e);
    DistribSub(Pow2(52 - e), 1, p);
    DistribSub(Pow2(51 - e), 1, p);
    DivUnique(IMPLICIT - 1, p, Pow2(52 - e) - 1, p - 1);
    DivUnique(IMPLICIT / 2, p, Pow2(51 - e), 0);
    DivUnique(IMPLICIT / 2 - 1, p, Pow2(51 - e) - 1, p - 1);
  }

  /** Clearing the low s bits of the whole word clears them in the magnitude. */
  lemma ClearLow(w: Word, s: nat)
    requires s <= 52
    ensures Pow2(s) <= WORD
    ensures AndNot(w, Pow2(s) - 1) == WithSign(Negative(w), Cleared(Abs(w), s))
  {
    hide Pow2, And;
    Pow2Values();
    Pow2Minus(s, 52);
    Pow2Minus(s, 63);
    AndNotSubtracts(w, Pow2(s) - 1);
    AndMask(w, s);
    SameLowBits(Abs(w), Pow2(63 - s), Pow2(s));
    DivMod(Abs(w), Pow2(s));
    DivLe(Abs(w), Pow2(s));
  }

  lemma SameLowBits(a: nat, q: nat, t: nat)
    requires t > 0
    ensures (q * t + a) % t == a % t
  {
    DivMod(a, t);
    Distrib(q, a / t, t);
    DivUnique(q * t + a, t, q + a / t, a % t);
  }

  // ---- the pattern as an integer number of grid steps ----

  /** A normal pattern with s fraction bits below the units place: its step and significand. */
  lemma FractionBits(a: nat, s: nat) returns (m: nat)
    requires a / IMPLICIT == 1075 - s && 1 <= s <= 52
    ensures IMPLICIT <= m < 2 * IMPLICIT && a == (1074 - s) * IMPLICIT + m
    ensures Mag(a) == m * Pow2(1074 - s)
    ensures Unit() == Pow2(s) * Pow2(1074 - s)
    ensures a / Pow2(s) % 2 == m / Pow2(s) % 2
  {
    hide Pow2, Mag;
    m := IMPLICIT + a % IMPLICIT;
    DivMod(a, IMPLICIT);
    MagAt(1074 - s, m);
    Pow2Add(s, 1074 - s);
    ParityBit(a / IMPLICIT - 1, m, s);
  }

  /** The bit above the fraction is the integer part's parity, also when it is the exponent's low bit. */
  lemma ParityBit(e: nat, m: nat, s: nat)
    requires 1 <= s <= 52 && IMPLICIT <= m < 2 * IMPLICIT && e == 1074 - s
    ensures (e * IMPLICIT + m) / Pow2(s) % 2 == m / Pow2(s) % 2
  {
    hide Pow2;
    Pow2Values();
    Pow2Minus(s, 52);
    Assoc(e, Pow2(52 - s), Pow2(s));
    StepParity(e, s);
    EvenQuotient(e * Pow2(52 - s), Pow2(s), m, e * IMPLICIT);
  }

  lemma EvenQuotient(q: nat, t: nat, m: nat, n: nat)
    requires t > 0 && q % 2 == 0 && n == q * t
    ensures (n + m) / t % 2 == m / t % 2
  {
    QuotientShift(q, t, m);
    assert (q + m / t) % 2 == m / t % 2;
  }

  lemma QuotientShift(q: nat, t: nat, m: nat)
    requires t > 0
    ensures (q * t + m) / t == q + m / t
  {
    DivMod(m, t);
    Distrib(q, m / t, t);
    DivUnique(q * t + m, t, q + m / t, m % t);
  }

  lemma StepParity(e: nat, s: nat)
    requires 1 <= s <= 52 && e == 1074 - s
    ensures e * Pow2(52 - s) % 2 == 0
  {
    hide Pow2;
    if s == 52 {
      Pow2One();
    } else {
      Pow2Double(51 - s);
      Assoc(e, 2, Pow2(51 - s));
      EvenProduct(e, Pow2(52 - s));
    }
  }

  /** Adding less than one unit to the pattern and clearing the fraction moves the significand to the
      multiple (m + add) / 2^s, even when the addition carries into the exponent. */
  lemma CarryRound(a: nat, s: nat, m: nat, add: nat)
    requires 1 <= s <= 52 && IMPLICIT <= m < 2 * IMPLICIT && a == (1074 - s) * IMPLICIT + m
    requires add < Pow2(s)
    ensures 0 <= (m + add) / Pow2(s) && Whole(Cleared(a + add, s), (m + add) / Pow2(s))
  {
    hide Pow2, Mag;
    Pow2Values();
    Pow2Minus(s, 52);
    var t, e := Pow2(s), 1074 - s;
    var j := (m + add) / t;
    DivLe(m + add, t);
    Assoc(e, Pow2(52 - s), t);
    SameLowBits(m + add, e * Pow2(52 - s), t);
    DivMod(m + add, t);
    QuotientOnGrid(m + add, t, Pow2(52 - s));
    MagAt(e, j * t);
    Pow2Add(s, e);
    Assoc(j, t, Pow2(e));
  }

  /** The rounded significand stays within one binade, ends included. */
  lemma QuotientOnGrid(n: nat, t: nat, c: nat)
    requires t > 0 && c * t <= n < 2 * (c * t) + t
    ensures c * t <= n / t * t <= 2 * (c * t)
  {
    DivMod(n, t);
    var j := n / t;
    Assoc(2, c, t);
    Distrib(j, 1, t);
    Distrib(2 * c, 1, t);
    if j < c { MulMono(j + 1, c, t); }
    if j > 2 * c { MulMono(2 * c + 1, j, t); }
    MulMono(c, j, t);
    MulMono(j, 2 * c, t);
  }

  lemma ScaleTies(j: nat, m: nat, t: nat, c: nat)
    requires t > 0 && c > 0
    ensures TiesToEven(j, m, t) ==> TiesToEven(j, m * c, t * c)
    ensures TiesAway(j, m, t) ==> TiesAway(j, m * c, t * c)
  {
    Assoc(j, t, c);
    DistribSub(m, j * t, c);
    DistribSub(j * t, m, c);
    var d := Dist(m, j * t);
    Assoc(2, d, c);
    MulCancel(2 * d, t, c);
    MulCancel(m, j * t, c);
  }

  /** A multiple of the unit rounds to itself. */
  lemma WholeNumber(n: nat, u: nat)
    requires u > 0 && n % u == 0
    ensures n == n / u * u && TiesToEven(n / u, n, u) && TiesAway(n / u, n, u)
  {
    DivLe(n, u);
    DivMod(n, u);
  }

  /** From exponent 52 up there is no fraction. */
  lemma NoFraction(a: nat)
    requires a / IMPLICIT >= 1075
    ensures Mag(a) % Unit() == 0
  {
    hide Pow2;
    var e := a / IMPLICIT;
    var m := IMPLICIT + a % IMPLICIT;
    TimesPow2(m, e - 1075, 1074);
    DivUnique(m * Pow2(e - 1), Pow2(1074), m * Pow2(e - 1075), 0);
  }

  /** Below 1/2 the nearest integer is 0; from 1/2 up to 1 it is 1 except for ties. */
  lemma SmallNumber(a: nat)
    requires a < ONE
    ensures Mag(0) == 0 && Mag(ONE) == Unit() && Mag(a) < Unit()
    ensures a / IMPLICIT < 1022 ==> 2 * Mag(a) < Unit()
    ensures a / IMPLICIT == 1022 ==> Unit() <= 2 * Mag(a) && (2 * Mag(a) == Unit() <==> a % IMPLICIT == 0)
  {
    hide Pow2, Mag;
    MagParts(0, 0);
    MagAt(1022, IMPLICIT);
    MagAt(1021, IMPLICIT);
    Pow2Values();
    Pow2Add(52, 1022);
    Pow2Double(1021);
    MagOrder(a, ONE);
    var half := 1022 * IMPLICIT;
    MagOrder(a, half);
    MagOrder(half, a);
  }

  // ---- trunc ----

  /** The integer part; infinities, NaN and the sign are kept. */
  method Trunc(x: Word) returns (r: Word)
    ensures Abs(x) >= INF ==> r == x
    ensures Finite(x) ==> Negative(r) == Negative(x) && Finite(r)
                          && 0 <= Mag(Abs(x)) / Unit() && Whole(Abs(r), Mag(Abs(x)) / Unit())
  {
    hide Pow2, Mag, And, Or, Shl, Shr, AndNot, Unit, Whole, Cleared;
    PositiveOne(x);
    if FLess(Abs(x), ONE) {
      SmallNumber(Abs(x));
      DivUnique(Mag(Abs(x)), Unit(), 0, Mag(Abs(x)));
      WholeZero();
      return WithSign(Negative(x), 0);
    }
    Fields(x);
    var b := x;
    var e := Count(And(Shr(b, 52), 0x7FF), 1023);
    ExponentSpan(x);
    if e < 64 - 12 {
      LowMask(52 - e);
      ClearLow(x, 52 - e);
      TruncBits(Abs(x), 52 - e);
      b := AndNot(b, SubW(Shl(1, 64 - 12 - e), 1));
    } else if Finite(x) {
      AlreadyWhole(Abs(x));
    }
    return b;
  }

  lemma WholeZero()
    ensures Whole(0, 0)
  {
    hide Pow2;
    assert 0 * Unit() == 0;
  }

  lemma AlreadyWhole(a: nat)
    requires a < INF && a / IMPLICIT >= 1075
    ensures 0 <= Mag(a) / Unit() && Whole(a, Mag(a) / Unit())
    ensures NearestInteger(a, Mag(a)) && NearestIntegerAway(a, Mag(a))
  {
    hide Pow2, Mag, Unit;
    NoFraction(a);
    DivLe(Mag(a), Unit());
    WholeNumber(Mag(a), Unit());
  }

  lemma PositiveOne(x: Word)
    ensures FLess(Abs(x), ONE) <==> Abs(x) < ONE
  {
    hide Mag;
    MagOrder(Abs(x), ONE);
  }

  /** Patterns of at least 1.0 have exponent field at least the bias. */
  lemma ExponentSpan(x: Word)
    ensures Abs(x) >= ONE <==> Exponent(x) >= 1023
    ensures Abs(x) >= INF <==> Exponent(x) == 2047
  {
  }

  lemma TruncBits(a: nat, s: nat)
    requires a / IMPLICIT == 1075 - s && 1 <= s <= 52
    ensures 0 <= Mag(a) / Unit() && Whole(Cleared(a, s), Mag(a) / Unit())
  {
    hide Pow2, Mag, Unit, Whole, Cleared;
    var m := FractionBits(a, s);
    CarryRound(a, s, m, 0);
    DivDivScale(m, Pow2(s), Pow2(1074 - s));
  }

  lemma DivDivScale(m: nat, t: nat, c: nat)
    requires t > 0 && c > 0
    ensures t * c > 0 && (m * c) / (t * c) == m / t
  {
    DivMod(m, t);
    Distrib(m / t * t, m % t, c);
    Assoc(m / t, t, c);
    MulMonoStrict(m % t, t, c);
    MulMono(0, m % t, c);
    DivUnique(m * c, t * c, m / t, m % t * c);
  }

  // ---- round ----

  /** The nearest integer, halves away from zero. */
  method Round(x: Word) returns (r: Word)
    ensures Abs(x) >= INF ==> r == x
    ensures Finite(x) ==> Negative(r) == Negative(x) && Finite(r)
                          && NearestIntegerAway(Abs(r), Mag(Abs(x)))
  {
    hide Pow2, Mag, And, Or, Shl, Shr, AndNot, NearestIntegerAway, Cleared;
    Fields(x);
    ExponentSpan(x);
    SignBit(x);
    var bits := x;
    var e := And(Shr(bits, 52), 0x7FF);
    if e < 1023 {
      RoundSmall(Abs(x));
      bits := And(bits, SIGN);
      if e == 1022 {
        bits := Or(bits, ONE);
      }
    } else if e < 1023 + 52 {
      e := e - 1023;
      ShiftedMasks(e);
      Pow2Double(51 - e);
      RoundBitsAway(Abs(x), 52 - e);
      bits := AddW(bits, Shr(IMPLICIT / 2, e));
      AddKeepsSign(x, Pow2(51 - e));
      ClearLow(bits, 52 - e);
      bits := AndNot(bits, Shr(IMPLICIT - 1, e));
    } else if Finite(x) {
      AlreadyWhole(Abs(x));
    }
    return bits;
  }

  lemma AddKeepsSign(x: Word, add: nat)
    requires Exponent(x) < 1075 && add <= IMPLICIT / 2
    ensures AddW(x, add) == WithSign(Negative(x), Abs(x) + add) && Abs(x) + add < SIGN
    ensures Abs(AddW(x, add)) == Abs(x) + add && Negative(AddW(x, add)) == Negative(x)
  {
  }

  lemma RoundSmall(a: nat)
    requires a < ONE
    ensures NearestIntegerAway(if a / IMPLICIT == 1022 then ONE else 0, Mag(a))
  {
    hide Pow2, Mag, Unit;
    SmallNumber(a);
    assert 0 * Unit() == 0 && 1 * Unit() == Unit();
    assert TiesAway(if a / IMPLICIT == 1022 then 1 else 0, Mag(a), Unit());
  }

  lemma RoundBitsAway(a: nat, s: nat)
    requires a / IMPLICIT == 1075 - s && 1 <= s <= 52
    ensures NearestIntegerAway(Cleared(a + Pow2(s - 1), s), Mag(a))
  {
    hide Pow2, Mag, Unit, TiesAway, Whole, Cleared;
    var m := FractionBits(a, s);
    Pow2Double(s - 1);
    CarryRound(a, s, m, Pow2(s - 1));
    HalfUp(m, Pow2(s - 1));
    var j := (m + Pow2(s - 1)) / Pow2(s);
    ScaleTies(j, m, Pow2(s), Pow2(1074 - s));
  }

  lemma HalfUp(m: nat, h: nat)
    requires h > 0
    ensures 0 <= (m + h) / (2 * h) && TiesAway((m + h) / (2 * h), m, 2 * h)
  {
    DivMod(m + h, 2 * h);
    DivLe(m + h, 2 * h);
  }

  // ---- round to even ----

  /** The nearest integer, halves to the even one. */
  method RoundToEven(x: Word) returns (r: Word)
    ensures Abs(x) >= INF ==> r == x
    ensures Finite(x) ==> Negative(r) == Negative(x) && Finite(r)
                          && NearestInteger(Abs(r), Mag(Abs(x)))
  {
    hide Pow2, Mag, And, Or, Shl, Shr, AndNot, NearestInteger, Cleared;
    Fields(x);
    ExponentSpan(x);
    SignBit(x);
    var bits := x;
    var e := And(Shr(bits, 52), 0x7FF);
    if e >= 1023 {
      e := e - 1023;
      RoundEvenBits(x, e);
      bits := AddW(bits, EvenHalf(bits, e));
      bits := AndNot(bits, Shr(IMPLICIT - 1, e));
    } else if e == 1022 && And(bits, IMPLICIT - 1) != 0 {
      RoundSmallEven(x);
      bits := Or(And(bits, SIGN), ONE);
    } else {
      RoundSmallEven(x);
      bits := And(bits, SIGN);
    }
    return bits;
  }

  /** `(halfMinusULP + (bits>>(shift-e))&1) >> e` */
  function EvenHalf(w: Word, e: nat): Word {
    Shr(AddW(IMPLICIT / 2 - 1, And(Shr(w, Count(52, e)), 1)), e)
  }

  lemma RoundEvenBits(x: Word, e: nat)
    requires Exponent(x) == e + 1023
    ensures var r := AndNot(AddW(x, EvenHalf(x, e)), Shr(IMPLICIT - 1, e));
            if Finite(x) then Finite(r) && Negative(r) == Negative(x) && NearestInteger(Abs(r), Mag(Abs(x)))
            else r == x
  {
    hide Pow2, Mag, And, Shl, Shr, AndNot, NearestInteger, Cleared, EvenHalf;
    if e <= 51 {
      ShiftedMasks(e);
      EvenHalfValue(x, e);
      EvenAddend(Abs(x), 52 - e);
      AddKeepsSign(x, EvenHalf(x, e));
      ClearLow(AddW(x, EvenHalf(x, e)), 52 - e);
      ClearedFinite(Abs(x), EvenHalf(x, e), 52 - e);
    } else {
      NothingToAdd(x, e);
      NothingAdded(x, e);
    }
  }

  lemma EvenHalfValue(x: Word, e: nat)
    requires e <= 51
    ensures EvenHalf(x, e) == Pow2(51 - e) - 1 + Abs(x) / Pow2(52 - e) % 2 <= IMPLICIT / 2
  {
    hide Pow2, And, Shr, Abs;
    OddBit(x, 52 - e);
    ShiftedMasks(e);
    HalfRange(e);
  }

  lemma HalfRange(e: nat)
    requires e <= 51
    ensures IMPLICIT / 2 - 1 + 1 < WORD && Count(52, e) == 52 - e
  {
  }

  lemma NothingToAdd(x: Word, e: nat)
    requires e >= 52 && Exponent(x) == e + 1023
    ensures EvenHalf(x, e) == 0
  {
    hide Pow2, And, Shr, NearestInteger, Mag;
    OddBit(x, Count(52, e));
    NothingAdded(x, e);
  }

  lemma ClearedFinite(a: nat, add: nat, s: nat)
    requires NearestInteger(Cleared(a + add, s), Mag(a))
    ensures Cleared(a + add, s) < INF
  {
  }

  /** Bit s of the word, for s < 63, is bit s of the magnitude. */
  lemma OddBit(x: Word, s: Word)
    ensures And(Shr(x, s), 1) <= 1
    ensures s <= 52 ==> And(Shr(x, s), 1) == Abs(x) / Pow2(s) % 2
  {
    hide Pow2, And;
    Pow2One();
    AndMask(Shr(x, s), 1);
    if s <= 52 && Negative(x) {
      Pow2Values();
      Pow2Minus(s, 62);
      Assoc(2, Pow2(62 - s), Pow2(s));
      EvenQuotient(2 * Pow2(62 - s), Pow2(s), Abs(x), SIGN);
    }
  }

  lemma NothingAdded(x: Word, e: nat)
    requires e >= 52 && Exponent(x) == e + 1023
    ensures Shr(IMPLICIT / 2 - 1, e) == 0 && Shr(IMPLICIT / 2, e) == 0
    ensures Shr(IMPLICIT - 1, e) == 0 && AndNot(x, 0) == x
    ensures Finite(x) ==> NearestInteger(Abs(x), Mag(Abs(x)))
  {
    hide Pow2, Mag, And, Unit, NearestInteger;
    Pow2Values();
    Pow2Minus(52, e);
    DivUnique(IMPLICIT - 1, Pow2(e), 0, IMPLICIT - 1);
    DivUnique(IMPLICIT / 2 - 1, Pow2(e), 0, IMPLICIT / 2 - 1);
    DivUnique(IMPLICIT / 2, Pow2(e), 0, IMPLICIT / 2);
    AndNotSubtracts(x, 0);
    if Finite(x) { AlreadyWhole(Abs(x)); }
  }

  /** Adding just under a half, or a half when the integer part is odd, rounds ties to even. */
  lemma EvenAddend(a: nat, s: nat)
    requires a / IMPLICIT == 1075 - s && 1 <= s <= 52
    ensures NearestInteger(Cleared(a + (Pow2(s - 1) - 1 + a / Pow2(s) % 2), s), Mag(a))
  {
    hide Pow2, Mag, Unit, TiesToEven, Whole, Cleared;
    var m := FractionBits(a, s);
    Pow2Double(s - 1);
    var add := Pow2(s - 1) - 1 + m / Pow2(s) % 2;
    CarryRound(a, s, m, add);
    HalfEven(m, Pow2(s - 1));
    var j := (m + add) / Pow2(s);
    ScaleTies(j, m, Pow2(s), Pow2(1074 - s));
  }

  lemma HalfEven(m: nat, h: nat)
    requires h > 0
    ensures var j := (m + (h - 1 + m / (2 * h) % 2)) / (2 * h); 0 <= j && TiesToEven(j, m, 2 * h)
  {
    DivMod(m, 2 * h);
    DivLe(m, 2 * h);
    HalfEvenParts(m / (2 * h), m % (2 * h), m, 2 * h);
  }

  lemma HalfEvenParts(q: nat, r: nat, m: nat, t: nat)
    requires t > 0 && t % 2 == 0 && m == q * t + r && r < t
    ensures var j := (m + (t / 2 - 1 + q % 2)) / t; 0 <= j && TiesToEven(j, m, t)
  {
    var add := t / 2 - 1 + q % 2;
    Distrib(q, 1, t);
    if r + add < t {
      DivUnique(m + add, t, q, r + add);
    } else {
      DivUnique(m + add, t, q + 1, r + add - t);
    }
  }

  lemma RoundSmallEven(x: Word)
    requires Abs(x) < ONE
    ensures NearestInteger(if Abs(x) / IMPLICIT == 1022 && And(x, IMPLICIT - 1) != 0 then ONE else 0, Mag(Abs(x)))
  {
    hide Pow2, Mag, Unit, And;
    Pow2Values();
    AndMask(x, 52);
    SmallNumber(Abs(x));
    var j := if Abs(x) / IMPLICIT == 1022 && Abs(x) % IMPLICIT != 0 then 1 else 0;
    assert 0 * Unit() == 0 && 1 * Unit() == Unit();
    assert TiesToEven(j, Mag(Abs(x)), Unit());
    DivMod(x, IMPLICIT);
  }
}
