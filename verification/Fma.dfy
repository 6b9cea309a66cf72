/** Software fused multiply-add (math/fma.go): x * y + z with one rounding. */
module Fma {
  import opened Pow2s
  import opened Words
  import opened Float64
  import opened StickyShifts

  type Int32 = x: int | -0x8000_0000 <= x < 0x8000_0000

  const BIAS: Int32 := 1023

  /** Go's hardware operations, needed only when an input is zero, infinite or NaN. */
  type BinaryOp = (Word, Word) -> Word

  /** r is the exact value s / 2^k (in units of 2^-1074) rounded once to nearest, ties to even;
      an exact zero gives +0. */
  ghost predicate CorrectlyRounded(r: Word, s: int, k: nat) {
    && IsNearestEven(Abs(r), Dist(s, 0), k)
    && (s > 0 ==> !Negative(r))
    && (s < 0 ==> Negative(r))
    && (s == 0 ==> r == 0)
  }

  /** x * y + z in units of 2^-2148, exactly. */
  ghost function ExactFma(x: Word, y: Word, z: Word): int {
    Value(x) * Value(y) + Value(z) * Pow2(1074)
  }

  // ---- split ----

  /** A 53-bit mantissa and exponent standing for the magnitude mag: mag == m * 2^(e - 1). */
  ghost predicate Significand(m: int, e: int, mag: int) {
    IMPLICIT <= m < 2 * IMPLICIT && -51 <= e <= 2046 && m * Pow2(e + 51) == mag * Pow2(52)
  }

  /** Splits a finite non-zero pattern: its magnitude is mantissa * 2^(exp - 1) with a 53-bit mantissa. */
  method Split(b: Word) returns (sign: Word, exp: Int32, mantissa: Word)
    requires Finite(b) && !IsZero(b)
    ensures sign == if Negative(b) then 1 else 0
    ensures Significand(mantissa, exp, Mag(Abs(b)))
  {
    hide And, Or, Shl, Shr, Pow2, Mag, LeadingZeros;
    sign := Shr(b, 63);
    exp := And(Shr(b, 52), 0x7FF);
    mantissa := And(b, IMPLICIT - 1);
    FieldsOf(b);
    if exp == 0 {
      var shift := LeadingZeros(mantissa) - 11;
      SubnormalShift(mantissa);
      mantissa := Shl(mantissa, shift);
      exp := 1 - shift;
    } else {
      NormalMantissa(mantissa, exp);
      mantissa := Or(mantissa, IMPLICIT);
    }
  }

  /** What the three field extractions read off a finite pattern. */
  lemma FieldsOf(b: Word)
    requires Finite(b)
    ensures Shr(b, 63) == if Negative(b) then 1 else 0
    ensures var e, f := And(Shr(b, 52), 0x7FF), And(b, IMPLICIT - 1);
            e < 2047 && f < IMPLICIT && Abs(b) == e * IMPLICIT + f
            && Mag(Abs(b)) == if e == 0 then f else (IMPLICIT + f) * Pow2(e - 1)
  {
    hide Pow2, And, Mag;
    MaskedFields(b);
    MagParts(And(Shr(b, 52), 0x7FF), And(b, IMPLICIT - 1));
  }

  lemma MaskedFields(b: Word)
    ensures Shr(b, 63) == b / SIGN
    ensures And(Shr(b, 52), 0x7FF) == b / IMPLICIT % 2048
    ensures And(b, IMPLICIT - 1) == b % IMPLICIT
  {
    hide Pow2, And;
    Pow2Values();
    AndMask(Shr(b, 52), 11);
    AndMask(b, 52);
  }

  lemma SubnormalShift(f: Word)
    requires 0 < f < IMPLICIT
    ensures var s := LeadingZeros(f) - 11;
            1 <= s <= 52
            && IMPLICIT <= Shl(f, s) < 2 * IMPLICIT && Shl(f, s) * Pow2(52 - s) == f * Pow2(52)
  {
    hide Pow2, BitLen, Shl;
    Pow2Values();
    BitLenBounds(f);
    BitLenAtMost(f, 52);
    var s := 53 - BitLen(f);
    Pow2Add(s, BitLen(f) - 1);
    Pow2Add(s, BitLen(f));
    MulMono(Pow2(BitLen(f) - 1), f, Pow2(s));
    MulMonoStrict(f, Pow2(BitLen(f)), Pow2(s));
    ShlExact(f, s);
    Pow2Add(s, 52 - s);
    Assoc(f, Pow2(s), Pow2(52 - s));
  }

  lemma NormalMantissa(f: Word, e: nat)
    requires f < IMPLICIT && e >= 1
    ensures Or(f, IMPLICIT) == IMPLICIT + f
    ensures (IMPLICIT + f) * Pow2(e + 51) == (IMPLICIT + f) * Pow2(e - 1) * Pow2(52)
  {
    hide Pow2, Or;
    Pow2Values();
    OrDisjoint(1, f, 52);
    Pow2Add(e - 1, 52);
    Assoc(IMPLICIT + f, Pow2(e - 1), Pow2(52));
  }

  // ---- shrcompress ----

  /** `shrcompress` on every count: a shift right that keeps a sticky 0th bit. */
  method ShrCompress(u1: Word, u2: Word, n: nat) returns (r1: Word, r2: Word)
    ensures Wide(r1, r2) == StickyShift(Wide(u1, u2), n)
  {
    hide And, Or, Shl, Shr, Pow2, Shr2, StickyShift, Wide, NonZero;
    if n == 0 {
      CompressNone(u1, u2);
      return u1, u2;
    } else if n == 64 {
      CompressWord(u1, u2);
      return 0, Or(u1, NonZero(u2));
    } else if n >= 128 {
      CompressAll(u1, u2, n);
      return 0, NonZero(Or(u1, u2));
    } else if n < 64 {
      var r := Shr2(u1, u2, n);
      CompressLow(u1, u2, n);
      r1, r2 := r.0, Or(r.1, NonZero(And(u2, SubW(Shl(1, n), 1))));
    } else {
      var r := Shr2(u1, u2, n);
      CompressHigh(u1, u2, n);
      r1, r2 := r.0, Or(r.1, NonZero(Or(And(u1, SubW(Shl(1, n - 64), 1)), u2)));
    }
  }

  lemma CompressNone(u1: Word, u2: Word)
    ensures Wide(u1, u2) == StickyShift(Wide(u1, u2), 0)
  {
    hide Or;
    OrBit(Wide(u1, u2));
  }

  lemma CompressWord(u1: Word, u2: Word)
    ensures Or(u1, NonZero(u2)) < WORD
    ensures Wide(0, Or(u1, NonZero(u2))) == StickyShift(Wide(u1, u2), 64)
  {
    hide Or, Pow2;
    Pow2Values();
    OrWord(u1, NonZero(u2));
    DivUnique(Wide(u1, u2), WORD, u1, u2);
  }

  lemma OrNonZero(a: nat, b: nat)
    ensures Or(a, b) == 0 <==> a == 0 && b == 0
  {
  }

  lemma CompressAll(u1: Word, u2: Word, n: nat)
    requires n >= 128
    ensures Or(u1, u2) < WORD
    ensures Wide(0, NonZero(Or(u1, u2))) == StickyShift(Wide(u1, u2), n)
  {
    hide Or, Pow2;
    Pow2Values();
    Pow2Add(64, 64);
    Pow2Minus(128, n);
    OrWord(u1, u2);
    OrNonZero(u1, u2);
    OrBit(0);
    DivUnique(Wide(u1, u2), Pow2(n), 0, Wide(u1, u2));
  }

  /** Or-ing a bit into the low word or-s it into the wide value. */
  lemma OrLowBit(u1: Word, u2: Word, b: Word)
    requires b <= 1
    ensures Or(u2, b) < WORD && Wide(u1, Or(u2, b)) == Or(Wide(u1, u2), b)
  {
    hide Or;
    OrWord(u2, b);
    OrBit(u2);
    OrBit(Wide(u1, u2));
    var h := u1 * (WORD / 2);
    DivUnique(Wide(u1, u2), 2, h + u2 / 2, u2 % 2);
  }

  lemma CompressLow(u1: Word, u2: Word, n: nat)
    requires 0 < n < 64
    ensures var r := Shr2(u1, u2, n);
            var b := NonZero(And(u2, SubW(Shl(1, n), 1)));
            Or(r.1, b) < WORD && Wide(r.0, Or(r.1, b)) == StickyShift(Wide(u1, u2), n)
  {
    hide Or, And, Pow2, Shl, SubW, Shr2, Wide;
    var r := Shr2(u1, u2, n);
    Shr2Divides(u1, u2, n);
    LowMask(n);
    AndMask(u2, n);
    LowBits(u1, u2, n);
    OrLowBit(r.0, r.1, NonZero(And(u2, SubW(Shl(1, n), 1))));
  }

  /** The low n < 64 bits of the wide value come from the low word. */
  lemma LowBits(u1: Word, u2: Word, n: nat)
    requires n < 64
    ensures Wide(u1, u2) % Pow2(n) == u2 % Pow2(n)
  {
    hide Pow2;
    Pow2Values();
    Pow2Minus(n, 64);
    var p, t := Pow2(64 - n), Pow2(n);
    DivMod(u2, t);
    Assoc(u1, p, t);
    Distrib(u1 * p, u2 / t, t);
    DivUnique(Wide(u1, u2), t, u1 * p + u2 / t, u2 % t);
  }

  lemma CompressHigh(u1: Word, u2: Word, n: nat)
    requires 64 < n < 128
    ensures And(u1, SubW(Shl(1, n - 64), 1)) < WORD
    ensures Or(And(u1, SubW(Shl(1, n - 64), 1)), u2) < WORD
    ensures var r := Shr2(u1, u2, n);
            var b := NonZero(Or(And(u1, SubW(Shl(1, n - 64), 1)), u2));
            Or(r.1, b) < WORD && Wide(r.0, Or(r.1, b)) == StickyShift(Wide(u1, u2), n)
  {
    hide Or, And, Pow2, Shl, SubW, Shr2, Wide;
    var r := Shr2(u1, u2, n);
    Shr2Divides(u1, u2, n);
    LowMask(n - 64);
    AndMask(u1, n - 64);
    var a := And(u1, SubW(Shl(1, n - 64), 1));
    OrWord(a, u2);
    OrNonZero(a, u2);
    HighBits(u1, u2, n);
    OrLowBit(r.0, r.1, NonZero(Or(a, u2)));
  }

  lemma HighBits(u1: Word, u2: Word, n: nat)
    requires 64 < n < 128
    ensures Wide(u1, u2) % Pow2(n) == 0 <==> u1 % Pow2(n - 64) == 0 && u2 == 0
  {
    hide Pow2;
    Pow2Values();
    Pow2Add(64, n - 64);
    DivUnique(Wide(u1, u2), WORD, u1, u2);
    DivDiv(Wide(u1, u2), WORD, Pow2(n - 64));
    DivMod(u1, Pow2(n - 64));
  }

  // ---- the three stages between split and rounding ----

  /** An addend as FMA holds it: a 127-bit two-word significand and an exponent; v is its magnitude
      in units of 2^-2348, small enough for every intermediate exponent to be a whole power. */
  ghost predicate Addend(m: int, e: int, v: int) {
    && Pow2(126) <= m < Pow2(127) && m % Pow2(21) == 0
    && -1125 <= e <= 3100
    && v == m * Pow2(e + 1199)
  }

  /** The operand z, moved to the top word. */
  lemma AddendZ(mag: nat, zm: Word, ze: int)
    requires Significand(zm, ze, mag)
    ensures Shl(zm, 10) == zm * 1024
    ensures Addend(Wide(Shl(zm, 10), 0), ze, mag * Pow2(1274))
  {
    hide Pow2, Shl;
    Pow2Values();
    ShlExact(zm, 10);
    Scale126(zm * 1024);
    Pow2Add(10, 64);
    Pow2Add(53, 21);
    MulMono(0, zm, Pow2(53));
    Assoc(zm, Pow2(53), Pow2(21));
    DivUnique(zm * Pow2(74), Pow2(21), zm * Pow2(53), 0);
    Assoc(zm, 1024, WORD);
    Pow2Add(74, ze + 1199);
    Pow2Add(ze + 51, 1222);
    Assoc(zm, Pow2(74), Pow2(ze + 1199));
    Assoc(zm, Pow2(ze + 51), Pow2(1222));
    Pow2Add(52, 1222);
    Assoc(mag, Pow2(52), Pow2(1222));
  }

  /** A word in [2^62, 2^63) heads a wide value in [2^126, 2^127). */
  lemma Scale126(h: nat)
    requires Pow2(62) <= h < Pow2(63)
    ensures Pow2(126) <= h * WORD < Pow2(127)
  {
    hide Pow2;
    Pow2Values();
    Pow2Add(62, 64);
    Pow2Add(63, 64);
    MulMono(Pow2(62), h, WORD);
    MulMonoStrict(h, Pow2(63), WORD);
  }

  /** The product of the two mantissas, 21 places up, is a 126- or 127-bit multiple of 2^21. */
  lemma ProductRange(xm: nat, ym: nat)
    requires IMPLICIT <= xm < 2 * IMPLICIT && IMPLICIT <= ym < 2 * IMPLICIT
    ensures Pow2(125) <= (xm * 1024) * (ym * 2048) < Pow2(127)
    ensures (xm * 1024) * (ym * 2048) == xm * ym * Pow2(21)
  {
    hide Pow2;
    Pow2Values();
    Pow2Add(10, 11);
    Pow2Add(52, 52);
    Pow2Add(53, 53);
    Pow2Add(104, 21);
    Pow2Add(106, 21);
    MulMono(IMPLICIT, xm, IMPLICIT);
    MulMono(IMPLICIT, ym, xm);
    MulMonoStrict(ym, 2 * IMPLICIT, xm);
    MulMono(xm, 2 * IMPLICIT, 2 * IMPLICIT);
    MulMono(Pow2(104), xm * ym, Pow2(21));
    MulMonoStrict(xm * ym, Pow2(106), Pow2(21));
    Assoc(xm, 1024, ym * 2048);
    Assoc(1024, ym, 2048);
  }

  /** Normalizing the product to bit 126: s is 1 when bit 126 was clear. */
  lemma AddendProduct(mx: nat, my: nat, xm: nat, ym: nat, xe: int, ye: int, s: nat)
    requires Significand(xm, xe, mx) && Significand(ym, ye, my)
    requires s == if (xm * 1024) * (ym * 2048) < Pow2(126) then 1 else 0
    ensures (xm * 1024) * (ym * 2048) * Pow2(s) < Pow2(127)
    ensures Addend((xm * 1024) * (ym * 2048) * Pow2(s), xe + ye - 1022 - s, mx * my * Pow2(200))
  {
    hide Pow2;
    ProductRange(xm, ym);
    Pow2One();
    Pow2Double(125);
    Pow2Double(126);
    var p := xm * ym;
    Assoc(p, Pow2(21), Pow2(s));
    DivUnique(p * Pow2(21) * Pow2(s), Pow2(21), p * Pow2(s), 0);
    ProductValue(mx, my, xm, ym, xe, ye);
    var t := xe + ye + 177 - s;
    Pow2Add(s, t);
    Assoc(p * Pow2(21), Pow2(s), Pow2(t));
    Pow2Add(21, xe + ye + 177);
    Assoc(p, Pow2(21), Pow2(xe + ye + 177));
  }

  lemma ProductValue(mx: nat, my: nat, xm: nat, ym: nat, xe: int, ye: int)
    requires Significand(xm, xe, mx) && Significand(ym, ye, my)
    ensures xm * ym * Pow2(xe + ye + 198) == mx * my * Pow2(200)
  {
    hide Pow2;
    Pow2Add(xe + 51, ye + 51);
    Swap(xm, Pow2(xe + 51), ym, Pow2(ye + 51));
    Pow2Add(52, 52);
    Swap(mx, Pow2(52), my, Pow2(52));
    Pow2Add(xe + ye + 102, 96);
    Assoc(xm * ym, Pow2(xe + ye + 102), Pow2(96));
    Pow2Add(104, 96);
    Assoc(mx * my, Pow2(104), Pow2(96));
  }

  lemma Swap(a: nat, b: nat, c: nat, d: nat)
    ensures (a * b) * (c * d) == (a * c) * (b * d)
  {
    Assoc(a, b, c * d);
    Assoc(b, c, d);
    Assoc(a, c, b * d);
    assert b * (c * d) == c * (b * d);
  }

  /** Aligning the smaller addend d places down loses nothing when d <= 21; when something is lost,
      the smaller addend is far below the larger. */
  lemma AlignedAddend(p: nat, z: nat, d: nat, zs: nat)
    requires Pow2(126) <= p < Pow2(127) && p % Pow2(21) == 0
    requires Pow2(126) <= z < Pow2(127) && z % Pow2(21) == 0
    requires d == 0 ==> z <= p
    requires zs == StickyShift(z, d)
    ensures p % 2 == 0 && zs <= p
    ensures Sticky(zs, z, Pow2(d))
    ensures zs < p || (d == 0 && z == p)
    ensures d <= 21 ==> zs * Pow2(d) == z
    ensures d > 21 ==> p - zs >= Pow2(64)
  {
    hide Pow2, StickyShift;
    StickyShiftIsSticky(z, d);
    Pow2Values();
    EvenMultiple(p);
    if d == 0 {
      Pow2One();
      DivUnique(z, Pow2(0), z, 0);
    } else {
      Pow2Less(0, d);
      Pow2One();
      HalfBound(z, d);
      if d <= 21 {
        MultipleDown(z, d);
      } else {
        QuarterBound(z, d);
      }
    }
  }

  lemma EvenMultiple(p: nat)
    requires p % Pow2(21) == 0
    ensures p % 2 == 0
  {
    hide Pow2;
    Pow2Double(20);
    DivMod(p, Pow2(21));
    Assoc(p / Pow2(21), 2, Pow2(20));
    Assoc(p / Pow2(21), Pow2(20), 2);
    EvenProduct(p / Pow2(21) * Pow2(20), 2);
  }

  lemma MultipleDown(z: nat, d: nat)
    requires d <= 21 && z % Pow2(21) == 0
    ensures z % Pow2(d) == 0
  {
    hide Pow2;
    Pow2Minus(d, 21);
    DivMod(z, Pow2(21));
    var q := z / Pow2(21);
    Assoc(q, Pow2(21 - d), Pow2(d));
    DivUnique(z, Pow2(d), q * Pow2(21 - d), 0);
  }

  lemma HalfBound(z: nat, d: nat)
    requires z < Pow2(127) && d >= 1
    ensures z / Pow2(d) < Pow2(126)
  {
    hide Pow2;
    Pow2Minus(1, d);
    Pow2One();
    Pow2Add(126, 1);
    Pow2Less(d - 1, d);
    Pow2Double(126);
    MulMono(2, Pow2(d), Pow2(126));
    DivBelow(z, Pow2(d), Pow2(126));
  }

  lemma QuarterBound(z: nat, d: nat)
    requires z < Pow2(127) && d > 21
    ensures Pow2(126) - (z / Pow2(d) + 1) >= Pow2(64)
  {
    hide Pow2;
    Pow2Minus(22, d);
    Pow2Add(22, 105);
    MulMono(Pow2(22), Pow2(d), Pow2(105));
    DivBelow(z, Pow2(d), Pow2(105));
    Pow2Less(105, 106);
    Pow2Less(64, 65);
    Pow2Minus(65, 125);
    Pow2Minus(106, 125);
    Pow2Double(125);
  }

  /** Two addends, the first at least as large, and the second aligned to the first. */
  ghost predicate Aligned(p: nat, pe: int, vp: int, z: nat, ze: int, vz: int, zs: nat) {
    && Addend(p, pe, vp) && Addend(z, ze, vz)
    && (ze < pe || (ze == pe && z <= p))
    && zs == StickyShift(z, pe - ze)
  }

  lemma AlignedValue(p: nat, pe: int, vp: int, z: nat, ze: int, vz: int, zs: nat)
    requires Aligned(p, pe, vp, z, ze, vz, zs)
    ensures vp > 0 && 0 < vz <= vp && (ze < pe || z < p ==> vz < vp)
    ensures Sticky(zs, vz, Pow2(pe + 1199))
    ensures zs * Pow2(pe - ze) == z ==> zs * Pow2(pe + 1199) == vz
  {
    hide Pow2, StickyShift, Sticky;
    var d, u := pe - ze, Pow2(ze + 1199);
    StickyShiftIsSticky(z, d);
    StickyScale(zs, z, Pow2(d), u);
    Pow2Add(d, ze + 1199);
    Assoc(zs, Pow2(d), u);
    Assoc(p, Pow2(d), u);
    MulMonoStrict(0, z, u);
    if d == 0 {
      Pow2One();
      MulCancel(z, p, u);
    } else {
      Pow2Minus(1, d);
      Pow2Less(0, d);
      Pow2One();
      Pow2Double(126);
      MulMono(2, Pow2(d), p);
      MulMonoStrict(z, p * Pow2(d), u);
    }
  }

  lemma SumStage(p: nat, pe: int, vp: int, z: nat, ze: int, vz: int, zs: nat)
    requires Aligned(p, pe, vp, z, ze, vz, zs)
    ensures vp > 0 && vz > 0
    ensures Pow2(126) <= p + zs < Pow2(128)
    ensures Sticky(p + zs, vp + vz, Pow2(pe + 1199))
  {
    hide Pow2, StickyShift, Sticky;
    AlignedValue(p, pe, vp, z, ze, vz, zs);
    AlignedAddend(p, z, pe - ze, zs);
    StickyAdd(p, zs, vz, Pow2(pe + 1199));
    Pow2Double(127);
  }

  lemma DifferenceStage(p: nat, pe: int, vp: int, z: nat, ze: int, vz: int, zs: nat)
    requires Aligned(p, pe, vp, z, ze, vz, zs)
    requires !(pe == ze && p == z)
    ensures 0 < vz < vp && zs < p
    ensures Sticky(p - zs, vp - vz, Pow2(pe + 1199))
    ensures (p - zs) * Pow2(pe + 1199) == vp - vz || p - zs >= Pow2(64)
  {
    hide Pow2, StickyShift, Sticky;
    AlignedValue(p, pe, vp, z, ze, vz, zs);
    AlignedAddend(p, z, pe - ze, zs);
    StickySub(p, zs, vz, Pow2(pe + 1199));
    DistribSub(p, zs, Pow2(pe + 1199));
  }

  /** A normalized 63-bit significand whose last bit is sticky, standing for s / 2^2348. */
  ghost predicate Normalized(m: nat, e: int, s: int) {
    Pow2(62) <= m < Pow2(63) && e >= -1264 && s >= 0 && Sticky(m, s, Pow2(e + 1264))
  }

  /** Sum: shift the top bit (126 or 127) down to 62. */
  lemma NormalizeSum(r: nat, e: int, s: nat, top: nat, m: nat)
    requires Pow2(126) <= r < Pow2(128) && e >= -1125 && Sticky(r, s, Pow2(e + 1199))
    requires top == if r < Pow2(127) then 0 else 1
    requires m == StickyShift(r, 64 + top)
    ensures Normalized(m, e - (1 - top), s)
  {
    hide Pow2, StickyShift, Sticky;
    var n := 64 + top;
    StickyShiftIsSticky(r, n);
    Pow2Double(n - 1);
    Pow2Double(62);
    StickyCompose(m, r, s, Pow2(n), Pow2(e + 1199));
    Pow2Add(n, e + 1199);
    Pow2Add(n, 62);
    Pow2Add(n, 63);
    QuotientRange(r, Pow2(n), Pow2(62), Pow2(63));
  }

  lemma QuotientRange(r: nat, d: nat, lo: nat, hi: nat)
    requires d > 0 && d * lo <= r < d * hi
    ensures lo <= r / d < hi
  {
    DivMod(r, d);
    if r / d < lo { MulMono(r / d + 1, lo, d); Distrib(r / d, 1, d); }
    if r / d >= hi { MulMono(hi, r / d, d); }
  }

  /** Difference: shift the top bit up to 126 and keep the upper word, or-ing in what is below it. */
  lemma NormalizeDifference(r: nat, e: int, s: nat, nz: nat, m: nat)
    requires 1 <= nz < 128 && Pow2(127 - nz) <= r < Pow2(128 - nz)
    requires e >= -1125 && Sticky(r, s, Pow2(e + 1199))
    requires r * Pow2(e + 1199) == s || r >= Pow2(64)
    requires m == StickyShift(r * Pow2(nz - 1), 64)
    ensures Normalized(m, e - nz, s)
  {
    hide Pow2, StickyShift, Sticky;
    var c := Pow2(nz - 1);
    StickyShiftIsSticky(r * c, 64);
    Pow2Add(127 - nz, nz - 1);
    Pow2Add(128 - nz, nz - 1);
    MulMono(Pow2(127 - nz), r, c);
    MulMonoStrict(r, Pow2(128 - nz), c);
    Pow2Add(64, 62);
    Pow2Add(64, 63);
    Pow2Double(62);
    QuotientRange(r * c, Pow2(64), Pow2(62), Pow2(63));
    if r >= Pow2(64) {
      if nz > 63 { Pow2Minus(128 - nz, 64); }
      DroppedBits(r, e, s, nz, m);
    } else {
      ExactBits(r, e, s, nz, m);
    }
  }

  /** The low word that survives the shift still holds 65 - nz dropped bits. */
  lemma DroppedBits(r: nat, e: int, s: nat, nz: nat, m: nat)
    requires 1 <= nz <= 64 && e >= -1125 && Sticky(r, s, Pow2(e + 1199))
    requires Sticky(m, r * Pow2(nz - 1), Pow2(64))
    ensures Sticky(m, s, Pow2(e - nz + 1264))
  {
    hide Pow2, Sticky;
    var v := Pow2(65 - nz);
    Pow2Add(65 - nz, nz - 1);
    StickyScale(m, r, v, Pow2(nz - 1));
    Pow2Double(64 - nz);
    StickyCompose(m, r, s, v, Pow2(e + 1199));
    Pow2Add(65 - nz, e + 1199);
  }

  /** After deep cancellation the difference is exact, so shifting it up loses nothing. */
  lemma ExactBits(r: nat, e: int, s: nat, nz: nat, m: nat)
    requires 1 <= nz < 128 && e >= -1125 && r * Pow2(e + 1199) == s
    requires Sticky(m, r * Pow2(nz - 1), Pow2(64))
    ensures Sticky(m, s, Pow2(e - nz + 1264))
  {
    hide Pow2, Sticky;
    var u, c := Pow2(e + 1199), Pow2(nz - 1);
    StickyScale(m, r * c, Pow2(64), u);
    Assoc(r, c, u);
    Pow2Add(64, e + 1199);
    Pow2Add(e - nz + 1264, nz - 1);
    StickyScale(m, s, Pow2(e - nz + 1264), c);
  }

  // ---- rounding ----

  /** `((m + 1<<9) >> 10) & ^zero((m&(1<<10-1))^1<<9)`: drop ten bits, ties to even. */
  function RoundBits(m: Word): Word {
    And(Shr(AddW(m, 512), 10), Not(Zero(XorWord(And(m, 1023), 512))))
  }

  function XorWord(a: Word, b: Word): Word
    requires a < 1024 && b < 1024
  {
    Xor(a, b)
  }

  lemma RoundBitsCorrect(m: Word)
    requires m < Pow2(63)
    ensures TiesToEven(RoundBits(m), m, 1024)
    ensures RoundBits(m) <= 2 * IMPLICIT && (Pow2(62) <= m ==> IMPLICIT <= RoundBits(m))
    ensures Shr(AddW(m, 512), 63) == 1 <==> RoundBits(m) == 2 * IMPLICIT
  {
    hide Pow2, And, Xor, RoundBits, Shr;
    Pow2Values();
    RoundBitsArithmetic(m);
    var q := (m + 512) / 1024;
    assert TiesToEven(if m % 1024 == 512 then q - q % 2 else q, m, 1024);
  }

  lemma RoundBitsArithmetic(m: Word)
    requires m < Pow2(63)
    ensures RoundBits(m) == var q := (m + 512) / 1024; if m % 1024 == 512 then q - q % 2 else q
    ensures Shr(AddW(m, 512), 63) == if m + 512 < 0x8000_0000_0000_0000 then 0 else 1
  {
    hide Pow2, And, Xor;
    Pow2Values();
    AndMask(m, 10);
    XorZero(m % 1024, 512);
    var q := (m + 512) / 1024;
    AndMask(q, 64);
    Pow2One();
    AndHighMask(q, 1, 64);
  }

  /** The value is at least the normalized significand's leading bit. */
  lemma NormalizedLower(m: nat, e: int, s: nat)
    requires Normalized(m, e, s)
    ensures Pow2(62) * Pow2(e + 1264) <= s
  {
    hide Pow2;
    Pow2Double(61);
    var u := Pow2(e + 1264);
    MulMono(Pow2(62), m, u);
    if m > Pow2(62) { MulMono(Pow2(62), m - 1, u); }
  }

  lemma RoundNormal(m: nat, e: int, s: nat, q: nat)
    requires Normalized(m, e, s) && 0 <= e <= 2045
    requires TiesToEven(q, m, 1024) && IMPLICIT <= q <= 2 * IMPLICIT
    ensures IsNearestEven(e * IMPLICIT + q, s, 1274)
  {
    hide Pow2, TiesToEven, IsNearestEven, Sticky;
    var u := Pow2(e + 1264);
    StickyRound(q, m, s, 512, u);
    Pow2Values();
    Pow2Add(10, e + 1264);
    NormalizedLower(m, e, s);
    Pow2Add(52, 10);
    Assoc(IMPLICIT, 1024, u);
    NearestOnGrid(e, q, s, 1274);
  }

  lemma RoundSubnormal(m: nat, e: int, s: nat, m': nat, q: nat)
    requires Normalized(m, e, s) && e < 0
    requires m' == StickyShift(m, -e)
    requires TiesToEven(q, m', 1024) && q <= 2 * IMPLICIT
    ensures IsNearestEven(q, s, 1274)
  {
    hide Pow2, TiesToEven, IsNearestEven, StickyShift, Sticky;
    StickyShiftIsSticky(m, -e);
    Pow2Double(-e - 1);
    StickyCompose(m', m, s, Pow2(-e), Pow2(e + 1264));
    Pow2Add(-e, e + 1264);
    StickyRound(q, m', s, 512, Pow2(1264));
    Pow2Values();
    Pow2Add(10, 1264);
    NearestOnGrid(0, q, s, 1274);
  }

  lemma RoundHuge(m: nat, e: int, s: nat)
    requires Normalized(m, e, s) && e > 2045
    ensures IsNearestEven(INF, s, 1274)
  {
    hide Pow2, IsNearestEven, Sticky;
    NormalizedLower(m, e, s);
    Pow2Add(62, e + 1264);
    Pow2Minus(2098 + 1274, 62 + e + 1264);
    NearestOverflow(s, 1274);
  }

  /** Go's `n` low bits dropped into a sticky bit, for every n >= 1 including n >= 64. */
  lemma StickyWord(m: Word, n: nat)
    requires n >= 1
    ensures Or(Shr(m, n), NonZero(And(m, SubW(Shl(1, n), 1)))) == StickyShift(m, n)
    ensures StickyShift(m, n) < WORD && (m < Pow2(63) ==> StickyShift(m, n) < Pow2(63))
  {
    hide Pow2, And, Or, Shl, SubW;
    var bit := NonZero(And(m, SubW(Shl(1, n), 1)));
    OrWord(Shr(m, n), bit);
    if n < 64 {
      LowMask(n);
      AndMask(m, n);
    } else {
      ShiftedOut(m, n);
    }
    StickyBelow(m, n, bit);
  }

  lemma StickyBelow(m: Word, n: nat, bit: Word)
    requires n >= 1 && bit <= 1
    ensures m < Pow2(63) ==> Or(Shr(m, n), bit) < Pow2(63)
  {
    hide Pow2, Or;
    Pow2Values();
    DivLe(m, Pow2(n));
    if m < Pow2(63) { OrBound(Shr(m, n), bit, 63); }
  }

  lemma ShiftedOut(m: Word, n: nat)
    requires n >= 64
    ensures SubW(Shl(1, n), 1) == WORD - 1 && And(m, WORD - 1) == m == m % Pow2(n)
  {
    hide Pow2, And, Shl;
    Pow2Values();
    ShlMany(1, n);
    AndMask(m, 64);
    Pow2Minus(64, n);
    DivUnique(m, Pow2(n), 0, m);
  }

  ghost function Signed(sign: Word, v: int): int {
    if sign == 1 then -v else v
  }

  /** The exact result, with both addends in the unit the addends are held in. */
  lemma ExactScaled(x: Word, y: Word, z: Word, ps: Word, zs: Word)
    requires zs == if Negative(z) then 1 else 0
    requires ps == if Negative(x) != Negative(y) then 1 else 0
    ensures ExactFma(x, y, z) * Pow2(200)
         == Signed(ps, Mag(Abs(x)) * Mag(Abs(y)) * Pow2(200)) + Signed(zs, Mag(Abs(z)) * Pow2(1274))
  {
    hide Pow2, Mag;
    var mx: int, my: int, mz: int := Mag(Abs(x)), Mag(Abs(y)), Mag(Abs(z));
    Pow2Add(1074, 200);
    Assoc(mz, Pow2(1074), Pow2(200));
    Distrib(Value(x) * Value(y), Value(z) * Pow2(1074), Pow2(200));
    SignedProduct(Value(x), Value(y), mx, my);
    SignedTimes(mx * my, Pow2(200));
    SignedTimes(mz, Pow2(1074));
    SignedTimes(mz * Pow2(1074), Pow2(200));
  }

  lemma SignedTimes(a: int, b: int)
    ensures -a * b == -(a * b) && a * -b == -(a * b)
  {
  }

  lemma SignedProduct(x: int, y: int, mx: int, my: int)
    requires (x == mx || x == -mx) && (y == my || y == -my)
    ensures x * y == if (x == mx) == (y == my) then mx * my else -(mx * my)
  {
    SignedTimes(mx, my);
    SignedTimes(mx, -my);
    SignedTimes(-mx, my);
  }

  lemma XorSigns(a: Word, b: Word)
    requires a <= 1 && b <= 1
    ensures Xor(a, b) == if a != b then 1 else 0
  {
  }

  lemma ExponentTest(b: Word)
    ensures And(b, INF) == INF <==> Abs(b) >= INF
  {
    hide Pow2, And;
    Pow2Values();
    AndLow(b, INF, 63);
    AndHighMask(Abs(b), 52, 63);
    DivMod(b, SIGN);
  }

  /** `uint64(ps)<<63 + uint64(pe)<<52 + m` packs the sign above the magnitude. */
  lemma PackedResult(ps: Word, pe: nat, m: Word)
    requires ps <= 1 && pe <= 2045 && m <= 2 * IMPLICIT
    ensures AddW(AddW(Shl(ps, 63), Shl(pe, 52)), m) == WithSign(ps == 1, pe * IMPLICIT + m)
  {
    hide Pow2, Shl;
    Pow2Values();
    ShlExact(ps, 63);
    ShlExact(pe, 52);
  }

  lemma PackedInfinity(ps: Word)
    requires ps <= 1
    ensures Or(Shl(ps, 63), INF) == WithSign(ps == 1, INF)
  {
    hide Pow2, Shl, Or;
    Pow2Values();
    ShlExact(ps, 63);
    OrDisjoint(ps, INF, 63);
  }

  /** Scaling the exact result back to units of 2^-2148. */
  lemma RoundedResult(r: Word, ps: Word, b: nat, s: int, v: nat)
    requires ps <= 1 && b < SIGN && r == WithSign(ps == 1, b)
    requires v > 0 && s * Pow2(200) == Signed(ps, v)
    requires IsNearestEven(b, v, 1274)
    ensures CorrectlyRounded(r, s, 1074)
  {
    hide Pow2, IsNearestEven;
    SignedTimes(s, Pow2(200));
    MulCancel(s, 0, Pow2(200));
    MulCancel(0, s, Pow2(200));
    NearestScale(b, Dist(s, 0), 1074, 200);
  }

  /** FMA on finite non-zero operands is correctly rounded; every other case is left to the hardware. */
  method FMA(x: Word, y: Word, z: Word, mul: BinaryOp, add: BinaryOp) returns (r: Word)
    ensures IsZero(x) || IsZero(y) || Abs(x) >= INF || Abs(y) >= INF ==> r == add(mul(x, y), z)
    ensures Finite(x) && Finite(y) && !IsZero(x) && !IsZero(y) ==>
              if IsZero(z) then r == mul(x, y)
              else if Abs(z) >= INF then r == z
              else CorrectlyRounded(r, ExactFma(x, y, z), 1074)
  {
    hide Pow2, And, Or, Xor, Shl, Shr, Mag, IsNearestEven, CorrectlyRounded, Sticky, StickyShift, Addend,
         Aligned, Normalized, ExactFma, Shl2, Signed, RoundBits, LeadingZeros2, Significand, TiesToEven;
    ExponentTest(x);
    ExponentTest(y);
    ExponentTest(z);
    if IsZero(x) || IsZero(y) || And(x, INF) == INF || And(y, INF) == INF {
      return add(mul(x, y), z);
    }
    if IsZero(z) {
      return mul(x, y);
    }
    if And(z, INF) == INF {
      return z;
    }

    var xs, xe, xm := Split(x);
    var ys, ye, ym := Split(y);
    var zs, ze, zm := Split(z);
    var ps: Word := Xor(xs, ys);
    XorSigns(xs, ys);
    var pe, pm1, pm2 := Multiply(xe, xm, ye, ym, Mag(Abs(x)), Mag(Abs(y)));
    AddendZ(Mag(Abs(z)), zm, ze);
    ExactScaled(x, y, z, ps, zs);
    r := AddAndRound(ps, pe, pm1, pm2, zs, ze, Shl(zm, 10), 0, ExactFma(x, y, z),
      Mag(Abs(x)) * Mag(Abs(y)) * Pow2(200), Mag(Abs(z)) * Pow2(1274));
  }

  /** The exact product as exponent and normalized two-word significand. */
  method Multiply(xe: Int32, xm: Word, ye: Int32, ym: Word, ghost mx: nat, ghost my: nat)
    returns (pe: Int32, pm1: Word, pm2: Word)
    requires Significand(xm, xe, mx) && Significand(ym, ye, my)
    ensures Addend(Wide(pm1, pm2), pe, mx * my * Pow2(200))
  {
    hide Pow2, And, Shl, Shr, Addend, Shl2, Significand, Wide, Not;
    SignificandRange(xm, xe, mx);
    SignificandRange(ym, ye, my);
    pe := xe + ye - BIAS + 1;
    FactorWords(xm, ym);
    var product := Mul64(Shl(xm, 10), Shl(ym, 11));
    pm1, pm2 := product.0, product.1;
    var is62zero := And(Shr(Not(pm1), 62), 1);
    LeadTest(xm, ym, pm1, pm2);
    AddendProduct(mx, my, xm, ym, xe, ye, is62zero);
    Pow2At128();
    Pow2Less(127, 128);
    Shl2Multiplies(pm1, pm2, is62zero);
    var shifted := Shl2(pm1, pm2, is62zero);
    pm1, pm2 := shifted.0, shifted.1;
    pe := pe - is62zero;
  }

  lemma SignificandRange(m: int, e: int, mag: int)
    requires Significand(m, e, mag)
    ensures IMPLICIT <= m < 2 * IMPLICIT && -51 <= e <= 2046
  {
  }

  lemma FactorWords(xm: Word, ym: Word)
    requires IMPLICIT <= xm < 2 * IMPLICIT && IMPLICIT <= ym < 2 * IMPLICIT
    ensures Shl(xm, 10) == xm * 1024 && Shl(ym, 11) == ym * 2048
  {
    hide Pow2, Shl;
    Pow2Values();
    ShlExact(xm, 10);
    ShlExact(ym, 11);
  }

  /** `uint((^pm1 >> 62) & 1)` is 1 exactly when the product lacks bit 126. */
  lemma LeadTest(xm: Word, ym: Word, pm1: Word, pm2: Word)
    requires IMPLICIT <= xm < 2 * IMPLICIT && IMPLICIT <= ym < 2 * IMPLICIT
    requires Wide(pm1, pm2) == (xm * 1024) * (ym * 2048)
    ensures And(Shr(Not(pm1), 62), 1) == if (xm * 1024) * (ym * 2048) < Pow2(126) then 1 else 0
  {
    hide Pow2, And;
    Pow2Values();
    Pow2One();
    ProductRange(xm, ym);
    Pow2Add(62, 64);
    Pow2Add(63, 64);
    AndMask(Shr(Not(pm1), 62), 1);
    TopWord(pm1, pm2, (xm * 1024) * (ym * 2048));
  }

  lemma TopWord(u1: Word, u2: Word, v: nat)
    requires Wide(u1, u2) == v < 0x8000_0000_0000_0000 * WORD
    ensures u1 < 0x8000_0000_0000_0000
    ensures v < 0x4000_0000_0000_0000 * WORD <==> u1 < 0x4000_0000_0000_0000
  {
  }

  /** The second half of FMA: swap, align, add or subtract, normalize, round. */
  method AddAndRound(ps0: Word, pe0: Int32, pm10: Word, pm20: Word, zs0: Word, ze0: Int32, zm10: Word, zm20: Word,
                     ghost s: int, ghost vp0: int, ghost vz0: int)
    returns (r: Word)
    requires ps0 <= 1 && zs0 <= 1 && zm20 == 0
    requires Addend(Wide(pm10, pm20), pe0, vp0) && Addend(Wide(zm10, zm20), ze0, vz0)
    requires s * Pow2(200) == Signed(ps0, vp0) + Signed(zs0, vz0)
    ensures CorrectlyRounded(r, s, 1074)
  {
    hide Pow2, And, Or, Shl, Shr, IsNearestEven, CorrectlyRounded, Sticky, StickyShift, Addend,
         Normalized, Shl2, Signed, RoundBits, LeadingZeros2, TiesToEven, Wide;
    var ps, pe, pm1, pm2, zs, ze, zm1, zm2 := ps0, pe0, pm10, pm20, zs0, ze0, zm10, zm20;
    ghost var vp, vz := vp0, vz0;
    AddendRange(Wide(pm1, pm2), pe, vp);
    AddendRange(Wide(zm1, zm2), ze, vz);
    WideOrder(pm1, pm2, zm1, zm2);
    if pe < ze || (pe == ze && pm1 < zm1) {
      ps, pe, pm1, pm2, zs, ze, zm1, zm2 := zs, ze, zm1, zm2, ps, pe, pm1, pm2;
      vp, vz := vz, vp;
    }
    assert s * Pow2(200) == Signed(ps, vp) + Signed(zs, vz);
    WideOrder(pm1, pm2, zm1, zm2);

    if ps != zs && pe == ze && pm1 == zm1 && pm2 == zm2 {
      Cancelled(ps, zs, Wide(pm1, pm2), pe, vp, vz, s);
      return 0;
    }

    ghost var z := Wide(zm1, zm2);
    zm1, zm2 := ShrCompress(zm1, zm2, pe - ze);
    assert Aligned(Wide(pm1, pm2), pe, vp, z, ze, vz, Wide(zm1, zm2));
    var m: Word;
    if ps == zs {
      m, pe := AddAligned(pe, pm1, pm2, zm1, zm2, ze, z, vp, vz);
      SameSign(ps, vp, vz);
      r := RoundAndPack(ps, pe, m, s, vp + vz);
    } else {
      m, pe := SubAligned(pe, pm1, pm2, zm1, zm2, ze, z, vp, vz);
      OppositeSign(ps, zs, vp, vz);
      r := RoundAndPack(ps, pe, m, s, vp - vz);
    }
  }

  /** Same signs: add the aligned significands and bring the top bit to position 62. */
  method AddAligned(pe0: Int32, pm10: Word, pm20: Word, zm1: Word, zm2: Word,
                    ghost ze: int, ghost z: int, ghost vp: int, ghost vz: int)
    returns (m: Word, pe: Int32)
    requires z >= 0 && Aligned(Wide(pm10, pm20), pe0, vp, z, ze, vz, Wide(zm1, zm2))
    ensures vp > 0 && vz > 0 && Normalized(m, pe, vp + vz)
  {
    hide Pow2, And, Or, Shl, Shr, Sticky, StickyShift, Addend, Normalized, Aligned, Wide, Add64;
    var pm1, pm2 := pm10, pm20;
    SumStage(Wide(pm1, pm2), pe0, vp, z, ze, vz, Wide(zm1, zm2));
    AlignedRange(Wide(pm1, pm2), pe0, vp, z, ze, vz, Wide(zm1, zm2));
    Pow2At128();
    AddWide(pm1, pm2, zm1, zm2);
    var lo := Add64(pm2, zm2, 0);
    pm2 := lo.0;
    pm1 := Add64(pm1, zm1, lo.1).0;
    TopBit(pm1, pm2);
    ghost var r, top := Wide(pm1, pm2), Shr(pm1, 63);
    pe := pe0 - Shr(Not(pm1), 63);
    var hi;
    hi, m := ShrCompress(pm1, pm2, 64 + Shr(pm1, 63));
    NormalizeSum(r, pe0, vp + vz, top, StickyShift(r, 64 + top));
    NormalizedLow(hi, m, pe, vp + vz);
  }

  /** Opposite signs: subtract the aligned significands and bring the top bit to position 62. */
  method SubAligned(pe0: Int32, pm10: Word, pm20: Word, zm1: Word, zm2: Word,
                    ghost ze: int, ghost z: int, ghost vp: int, ghost vz: int)
    returns (m: Word, pe: Int32)
    requires z >= 0 && Aligned(Wide(pm10, pm20), pe0, vp, z, ze, vz, Wide(zm1, zm2))
    requires !(pe0 == ze && Wide(pm10, pm20) == z)
    ensures 0 < vz < vp && Normalized(m, pe, vp - vz)
  {
    hide Pow2, And, Or, Shl, Shr, Sticky, StickyShift, Addend, Normalized, Aligned, Wide, Sub64, Shl2, LeadingZeros2;
    var pm1, pm2 := pm10, pm20;
    DifferenceStage(Wide(pm1, pm2), pe0, vp, z, ze, vz, Wide(zm1, zm2));
    AlignedRange(Wide(pm1, pm2), pe0, vp, z, ze, vz, Wide(zm1, zm2));
    SubWide(pm1, pm2, zm1, zm2);
    var lo := Sub64(pm2, zm2, 0);
    pm2 := lo.0;
    pm1 := Sub64(pm1, zm1, lo.1).0;
    var nz := LeadingZeros2(pm1, pm2);
    LeadingZeros2Normalizes(pm1, pm2);
    ghost var r := Wide(pm1, pm2);
    DifferenceRange(r, nz);
    pe := pe0 - nz;
    FitsShifted(r, nz);
    Shl2Multiplies(pm1, pm2, nz - 1);
    var shifted := Shl2(pm1, pm2, nz - 1);
    CompressWord(shifted.0, shifted.1);
    m := Or(shifted.0, NonZero(shifted.1));
    NormalizeDifference(r, pe0, vp - vz, nz, StickyShift(r * Pow2(nz - 1), 64));
    NormalizedLow(0, m, pe, vp - vz);
  }

  lemma AlignedRange(p: nat, pe: int, vp: int, z: nat, ze: int, vz: int, zs: nat)
    requires Aligned(p, pe, vp, z, ze, vz, zs)
    ensures p < Pow2(127) && -1125 <= pe <= 3100
  {
  }

  /** A normalized value sits in its low word. */
  lemma NormalizedLow(u1: Word, u2: Word, e: int, s: int)
    requires Normalized(Wide(u1, u2), e, s)
    ensures Normalized(u2, e, s)
  {
    hide Pow2, Sticky;
    Pow2Values();
  }

  lemma AddendRange(m: int, e: int, v: int)
    requires Addend(m, e, v)
    ensures Pow2(126) <= m < Pow2(127) && -1125 <= e <= 3100 && v > 0
  {
    hide Pow2;
    MulMonoStrict(0, m, Pow2(e + 1199));
  }

  /** Comparing high words is comparing wide values when one low word is zero. */
  lemma WideOrder(p1: Word, p2: Word, z1: Word, z2: Word)
    ensures p1 < z1 ==> Wide(p1, p2) < Wide(z1, z2)
    ensures z1 <= p1 && z2 == 0 ==> Wide(z1, z2) <= Wide(p1, p2)
    ensures Wide(p1, p2) == Wide(z1, z2) <==> p1 == z1 && p2 == z2
  {
  }

  lemma Cancelled(ps: Word, zs: Word, m: int, e: int, vp: int, vz: int, s: int)
    requires ps <= 1 && zs <= 1 && ps != zs
    requires Addend(m, e, vp) && Addend(m, e, vz)
    requires s * Pow2(200) == Signed(ps, vp) + Signed(zs, vz)
    ensures CorrectlyRounded(0, s, 1074)
  {
    hide Pow2, IsNearestEven;
    MulCancel(s, 0, Pow2(200));
    MagZero(0);
    NearestExact(0, 0, 1074);
  }

  lemma Pow2At128()
    ensures Pow2(128) == WORD * WORD
  {
    hide Pow2;
    Pow2Values();
    Pow2Add(64, 64);
  }

  lemma TopBit(u1: Word, u2: Word)
    ensures Shr(u1, 63) == if Wide(u1, u2) < Pow2(127) then 0 else 1
    ensures Shr(Not(u1), 63) == 1 - Shr(u1, 63)
  {
    hide Pow2;
    Pow2Values();
    Pow2Add(63, 64);
  }

  lemma SameSign(sign: Word, vp: int, vz: int)
    requires sign <= 1
    ensures Signed(sign, vp) + Signed(sign, vz) == Signed(sign, vp + vz)
  {
  }

  lemma OppositeSign(ps: Word, zs: Word, vp: int, vz: int)
    requires ps <= 1 && zs <= 1 && ps != zs
    ensures Signed(ps, vp) + Signed(zs, vz) == Signed(ps, vp - vz)
  {
  }

  lemma DifferenceRange(r: nat, nz: nat)
    requires r < Pow2(127) && nz < 128 && Pow2(127 - nz) <= r
    ensures nz >= 1
  {
  }

  lemma FitsShifted(r: nat, nz: nat)
    requires 1 <= nz < 128 && r < Pow2(128 - nz)
    ensures r * Pow2(nz - 1) < WORD * WORD
  {
    hide Pow2;
    Pow2At128();
    Pow2Add(128 - nz, nz - 1);
    MulMonoStrict(r, Pow2(128 - nz), Pow2(nz - 1));
    Pow2Less(127, 128);
  }

  /** The last part of FMA: round the normalized significand and assemble the result. */
  method RoundAndPack(ps: Word, pe0: Int32, m0: Word, ghost s: int, ghost v: int) returns (r: Word)
    requires ps <= 1 && Normalized(m0, pe0, v) && v > 0
    requires s * Pow2(200) == Signed(ps, v)
    ensures CorrectlyRounded(r, s, 1074)
  {
    hide Pow2, And, Or, Shl, Shr, IsNearestEven, CorrectlyRounded, Sticky, StickyShift, Signed, RoundBits, TiesToEven;
    var pe, m := pe0, m0;
    RoundBitsCorrect(m);
    Pow2Values();
    if pe > 1022 + BIAS || (pe == 1022 + BIAS && Shr(AddW(m, 512), 63) == 1) {
      if pe > 1022 + BIAS { RoundHuge(m, pe, v); } else { RoundNormal(m, pe, v, RoundBits(m)); }
      PackedInfinity(ps);
      RoundedResult(Or(Shl(ps, 63), INF), ps, INF, s, v);
      return Or(Shl(ps, 63), INF);
    }
    if pe < 0 {
      var n := -pe;
      StickyWord(m, n);
      m := Or(Shr(m, n), NonZero(And(m, SubW(Shl(1, n), 1))));
      pe := 0;
      RoundBitsCorrect(m);
      RoundSubnormal(m0, pe0, v, m, RoundBits(m));
    } else {
      RoundNormal(m, pe, v, RoundBits(m));
    }
    m := RoundBits(m);
    pe := if NonZero(m) == 0 then 0 else pe;
    PackedResult(ps, pe, m);
    r := AddW(AddW(Shl(ps, 63), Shl(pe, 52)), m);
    RoundedResult(r, ps, pe * IMPLICIT + m, s, v);
  }
}
