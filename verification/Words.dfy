/** Go's unsigned 64-bit words: bitwise operators, shifts with any count, two-word shifts. */
module Words {
  import opened Pow2s

  const WORD: nat := 0x1_0000_0000_0000_0000

  type Word = x: int | 0 <= x < 0x1_0000_0000_0000_0000

  function And(a: nat, b: nat): (r: nat)
    ensures r <= a && r <= b
  {
    if a == 0 || b == 0 then 0
    else 2 * And(a / 2, b / 2) + (if a % 2 == 1 && b % 2 == 1 then 1 else 0)
  }

  function Or(a: nat, b: nat): (r: nat)
    ensures a <= r && b <= r && r <= a + b
  {
    if a == 0 then b else if b == 0 then a
    else 2 * Or(a / 2, b / 2) + (if a % 2 == 1 || b % 2 == 1 then 1 else 0)
  }

  function Xor(a: nat, b: nat): (r: nat)
    ensures r <= a + b
  {
    if a == 0 then b else if b == 0 then a
    else 2 * Xor(a / 2, b / 2) + (if a % 2 != b % 2 then 1 else 0)
  }

  function Not(a: Word): Word {
    WORD - 1 - a
  }

  /** Go's `a &^ b`. */
  function AndNot(a: Word, b: Word): Word {
    And(a, Not(b))
  }

  /** Go's `a << n`: bits past the top are lost, and a count of 64 or more leaves nothing. */
  function Shl(a: Word, n: nat): Word {
    (a * Pow2(n)) % WORD
  }

  /** Go's `a >> n`. */
  function Shr(a: Word, n: nat): (r: Word) {
    DivLe(a, Pow2(n));
    a / Pow2(n)
  }

  function AddW(a: Word, b: Word): Word {
    (a + b) % WORD
  }

  function SubW(a: Word, b: Word): Word {
    (a - b) % WORD
  }

  lemma DivLe(a: nat, d: nat)
    requires d >= 1
    ensures 0 <= a / d <= a
  {
    DivMod(a, d);
    if a / d > a { MulMono(1, d, a / d); }
    if a / d < 0 { MulMono(a / d, -1, d); }
  }

  // ---- bitwise lemmas ----

  /** The bit-by-bit step, zero operands included. */
  lemma AndStep(a: nat, b: nat)
    ensures And(a, b) == 2 * And(a / 2, b / 2) + (if a % 2 == 1 && b % 2 == 1 then 1 else 0)
    ensures And(0, b) == 0 == And(a, 0)
  {
  }

  lemma Halves(c: nat, d: nat, bit: nat)
    requires c == 2 * d + bit && bit < 2
    ensures c / 2 == d && c % 2 == bit
  {
  }

  lemma HalfPow2(n: nat, b: nat)
    requires n >= 1
    ensures Pow2(n) == 2 * Pow2(n - 1)
    ensures b < Pow2(n) ==> b / 2 < Pow2(n - 1)
  {
  }

  /** Masking with 2^n - 1 is the remainder modulo 2^n. */
  lemma {:induction false} AndMask(a: nat, n: nat)
    ensures And(a, Pow2(n) - 1) == a % Pow2(n)
  {
    hide And, Pow2;
    AndStep(a, Pow2(n) - 1);
    if n == 0 {
      Pow2Zero(a);
    } else {
      AndMask(a / 2, n - 1);
      DivPow2Step(a, n - 1);
      HalfPow2(n, 0);
      Halves(Pow2(n) - 1, Pow2(n - 1) - 1, 1);
    }
  }

  lemma Pow2Zero(a: nat)
    ensures Pow2(0) == 1 && a % Pow2(0) == 0
  {
  }

  /** Masking with the bits from n up to w clears the low n bits. */
  lemma {:induction false} AndHighMask(a: nat, n: nat, w: nat)
    requires n <= w && a < Pow2(w)
    ensures Pow2(n) <= Pow2(w)
    ensures And(a, Pow2(w) - Pow2(n)) == a - a % Pow2(n)
    decreases w
  {
    hide And, Pow2;
    Pow2Minus(n, w);
    if n == 0 {
      Pow2Zero(a);
      AndMask(a, w);
      DivUnique(a, Pow2(w), 0, a);
    } else {
      AndStep(a, Pow2(w) - Pow2(n));
      HalfPow2(n, 0);
      HalfPow2(w, a);
      DivPow2Step(a, n - 1);
      Halves(Pow2(w) - Pow2(n), Pow2(w - 1) - Pow2(n - 1), 0);
      AndHighMask(a / 2, n - 1, w - 1);
      TwiceHalf(a, a % Pow2(n), a / 2 % Pow2(n - 1), And(a / 2, Pow2(w - 1) - Pow2(n - 1)));
    }
  }

  lemma TwiceHalf(a: nat, low: nat, halfLow: nat, halfHigh: nat)
    requires halfHigh == a / 2 - halfLow && low == 2 * halfLow + a % 2
    ensures 2 * halfHigh == a - low
  {
  }

  /** Bits of a above the mask do not matter. */
  lemma {:induction false} AndLow(a: nat, b: nat, n: nat)
    requires b < Pow2(n)
    ensures And(a, b) == And(a % Pow2(n), b)
    decreases n
  {
    hide And, Pow2;
    if n == 0 {
      Pow2Zero(a);
      AndStep(a, b);
    } else {
      DivPow2Step(a, n - 1);
      HalfPow2(n, b);
      AndStep(a, b);
      AndStep(a % Pow2(n), b);
      Halves(a % Pow2(n), a / 2 % Pow2(n - 1), a % 2);
      AndLow(a / 2, b / 2, n - 1);
    }
  }

  /** Or and And together hold the same bits as the two operands. */
  lemma {:induction false} OrPlusAnd(a: nat, b: nat)
    ensures Or(a, b) + And(a, b) == a + b
  {
    if a != 0 && b != 0 { OrPlusAnd(a / 2, b / 2); }
  }

  /** Clearing the bits of b from a subtracts what they share. */
  lemma {:induction false} AndComplement(a: nat, b: nat, n: nat)
    requires a < Pow2(n) && b < Pow2(n)
    ensures And(a, Pow2(n) - 1 - b) == a - And(a, b)
    decreases n
  {
    hide And, Pow2;
    AndStep(a, b);
    AndStep(a, Pow2(n) - 1 - b);
    if n == 0 {
      Pow2Zero(a);
    } else {
      HalfPow2(n, a);
      HalfPow2(n, b);
      AndComplement(a / 2, b / 2, n - 1);
    }
  }

  lemma AndNotSubtracts(a: Word, b: Word)
    ensures AndNot(a, b) == a - And(a, b)
  {
    Pow2Values();
    AndComplement(a, b, 64);
  }

  /** Or of two values whose bits cannot overlap is their sum. */
  lemma {:induction false} OrDisjoint(a: nat, b: nat, n: nat)
    requires b < Pow2(n)
    ensures Or(a * Pow2(n), b) == a * Pow2(n) + b
    ensures Or(b, a * Pow2(n)) == a * Pow2(n) + b
  {
    if n == 0 {
    } else if a == 0 || b == 0 {
    } else {
      var h := a * Pow2(n - 1);
      assert a * Pow2(n) == 2 * h;
      MulMono(1, a, Pow2(n - 1));
      OrDisjoint(a, b / 2, n - 1);
    }
  }

  lemma {:induction false} OrSelf(a: nat)
    ensures Or(a, a) == a
  {
    if a != 0 { OrSelf(a / 2); }
  }

  lemma OrBit(a: nat)
    ensures Or(a, 0) == a
    ensures Or(a, 1) == a + 1 - a % 2
  {
    if a > 0 { assert Or(a / 2, 0) == a / 2; }
  }

  lemma {:induction false} XorZero(a: nat, b: nat)
    ensures Xor(a, b) == 0 <==> a == b
  {
    if a == 0 || b == 0 {
    } else {
      XorZero(a / 2, b / 2);
    }
  }

  lemma {:induction false} AndComm(a: nat, b: nat)
    ensures And(a, b) == And(b, a)
  {
    if a != 0 && b != 0 { AndComm(a / 2, b / 2); }
  }

  /** Shifting out everything. */
  lemma ShlMany(a: Word, n: nat)
    requires n >= 64
    ensures Shl(a, n) == 0
  {
    Pow2Values();
    Pow2Minus(64, n);
    var q := a * Pow2(n - 64);
    assert a * Pow2(n) == q * WORD;
    DivUnique(a * Pow2(n), WORD, q, 0);
  }

  lemma ShrMany(a: Word, n: nat)
    requires n >= 64
    ensures Shr(a, n) == 0
  {
    Pow2Values();
    Pow2Minus(64, n);
    DivUnique(a, Pow2(n), 0, a);
  }

  /** A left shift keeps the low 64 - n bits. */
  lemma ShlLow(a: Word, n: nat)
    requires n <= 64
    ensures Shl(a, n) == (a % Pow2(64 - n)) * Pow2(n)
  {
    Pow2Values();
    Pow2Minus(n, 64);
    ModMul(a, Pow2(n), Pow2(64 - n));
  }

  lemma LowMask(n: nat)
    requires n < 64
    ensures SubW(Shl(1, n), 1) == Pow2(n) - 1
  {
    hide Pow2;
    Pow2Values();
    Pow2Less(n, 64);
    ShlExact(1, n);
  }

  // ---- two-word values ----

  function Wide(u1: Word, u2: Word): (r: nat)
    ensures r < 0x1_0000_0000_0000_0000_0000_0000_0000_0000
  {
    u1 * WORD + u2
  }

  /** Go's unsigned subtraction used as a shift count: it wraps. */
  function Count(a: nat, b: nat): Word {
    (a - b) % WORD
  }

  /** `shr`: both words shifted right together. */
  function Shr2(u1: Word, u2: Word, n: nat): (r: (Word, Word)) {
    OrWord(Shr(u2, n), Shl(u1, Count(64, n)));
    OrWord(Or(Shr(u2, n), Shl(u1, Count(64, n))), Shr(u1, Count(n, 64)));
    (Shr(u1, n), Or(Or(Shr(u2, n), Shl(u1, Count(64, n))), Shr(u1, Count(n, 64))))
  }

  /** `shl`: both words shifted left together. */
  function Shl2(u1: Word, u2: Word, n: nat): (r: (Word, Word)) {
    OrWord(Shl(u1, n), Shr(u2, Count(64, n)));
    OrWord(Or(Shl(u1, n), Shr(u2, Count(64, n))), Shl(u2, Count(n, 64)));
    (Or(Or(Shl(u1, n), Shr(u2, Count(64, n))), Shl(u2, Count(n, 64))), Shl(u2, n))
  }

  lemma {:induction false} OrBound(a: nat, b: nat, n: nat)
    requires a < Pow2(n) && b < Pow2(n)
    ensures Or(a, b) < Pow2(n)
  {
    if a != 0 && b != 0 { OrBound(a / 2, b / 2, n - 1); }
  }

  lemma OrWord(a: Word, b: Word)
    ensures Or(a, b) < WORD
  {
    Pow2Values();
    OrBound(a, b, 64);
  }

  /** Shifting two words right divides the 128-bit value they hold. */
  lemma Shr2Divides(u1: Word, u2: Word, n: nat)
    requires n <= 128
    ensures var r := Shr2(u1, u2, n); Wide(r.0, r.1) == Wide(u1, u2) / Pow2(n)
  {
    hide *;
    Pow2Values();
    if n == 0 {
      ShiftNone(u1, u2);
    } else if n < 64 {
      Shr2Small(u1, u2, n);
    } else {
      Shr2Large(u1, u2, n);
    }
  }

  lemma ShiftNone(u1: Word, u2: Word)
    ensures Shr2(u1, u2, 0) == (u1, u2) == Shl2(u1, u2, 0)
    ensures Pow2(0) == 1
  {
    hide Or, Shl, Shr;
    OrBit(u1);
    OrBit(u2);
    ShlMany(u1, 64);
    ShlMany(u2, Count(0, 64));
    ShrMany(u1, Count(0, 64));
    ShrMany(u2, 64);
    ShiftByNone(u1);
    ShiftByNone(u2);
  }

  lemma ShiftByNone(u: Word)
    ensures Shl(u, 0) == u == Shr(u, 0)
  {
  }

  lemma Shr2Large(u1: Word, u2: Word, n: nat)
    requires 64 <= n <= 128
    ensures Shr2(u1, u2, n) == (0, Shr(u1, n - 64))
    ensures Wide(0, Shr(u1, n - 64)) == Wide(u1, u2) / Pow2(n)
  {
    hide Or, And, Pow2;
    Pow2Values();
    ShrMany(u1, n);
    ShrMany(u2, n);
    if n == 64 {
      ModMul(u1, 1, WORD);
      DivUnique(u1, WORD, 0, u1);
      OrSelf(u1);
    } else {
      ShlMany(u1, Count(64, n));
    }
    DivUnique(Wide(u1, u2), WORD, u1, u2);
    Pow2Add(64, n - 64);
    DivDiv(Wide(u1, u2), WORD, Pow2(n - 64));
  }

  lemma Shr2Shape(u1: Word, u2: Word, n: nat)
    requires 0 < n < 64
    ensures Or(Shr(u2, n), Shl(u1, 64 - n)) < WORD
    ensures Shr2(u1, u2, n) == (Shr(u1, n), Or(Shr(u2, n), Shl(u1, 64 - n)))
  {
    hide Or, Shl, Shr;
    OrWord(Shr(u2, n), Shl(u1, 64 - n));
    ShrMany(u1, Count(n, 64));
    OrBit(Or(Shr(u2, n), Shl(u1, 64 - n)));
  }

  lemma Shl2Shape(u1: Word, u2: Word, n: nat)
    requires 0 < n < 64
    ensures Or(Shl(u1, n), Shr(u2, 64 - n)) < WORD
    ensures Shl2(u1, u2, n) == (Or(Shl(u1, n), Shr(u2, 64 - n)), Shl(u2, n))
  {
    hide Or, Shl, Shr;
    OrWord(Shl(u1, n), Shr(u2, 64 - n));
    ShlMany(u2, Count(n, 64));
    OrBit(Or(Shl(u1, n), Shr(u2, 64 - n)));
  }

  lemma Shr2Small(u1: Word, u2: Word, n: nat)
    requires 0 < n < 64
    ensures var r := Shr2(u1, u2, n); Wide(r.0, r.1) == Wide(u1, u2) / Pow2(n)
  {
    hide Or, And, Pow2, Shr2, Shl2, Count, Shl;
    Pow2Values();
    Pow2Minus(n, 64);
    var p, t := Pow2(64 - n), Pow2(n);
    ShlLow(u1, 64 - n);
    DivBelow(u2, t, p);
    OrDisjoint(u1 % t, u2 / t, 64 - n);
    Shr2Shape(u1, u2, n);
    WideDiv(u1, u2, t, p, WORD);
  }

  /** Shifting two words left multiplies the 128-bit value when nothing falls off the top. */
  lemma Shl2Multiplies(u1: Word, u2: Word, n: nat)
    requires n < 128
    requires Wide(u1, u2) * Pow2(n) < WORD * WORD
    ensures var r := Shl2(u1, u2, n); Wide(r.0, r.1) == Wide(u1, u2) * Pow2(n)
  {
    hide *;
    Pow2Values();
    if n == 0 {
      ShiftNone(u1, u2);
    } else if n < 64 {
      Shl2Small(u1, u2, n);
    } else {
      Shl2Large(u1, u2, n);
    }
  }

  lemma Shl2Large(u1: Word, u2: Word, n: nat)
    requires 64 <= n < 128
    requires Wide(u1, u2) * Pow2(n) < WORD * WORD
    ensures u1 == 0 && u2 * Pow2(n - 64) < WORD
    ensures Shl2(u1, u2, n) == (u2 * Pow2(n - 64), 0)
    ensures Wide(u2 * Pow2(n - 64), 0) == Wide(u1, u2) * Pow2(n)
  {
    hide Or, Pow2, Shl, Shr, Shl2;
    Pow2Values();
    var u, t := Wide(u1, u2), Pow2(n - 64);
    Pow2Add(n - 64, 64);
    Assoc(u, t, WORD);
    MulCancel(u * t, WORD, WORD);
    MulMono(1, t, u);
    Shl2LargeShape(u2, n);
    ShlExact(u2, n - 64);
  }

  lemma ShlExact(a: Word, n: nat)
    requires a * Pow2(n) < WORD
    ensures Shl(a, n) == a * Pow2(n)
  {
    DivUnique(a * Pow2(n), WORD, 0, a * Pow2(n));
  }

  lemma Shl2LargeShape(u2: Word, n: nat)
    requires 64 <= n < 128
    ensures Shl2(0, u2, n) == (Shl(u2, n - 64), 0)
  {
    hide Or, Shl, Shr;
    ShlZero(n);
    ShlMany(u2, n);
    if n == 64 {
      ShiftByNone(u2);
      OrSelf(u2);
    } else {
      ShrMany(u2, Count(64, n));
    }
    OrBit(0);
  }

  lemma ShlZero(n: nat)
    ensures Shl(0, n) == 0
  {
    assert 0 * Pow2(n) == 0;
  }

  lemma Shl2Small(u1: Word, u2: Word, n: nat)
    requires 0 < n < 64
    requires Wide(u1, u2) * Pow2(n) < WORD * WORD
    ensures var r := Shl2(u1, u2, n); Wide(r.0, r.1) == Wide(u1, u2) * Pow2(n)
  {
    hide Or, Pow2, Shl, Shl2;
    Pow2Values();
    Pow2Minus(n, 64);
    var p, t := Pow2(64 - n), Pow2(n);
    CarryOut(u1, u2, p, t);
    ShlExact(u1, n);
    ShlLow(u2, n);
    OrDisjoint(u1, u2 / p, n);
    Shl2Shape(u1, u2, n);
  }

  lemma CarryOut(u1: Word, u2: Word, p: nat, t: nat)
    requires p * t == WORD && p > 0
    requires (u1 * WORD + u2) * t < WORD * WORD
    ensures u1 * t < WORD && 0 <= u2 / p < t
    ensures (u1 * WORD + u2) * t == (u1 * t + u2 / p) * WORD + (u2 % p) * t
  {
    WideMul(u1, u2, t, p, WORD);
    DivBelow(u2, p, t);
    MulCancel(u1 * t + u2 / p, WORD, WORD);
  }

  /** `bits.Mul64`: high and low word of the product. */
  function Mul64(x: Word, y: Word): (r: (Word, Word))
    ensures Wide(r.0, r.1) == x * y
  {
    MulWord(x, y);
    (x * y / WORD, x * y % WORD)
  }

  lemma MulWord(x: Word, y: Word)
    ensures 0 <= x * y && 0 <= x * y / WORD < WORD
  {
    MulMono(0, x, y);
    MulMono(x, WORD, y);
    MulMono(y, WORD, WORD);
    if y > 0 { DivBelow(x * y, WORD, WORD); }
  }

  /** `bits.Add64`: sum and carry out. */
  function Add64(x: Word, y: Word, carry: Word): (Word, Word)
    requires carry <= 1
  {
    ((x + y + carry) % WORD, (x + y + carry) / WORD)
  }

  /** `bits.Sub64`: difference and borrow out. */
  function Sub64(x: Word, y: Word, borrow: Word): (Word, Word)
    requires borrow <= 1
  {
    ((x - y - borrow) % WORD, if x < y + borrow then 1 else 0)
  }

  /** Adding word by word adds the wide values, when the sum fits. */
  lemma AddWide(x1: Word, x2: Word, y1: Word, y2: Word)
    requires Wide(x1, x2) + Wide(y1, y2) < WORD * WORD
    ensures var lo := Add64(x2, y2, 0);
            lo.1 <= 1 && Wide(Add64(x1, y1, lo.1).0, lo.0) == Wide(x1, x2) + Wide(y1, y2)
  {
  }

  lemma SubWide(x1: Word, x2: Word, y1: Word, y2: Word)
    requires Wide(x1, x2) >= Wide(y1, y2)
    ensures var lo := Sub64(x2, y2, 0);
            lo.1 <= 1 && Wide(Sub64(x1, y1, lo.1).0, lo.0) == Wide(x1, x2) - Wide(y1, y2)
  {
  }

  // ---- zero tests and leading zeros ----

  function Zero(x: Word): (r: Word)
  {
    if x == 0 then 1 else 0
  }

  function NonZero(x: Word): (r: Word)
  {
    if x != 0 then 1 else 0
  }

  function BitLen(x: nat): (n: nat)
    ensures x == 0 <==> n == 0
  {
    if x == 0 then 0 else 1 + BitLen(x / 2)
  }

  lemma {:induction false} BitLenBounds(x: nat)
    requires x > 0
    ensures BitLen(x) >= 1 && Pow2(BitLen(x) - 1) <= x < Pow2(BitLen(x))
  {
    if x > 1 { BitLenBounds(x / 2); }
  }

  lemma BitLenUnique(x: nat, n: nat)
    requires Pow2(n) <= x < Pow2(n + 1)
    ensures BitLen(x) == n + 1
  {
    BitLenBounds(x);
    var l := BitLen(x);
    if l < n + 1 { Pow2Minus(l, n); }
    if l > n + 1 { Pow2Minus(n + 1, l - 1); }
  }

  lemma BitLenAtMost(x: nat, n: nat)
    requires x < Pow2(n)
    ensures BitLen(x) <= n
  {
    if x > 0 {
      BitLenBounds(x);
      if BitLen(x) > n { Pow2Minus(n, BitLen(x) - 1); }
    }
  }

  /** `bits.LeadingZeros64`. */
  function LeadingZeros(x: Word): (n: nat)
    ensures n <= 64
  {
    Pow2Values();
    BitLenAtMost(x, 64);
    64 - BitLen(x)
  }

  /** `lz`: leading zeros of a two-word value. */
  function LeadingZeros2(u1: Word, u2: Word): (n: nat)
    ensures n <= 128
  {
    var l := LeadingZeros(u1);
    if l == 64 then l + LeadingZeros(u2) else l
  }

  /** Shifting left by the leading zeros brings the top set bit to position 127. */
  lemma LeadingZeros2Normalizes(u1: Word, u2: Word)
    requires Wide(u1, u2) > 0
    ensures var n := LeadingZeros2(u1, u2);
            n < 128 && Pow2(127 - n) <= Wide(u1, u2) < Pow2(128 - n)
  {
    hide Pow2, BitLen;
    Pow2Values();
    if u1 == 0 {
      BitLenBounds(u2);
    } else {
      var l := BitLen(u1);
      BitLenBounds(u1);
      Pow2Add(l - 1, 64);
      Pow2Add(l, 64);
      MulMono(Pow2(l - 1), u1, WORD);
      MulMono(u1 + 1, Pow2(l), WORD);
    }
  }
}
