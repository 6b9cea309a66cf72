/** Binary64 numbers as bit patterns. A magnitude is counted in units of 2^-1074, the smallest
    positive double, so every finite double is an integer; +Inf stands for 2^1024, the value at
    which IEEE 754-2019 section 4.3.1 makes round-to-nearest overflow. */
module Float64 {
  import opened Pow2s
  import opened Words

  const IMPLICIT: nat := 0x10_0000_0000_0000
  const INF: nat := 0x7FF0_0000_0000_0000
  const SIGN: nat := 0x8000_0000_0000_0000
  const NAN: Word := 0x7FF8_0000_0000_0001
  /** 1.0 */
  const ONE: Word := 0x3FF0_0000_0000_0000

  /** The magnitude of a non-negative pattern (exponent field above a 52-bit fraction). */
  function Mag(b: nat): nat {
    var e, f := b / IMPLICIT, b % IMPLICIT;
    if e == 0 then f else (IMPLICIT + f) * Pow2(e - 1)
  }

  predicate Negative(w: Word) { w >= SIGN }

  function Abs(w: Word): (r: Word)
    ensures r < SIGN
  {
    if w >= SIGN then w - SIGN else w
  }

  predicate IsNaN(w: Word) { Abs(w) > INF }
  predicate IsInf(w: Word) { Abs(w) == INF }
  predicate IsZero(w: Word) { Abs(w) == 0 }
  predicate Finite(w: Word) { Abs(w) < INF }

  /** The value of a pattern that is not NaN, in units of 2^-1074. */
  function Value(w: Word): int {
    var m: int := Mag(Abs(w));
    if Negative(w) then -m else m
  }

  function WithSign(neg: bool, b: nat): Word
    requires b < SIGN
  {
    if neg then SIGN + b else b
  }

  function Neg(w: Word): Word {
    WithSign(!Negative(w), Abs(w))
  }

  function Dist(a: int, b: int): nat {
    if a < b then b - a else a - b
  }

  /** The magnitude pattern b is n / 2^k (in units of 2^-1074) rounded to nearest, ties to even:
      no pattern up to +Inf is closer, and b is even when another one is as close. */
  ghost predicate IsNearestEven(b: nat, n: nat, k: nat) {
    b <= INF && forall c: nat :: c <= INF ==> NoCloser(b, c, n, k)
  }

  ghost predicate NoCloser(b: nat, c: nat, n: nat, k: nat) {
    && Dist(n, Mag(b) * Pow2(k)) <= Dist(n, Mag(c) * Pow2(k))
    && (c != b && Dist(n, Mag(b) * Pow2(k)) == Dist(n, Mag(c) * Pow2(k)) ==> b % 2 == 0)
  }

  // ---- the order of magnitudes ----

  /** A pattern with exponent step e and significand m; m may spill into the next step. */
  lemma MagAt(e: nat, m: nat)
    requires m <= 2 * IMPLICIT && (e == 0 || IMPLICIT <= m)
    ensures Mag(e * IMPLICIT + m) == m * Pow2(e)
  {
    hide Pow2, Mag;
    if m == 2 * IMPLICIT {
      MagParts(e + 2, 0);
      Pow2Double(e);
      Assoc(IMPLICIT, 2, Pow2(e));
    } else if m >= IMPLICIT {
      MagParts(e + 1, m - IMPLICIT);
    } else {
      MagParts(0, m);
      Pow2One();
    }
  }

  lemma MagParts(x: nat, f: nat)
    requires f < IMPLICIT
    ensures Mag(x * IMPLICIT + f) == if x == 0 then f else (IMPLICIT + f) * Pow2(x - 1)
  {
    hide Pow2;
    DivUnique(x * IMPLICIT + f, IMPLICIT, x, f);
  }

  lemma Pow2One()
    ensures Pow2(0) == 1 && Pow2(1) == 2
  {
  }

  lemma Pow2Double(e: nat)
    ensures Pow2(e + 1) == 2 * Pow2(e)
  {
  }

  /** Every pattern is some (e, m), and e only stays behind the exponent field by the implicit bit. */
  lemma MagShape(b: nat) returns (e: nat, m: nat)
    ensures m < 2 * IMPLICIT && (e == 0 || IMPLICIT <= m)
    ensures b == e * IMPLICIT + m && Mag(b) == m * Pow2(e)
  {
    hide Pow2;
    var x, f := b / IMPLICIT, b % IMPLICIT;
    DivMod(b, IMPLICIT);
    if x == 0 { e, m := 0, f; } else { e, m := x - 1, IMPLICIT + f; }
    MagAt(e, m);
  }

  lemma MagStep(b: nat)
    ensures Mag(b) < Mag(b + 1)
  {
    hide Mag, Pow2;
    var e, m := MagShape(b);
    MagAt(e, m + 1);
    MulMonoStrict(m, m + 1, Pow2(e));
  }

  lemma {:induction false} MagMono(a: nat, b: nat)
    requires a < b
    ensures Mag(a) < Mag(b)
    decreases b
  {
    hide Mag;
    MagStep(b - 1);
    if a < b - 1 { MagMono(a, b - 1); }
  }

  lemma MagInjective(a: nat, b: nat)
    requires Mag(a) == Mag(b)
    ensures a == b
  {
    hide Mag;
    if a < b { MagMono(a, b); }
    if b < a { MagMono(b, a); }
  }

  lemma MagInf()
    ensures Mag(INF) == Pow2(2098)
  {
    hide Pow2, Mag;
    MagAt(2046, IMPLICIT);
    Pow2Values();
    Pow2Add(52, 2046);
  }

  lemma MagZero(b: nat)
    ensures Mag(b) == 0 <==> b == 0
  {
    hide Mag;
    MagAt(0, 0);
    assert 0 * Pow2(0) == 0;
    if b > 0 { MagMono(0, b); }
  }

  // ---- rounding to a multiple ----

  /** m is n / u rounded to the nearest integer, ties to even. */
  ghost predicate TiesToEven(m: nat, n: nat, u: nat) {
    && 2 * Dist(n, m * u) <= u
    && (2 * Dist(n, m * u) == u ==> m % 2 == 0)
  }

  lemma NearestMultiple(m: nat, n: nat, u: nat, j: nat)
    requires u > 0 && TiesToEven(m, n, u)
    ensures Dist(n, m * u) <= Dist(n, j * u)
    ensures j != m && Dist(n, m * u) == Dist(n, j * u) ==> m % 2 == 0
  {
    if j < m { MulMonoStrict(j, m, u); }
    if m < j { MulMonoStrict(m, j, u); }
  }

  /** Rounding to the grid of one exponent step is rounding to the nearest double, as long as
      the step fits the value. */
  lemma NearestOnGrid(e: nat, m: nat, n: nat, k: nat)
    requires e <= 2045 && m <= 2 * IMPLICIT && (e == 0 || IMPLICIT <= m)
    requires TiesToEven(m, n, Pow2(e + k))
    requires e == 0 || IMPLICIT * Pow2(e + k) <= n
    ensures IsNearestEven(e * IMPLICIT + m, n, k)
  {
    hide Pow2, Mag, TiesToEven, NoCloser;
    var b := e * IMPLICIT + m;
    forall c: nat | c <= INF
      ensures NoCloser(b, c, n, k)
    {
      NearestOnGridOne(e, m, n, k, c);
    }
  }

  lemma NearestOnGridOne(e: nat, m: nat, n: nat, k: nat, c: nat)
    requires m <= 2 * IMPLICIT && (e == 0 || IMPLICIT <= m)
    requires TiesToEven(m, n, Pow2(e + k))
    requires e == 0 || IMPLICIT * Pow2(e + k) <= n
    ensures NoCloser(e * IMPLICIT + m, c, n, k)
  {
    hide Pow2, Mag, TiesToEven, Dist;
    var b, u := e * IMPLICIT + m, Pow2(e + k);
    MagAt(e, m);
    Pow2Add(e, k);
    Assoc(m, Pow2(e), Pow2(k));
    assert Mag(b) * Pow2(k) == m * u;
    var e', m' := MagShape(c);
    Assoc(m', Pow2(e'), Pow2(k));
    Pow2Add(e', k);
    assert Mag(c) * Pow2(k) == m' * Pow2(e' + k);
    if e <= e' {
      Pow2Minus(e + k, e' + k);
      var j := m' * Pow2(e' - e);
      Assoc(m', Pow2(e' - e), u);
      NearestMultiple(m, n, u, j);
      if j == m {
        MulCancel(Mag(b), Mag(c), Pow2(k));
        MagInjective(b, c);
      }
    } else {
      FinerGrid(m', e' + k, e + k);
      NearestMultiple(m, n, u, IMPLICIT);
      DistBelow(m' * Pow2(e' + k), IMPLICIT * u, n);
    }
  }

  /** A double from a lower exponent step lies below every significand of this step. */
  lemma FinerGrid(m: nat, i: nat, j: nat)
    requires i < j && m < 2 * IMPLICIT
    ensures m * Pow2(i) < IMPLICIT * Pow2(j)
  {
    hide Pow2;
    Pow2Less(i, j);
    MulMonoStrict(m, 2 * IMPLICIT, Pow2(i));
    MulMono(2 * Pow2(i), Pow2(j), IMPLICIT);
  }

  lemma DistBelow(a: nat, b: nat, n: nat)
    requires a < b <= n
    ensures Dist(n, b) < Dist(n, a)
  {
  }

  /** A value of at least 2^1024 rounds to infinity. */
  lemma NearestOverflow(n: nat, k: nat)
    requires Pow2(2098 + k) <= n
    ensures IsNearestEven(INF, n, k)
  {
    hide Pow2, Mag;
    MagInf();
    Pow2Add(2098, k);
    forall c: nat | c <= INF
      ensures NoCloser(INF, c, n, k)
    {
      if c < INF {
        MagMono(c, INF);
        MulMonoStrict(Mag(c), Mag(INF), Pow2(k));
      }
    }
  }

  /** Correct rounding determines the pattern. */
  lemma NearestUnique(a: nat, b: nat, n: nat, k: nat)
    requires IsNearestEven(a, n, k) && IsNearestEven(b, n, k)
    ensures a == b
  {
    hide Pow2, Mag;
    if a < b {
      NearestApart(a, b, n, k);
    } else if b < a {
      NearestApart(b, a, n, k);
    }
  }

  lemma NearestApart(a: nat, b: nat, n: nat, k: nat)
    requires a < b
    ensures !IsNearestEven(a, n, k) || !IsNearestEven(b, n, k)
  {
    hide Pow2, Mag;
    if IsNearestEven(a, n, k) && IsNearestEven(b, n, k) {
      var p := Pow2(k);
      assert NoCloser(a, b, n, k) && NoCloser(b, a, n, k) && NoCloser(a, a + 1, n, k);
      MagStep(a);
      MulMonoStrict(Mag(a), Mag(a + 1), p);
      if a + 1 < b {
        MagMono(a + 1, b);
        MulMonoStrict(Mag(a + 1), Mag(b), p);
      }
    }
  }

  /** A value that is a double rounds to itself. */
  lemma NearestExact(b: nat, n: nat, k: nat)
    requires b <= INF && n == Mag(b) * Pow2(k)
    ensures IsNearestEven(b, n, k)
  {
    hide Pow2, Mag;
    forall c: nat | c <= INF
      ensures NoCloser(b, c, n, k)
    {
      if c != b {
        if c < b { MagMono(c, b); MulMonoStrict(Mag(c), Mag(b), Pow2(k)); }
        else { MagMono(b, c); MulMonoStrict(Mag(b), Mag(c), Pow2(k)); }
      }
    }
  }

  /** Scaling both the value and its unit changes nothing. */
  lemma NearestScale(b: nat, n: nat, k: nat, j: nat)
    ensures IsNearestEven(b, n * Pow2(j), k + j) <==> IsNearestEven(b, n, k)
  {
    hide Pow2, Mag, NoCloser;
    var n', k' := n * Pow2(j), k + j;
    if IsNearestEven(b, n, k) {
      forall c: nat | c <= INF
        ensures NoCloser(b, c, n', k')
      {
        NoCloserScale(b, c, n, k, j);
      }
    }
    if IsNearestEven(b, n * Pow2(j), k + j) {
      forall c: nat | c <= INF
        ensures NoCloser(b, c, n, k)
      {
        NoCloserScale(b, c, n, k, j);
      }
    }
  }

  lemma NoCloserScale(b: nat, c: nat, n: nat, k: nat, j: nat)
    ensures NoCloser(b, c, n * Pow2(j), k + j) <==> NoCloser(b, c, n, k)
  {
    hide Pow2, Mag;
    DistScale(n, Mag(b), k, j);
    DistScale(n, Mag(c), k, j);
    MulCancel(Dist(n, Mag(b) * Pow2(k)), Dist(n, Mag(c) * Pow2(k)), Pow2(j));
  }

  /** Two ways of writing the same value round alike. */
  lemma NearestSame(b: nat, n: nat, k: nat, n': nat, k': nat)
    requires n * Pow2(k') == n' * Pow2(k)
    ensures IsNearestEven(b, n, k) <==> IsNearestEven(b, n', k')
  {
    hide Pow2, IsNearestEven;
    NearestScale(b, n, k, k');
    NearestScale(b, n', k', k);
  }

  lemma DistScale(n: nat, m: nat, k: nat, j: nat)
    ensures Dist(n * Pow2(j), m * Pow2(k + j)) == Dist(n, m * Pow2(k)) * Pow2(j)
  {
    hide Pow2;
    Pow2Add(k, j);
    Assoc(m, Pow2(k), Pow2(j));
    MulCancel(n, m * Pow2(k), Pow2(j));
    var a: int, b: int := n, m * Pow2(k);
    Distrib(a, -b, Pow2(j));
    Distrib(b, -a, Pow2(j));
  }

  // ---- rounding as a function ----

  function RoundTies(n: nat, u: nat): (m: nat)
    requires u > 0
  {
    DivLe(n, u);
    var q, r := n / u, n % u;
    if 2 * r > u || (2 * r == u && q % 2 == 1) then q + 1 else q
  }

  lemma RoundTiesCorrect(n: nat, u: nat)
    requires u > 0
    ensures TiesToEven(RoundTies(n, u), n, u)
  {
    DivLe(n, u);
    DivMod(n, u);
    Distrib(n / u, 1, u);
  }

  /** Smallest exponent step, from e on, whose grid holds n / 2^k in 53 bits. */
  function RoundFrom(n: nat, k: nat, e: nat): nat
    decreases 2046 - e
  {
    if e > 2045 then INF
    else if n < 2 * IMPLICIT * Pow2(e + k) then e * IMPLICIT + RoundTies(n, Pow2(e + k))
    else RoundFrom(n, k, e + 1)
  }

  /** n / 2^k rounded to a double magnitude, ties to even: what the hardware does to an exact result. */
  function RoundNE(n: nat, k: nat): nat {
    RoundFrom(n, k, 0)
  }

  lemma {:induction false} RoundFromCorrect(n: nat, k: nat, e: nat)
    requires e <= 2046
    requires e == 0 || IMPLICIT * Pow2(e + k) <= n
    ensures IsNearestEven(RoundFrom(n, k, e), n, k)
    decreases 2046 - e
  {
    hide Pow2, IsNearestEven, RoundTies;
    if e > 2045 {
      Pow2Values();
      Pow2Add(52, 2046 + k);
      NearestOverflow(n, k);
    } else if n < 2 * IMPLICIT * Pow2(e + k) {
      RoundTiesCorrect(n, Pow2(e + k));
      RoundTiesRange(n, Pow2(e + k), e > 0);
      NearestOnGrid(e, RoundTies(n, Pow2(e + k)), n, k);
    } else {
      Pow2Double(e + k);
      Assoc(IMPLICIT, 2, Pow2(e + k));
      RoundFromCorrect(n, k, e + 1);
    }
  }

  lemma RoundTiesRange(n: nat, u: nat, normal: bool)
    requires u > 0 && n < 2 * IMPLICIT * u
    requires normal ==> IMPLICIT * u <= n
    ensures RoundTies(n, u) <= 2 * IMPLICIT
    ensures normal ==> IMPLICIT <= RoundTies(n, u)
  {
    DivMod(n, u);
    var q := n / u;
    if q >= 2 * IMPLICIT { MulMono(2 * IMPLICIT, q, u); }
    if normal && q < IMPLICIT { MulMonoStrict(q, IMPLICIT, u); }
  }

  lemma NearestInRange(b: nat, n: nat, k: nat)
    requires IsNearestEven(b, n, k)
    ensures b <= INF
  {
  }

  /** The hardware rounding is the correct rounding, and the only one. */
  lemma RoundNECorrect(n: nat, k: nat)
    ensures RoundNE(n, k) <= INF && IsNearestEven(RoundNE(n, k), n, k)
    ensures forall b: nat :: IsNearestEven(b, n, k) ==> b == RoundNE(n, k)
  {
    hide IsNearestEven, RoundFrom;
    RoundFromCorrect(n, k, 0);
    forall b: nat | IsNearestEven(b, n, k)
      ensures b == RoundNE(n, k)
    {
      NearestUnique(b, RoundNE(n, k), n, k);
    }
    NearestInRange(RoundNE(n, k), n, k);
  }

  // ---- values scaled by a power of two of either sign ----

  /** a == b * 2^e. */
  ghost predicate ScaledBy(a: nat, b: nat, e: int) {
    if e >= 0 then a == b * Pow2(e) else a * Pow2(-e) == b
  }

  /** b is m * 2^e (in units of 2^-1074) rounded to nearest, ties to even. */
  ghost predicate ScaledNearest(b: nat, m: nat, e: int) {
    if e >= 0 then IsNearestEven(b, m * Pow2(e), 0) else IsNearestEven(b, m, -e)
  }

  lemma ScaledFrom(a: nat, b: nat, i: nat, j: nat)
    requires a * Pow2(i) == b * Pow2(j)
    ensures ScaledBy(a, b, j - i)
  {
    hide Pow2;
    if j >= i {
      Pow2Minus(i, j);
      Assoc(b, Pow2(j - i), Pow2(i));
      MulCancel(a, b * Pow2(j - i), Pow2(i));
    } else {
      Pow2Minus(j, i);
      Assoc(a, Pow2(i - j), Pow2(j));
      MulCancel(a * Pow2(i - j), b, Pow2(j));
    }
  }

  /** ScaledNearest only depends on the value: here m * 2^i == n * 2^j / 2^k with e == i. */
  lemma ScaledNearestSame(b: nat, m: nat, e: int, n: nat, k: nat, c: nat)
    requires c + e >= 0
    requires m * Pow2(c + e) * Pow2(k) == n * Pow2(c)
    ensures ScaledNearest(b, m, e) <==> IsNearestEven(b, n, k)
  {
    hide Pow2, IsNearestEven;
    if e >= 0 {
      Pow2Add(e, c);
      Assoc(m, Pow2(e), Pow2(c));
      Assoc(m * Pow2(e), Pow2(c), Pow2(k));
      MulCancel(m * Pow2(e) * Pow2(k), n, Pow2(c));
      Pow2One();
      NearestSame(b, m * Pow2(e), 0, n, k);
    } else {
      Pow2Add(-e, c + e);
      Assoc(n, Pow2(-e), Pow2(c + e));
      Assoc(m, Pow2(c + e), Pow2(k));
      MulCancel(m * Pow2(k), n * Pow2(-e), Pow2(c + e));
      NearestSame(b, m, -e, n, k);
    }
  }

  lemma ScaledNearestUnique(a: nat, b: nat, m: nat, e: int)
    requires ScaledNearest(a, m, e) && ScaledNearest(b, m, e)
    ensures a == b
  {
    hide Pow2, IsNearestEven;
    if e >= 0 { NearestUnique(a, b, m * Pow2(e), 0); } else { NearestUnique(a, b, m, -e); }
  }
}
