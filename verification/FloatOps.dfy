/** The hardware floating-point operations the code uses, on bit patterns of finite numbers: each
    gives the exact result correctly rounded (IEEE 754-2019 section 5.4.1, roundTiesToEven). */
module FloatOps {
  import opened Pow2s
  import opened Words
  import opened Float64

  /** Rounds an exact value of n / 2^k units, with the sign given. */
  function Rounded(neg: bool, n: nat, k: nat): Word {
    RoundedRange(n, k);
    WithSign(neg, RoundNE(n, k))
  }

  lemma RoundedRange(n: nat, k: nat)
    ensures RoundNE(n, k) <= INF
  {
    hide RoundNE, IsNearestEven;
    RoundNECorrect(n, k);
  }

  function FMul(a: Word, b: Word): Word
    requires Finite(a) && Finite(b)
  {
    Rounded(Negative(a) != Negative(b), Mag(Abs(a)) * Mag(Abs(b)), 1074)
  }

  /** a - b; an exact zero is +0 unless it is (-0) - (+0). */
  function FSub(a: Word, b: Word): Word
    requires Finite(a) && Finite(b)
  {
    var d := Value(a) - Value(b);
    if d == 0 then WithSign(Negative(a) && !Negative(b), 0) else Rounded(d < 0, Dist(d, 0), 0)
  }

  function FAdd(a: Word, b: Word): Word
    requires Finite(a) && Finite(b)
  {
    FSub(a, Neg(b))
  }

  predicate FLess(a: Word, b: Word) {
    !IsNaN(a) && !IsNaN(b) && Value(a) < Value(b)
  }

  predicate FLessEq(a: Word, b: Word) {
    !IsNaN(a) && !IsNaN(b) && Value(a) <= Value(b)
  }

  predicate FEqual(a: Word, b: Word) {
    !IsNaN(a) && !IsNaN(b) && Value(a) == Value(b)
  }

  /** Rounding an exact double gives that double. */
  lemma RoundExact(b: nat, n: nat, k: nat)
    requires b <= INF && n == Mag(b) * Pow2(k)
    ensures RoundNE(n, k) == b
  {
    hide RoundNE, IsNearestEven, Mag, Pow2;
    NearestExact(b, n, k);
    RoundNECorrect(n, k);
  }

  /** Comparing patterns of like sign is comparing values. */
  lemma MagOrder(a: nat, b: nat)
    ensures Mag(a) < Mag(b) <==> a < b
    ensures Mag(a) == Mag(b) <==> a == b
  {
    hide Mag;
    if a < b { MagMono(a, b); }
    if b < a { MagMono(b, a); }
  }
}
