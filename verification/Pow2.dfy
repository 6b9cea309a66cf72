/** Powers of two and the few division facts the bit-level arithmetic rests on. */
module Pow2s {

  function Pow2(n: nat): (p: nat)
    ensures p >= 1
  {
    if n == 0 then 1 else 2 * Pow2(n - 1)
  }

  lemma {:induction false} Pow2Add(a: nat, b: nat)
    ensures Pow2(a + b) == Pow2(a) * Pow2(b)
  {
    if a == 0 {
    } else {
      Pow2Add(a - 1, b);
      assert Pow2(a + b) == 2 * Pow2(a - 1 + b);
      assert 2 * (Pow2(a - 1) * Pow2(b)) == 2 * Pow2(a - 1) * Pow2(b);
    }
  }

  lemma Pow2Minus(a: nat, b: nat)
    requires a <= b
    ensures Pow2(b) == Pow2(b - a) * Pow2(a)
    ensures Pow2(a) <= Pow2(b)
    ensures Pow2(b) % Pow2(a) == 0
  {
    Pow2Add(b - a, a);
    MulMono(1, Pow2(b - a), Pow2(a));
    DivUnique(Pow2(b), Pow2(a), Pow2(b - a), 0);
  }

  lemma Pow2Less(a: nat, b: nat)
    requires a < b
    ensures 2 * Pow2(a) <= Pow2(b)
  {
    Pow2Minus(a + 1, b);
  }

  lemma Pow2Values()
    ensures Pow2(9) == 512 && Pow2(10) == 1024 && Pow2(11) == 2048
    ensures Pow2(51) == 0x8_0000_0000_0000 && Pow2(52) == 0x10_0000_0000_0000 && Pow2(53) == 0x20_0000_0000_0000
    ensures Pow2(62) == 0x4000_0000_0000_0000 && Pow2(63) == 0x8000_0000_0000_0000
    ensures Pow2(64) == 0x1_0000_0000_0000_0000
  {
    Pow2Small();
    hide Pow2;
    Pow2Add(10, 10);
    Pow2Add(20, 20);
    Pow2Add(40, 11);
    Pow2Add(51, 1);
    Pow2Add(52, 1);
    Pow2Add(51, 11);
    Pow2Add(62, 1);
    Pow2Add(63, 1);
  }

  lemma Pow2Small()
    ensures Pow2(1) == 2 && Pow2(9) == 512 && Pow2(10) == 1024 && Pow2(11) == 2048
  {
  }

  lemma MulMono(a: int, b: int, c: int)
    requires a <= b && c >= 0
    ensures a * c <= b * c
  {
    assert (b - a) * c >= 0;
  }

  lemma MulMonoStrict(a: int, b: int, c: int)
    requires a < b && c > 0
    ensures a * c < b * c && a * c + c <= b * c
  {
    MulMono(a + 1, b, c);
    assert (a + 1) * c == a * c + c;
  }

  /** Cancels a positive factor in a comparison. */
  lemma MulCancel(a: int, b: int, c: int)
    requires c > 0
    ensures a * c < b * c <==> a < b
    ensures a * c == b * c <==> a == b
    ensures a * c <= b * c <==> a <= b
  {
    if a < b { MulMonoStrict(a, b, c); }
    if b < a { MulMonoStrict(b, a, c); }
  }

  /** Quotient and remainder are unique. */
  lemma DivUnique(n: int, d: int, q: int, r: int)
    requires n == q * d + r && 0 <= r < d
    ensures n / d == q && n % d == r
  {
    var q', r' := n / d, n % d;
    assert n == q' * d + r' && 0 <= r' < d;
    if q' < q { MulMonoStrict(q', q, d); }
    if q < q' { MulMonoStrict(q, q', d); }
  }

  lemma DivMod(n: int, d: int)
    requires d > 0
    ensures n == (n / d) * d + n % d && 0 <= n % d < d
  {
  }

  /** Division by a product is iterated division. */
  lemma DivDiv(n: nat, a: nat, b: nat)
    requires a > 0 && b > 0
    ensures a * b > 0 && n / (a * b) == n / a / b
    ensures n % (a * b) == (n / a % b) * a + n % a
  {
    assert a * b > 0 by { MulMono(1, b, a); }
    var q, r := n / a, n % a;
    var q', r' := q / b, q % b;
    MulMono(r' + 1, b, a);
    assert n == q' * (a * b) + (r' * a + r) by {
      assert n == q * a + r && q == q' * b + r';
      assert (q' * b + r') * a == q' * (a * b) + r' * a;
    }
    assert r' * a + r < a * b by { assert (r' + 1) * a == r' * a + a; }
    DivUnique(n, a * b, q', r' * a + r);
  }

  lemma Distrib(a: int, b: int, c: int)
    ensures (a + b) * c == a * c + b * c
  {
  }

  lemma DistribSub(a: int, b: int, c: int)
    ensures (a - b) * c == a * c - b * c
  {
  }

  lemma Assoc(a: int, b: int, c: int)
    ensures a * b * c == a * (b * c) && a * (b * c) == (a * c) * b
  {
  }

  lemma ModMul(a: nat, t: nat, p: nat)
    requires t > 0 && p > 0
    ensures p * t > 0 && (a * t) % (p * t) == (a % p) * t
  {
    var q, r := a / p, a % p;
    MulMono(1, p, t);
    MulMonoStrict(r, p, t);
    calc {
      a * t;
      { DivMod(a, p); }
      (q * p + r) * t;
      { Distrib(q * p, r, t); }
      q * p * t + r * t;
      { Assoc(q, p, t); }
      q * (p * t) + r * t;
    }
    DivUnique(a * t, p * t, q, r * t);
  }

  /** Long division of u1 * (p * t) + u2 by t, word by word. */
  lemma WideDiv(u1: nat, u2: nat, t: nat, p: nat, w: nat)
    requires t > 0 && p * t == w
    ensures (u1 * w + u2) / t == (u1 / t) * w + ((u1 % t) * p + u2 / t)
  {
    var a, b, c, d := u1 / t, u1 % t, u2 / t, u2 % t;
    var q := a * w + (b * p + c);
    calc {
      u1 * w;
      { DivMod(u1, t); }
      (a * t + b) * w;
      { Distrib(a * t, b, w); }
      a * t * w + b * w;
      { Assoc(a, t, w); Assoc(b, p, t); }
      a * w * t + b * p * t;
    }
    Distrib(a * w, b * p + c, t);
    Distrib(b * p, c, t);
    DivMod(u2, t);
    DivUnique(u1 * w + u2, t, q, d);
  }

  /** Splitting u2 * t at w = p * t: the carry into the upper word is u2 / p. */
  lemma WideMul(u1: nat, u2: nat, t: nat, p: nat, w: nat)
    requires p > 0 && p * t == w
    ensures (u1 * w + u2) * t == (u1 * t + u2 / p) * w + (u2 % p) * t
  {
    var c, d := u2 / p, u2 % p;
    calc {
      u2 * t;
      { DivMod(u2, p); }
      (c * p + d) * t;
      { Distrib(c * p, d, t); Assoc(c, p, t); }
      c * w + d * t;
    }
    Distrib(u1 * w, u2, t);
    Assoc(u1, w, t);
    Distrib(u1 * t, c, w);
  }

  lemma DivBelow(u: nat, p: nat, t: nat)
    requires p > 0 && u < p * t
    ensures 0 <= u / p < t
  {
    DivMod(u, p);
    if u / p >= t { MulMono(t, u / p, p); }
    if u / p < 0 { MulMono(u / p, -1, p); }
  }

  /** Halving repeatedly: dividing by 2^(n+1) is halving, then dividing by 2^n. */
  lemma DivPow2Step(x: nat, n: nat)
    ensures x / Pow2(n + 1) == x / 2 / Pow2(n)
    ensures x % Pow2(n + 1) == 2 * (x / 2 % Pow2(n)) + x % 2
  {
    DivDiv(x, 2, Pow2(n));
  }
}
