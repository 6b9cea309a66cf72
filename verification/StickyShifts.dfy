/** Right shifts that remember whether they lost anything, and why rounding afterwards is still
    correct: the last bit of the result stands for "somewhere strictly inside". */
module StickyShifts {
  import opened Pow2s
  import opened Words
  import opened Float64

  /** m * u is t exactly, or m is odd and t lies strictly between the even neighbours of m. */
  ghost predicate Sticky(m: nat, t: nat, u: nat) {
    m * u == t || (m % 2 == 1 && (m - 1) * u < t < (m + 1) * u)
  }

  /** u shifted right by n, with the 0th bit or-ed with the bits that fell off. */
  function StickyShift(u: nat, n: nat): nat {
    DivLe(u, Pow2(n));
    Or(u / Pow2(n), if u % Pow2(n) != 0 then 1 else 0)
  }

  lemma StickyShiftIsSticky(u: nat, n: nat)
    ensures Sticky(StickyShift(u, n), u, Pow2(n))
    ensures u % Pow2(n) == 0 ==> StickyShift(u, n) * Pow2(n) == u
    ensures u / Pow2(n) <= StickyShift(u, n) <= u / Pow2(n) + 1 - u / Pow2(n) % 2
  {
    hide Pow2, Or, Sticky;
    DivLe(u, Pow2(n));
    OrBit(u / Pow2(n));
    StickyBit(u, Pow2(n));
  }

  lemma StickyBit(u: nat, p: nat)
    requires p > 0
    ensures 0 <= u / p
    ensures var q := u / p; var s := if u % p != 0 then q + 1 - q % 2 else q;
            Sticky(s, u, p) && (u % p == 0 ==> s * p == u)
  {
    DivMod(u, p);
    DivLe(u, p);
    Distrib(u / p, 1, p);
    Distrib(u / p, 2, p);
    Distrib(u / p, -1, p);
  }

  lemma StickyScale(m: nat, t: nat, u: nat, c: nat)
    requires c > 0
    ensures Sticky(m, t, u) <==> Sticky(m, t * c, u * c)
  {
    Assoc(m, u, c);
    Assoc(m - 1, u, c);
    Assoc(m + 1, u, c);
    MulCancel(m * u, t, c);
    MulCancel((m - 1) * u, t, c);
    MulCancel(t, (m + 1) * u, c);
  }

  /** Shifting twice, the second time by an even unit, is shifting once. */
  lemma StickyCompose(m: nat, r: nat, t: nat, v: nat, u: nat)
    requires Sticky(m, r, v) && Sticky(r, t, u) && v % 2 == 0 && u > 0
    ensures Sticky(m, t, v * u)
  {
    Assoc(m, v, u);
    Assoc(m - 1, v, u);
    Assoc(m + 1, v, u);
    if m * v == r {
      EvenProduct(m, v);
    } else {
      MulMono((m - 1) * v, r - 1, u);
      MulMono(r + 1, (m + 1) * v, u);
      MulMonoStrict(r - 1, r, u);
      MulMonoStrict(r, r + 1, u);
    }
  }

  lemma EvenProduct(m: nat, v: nat)
    requires v % 2 == 0
    ensures (m * v) % 2 == 0
  {
    var h := v / 2;
    Assoc(m, 2, h);
    assert m * v == 2 * (m * h);
  }

  lemma StickyAdd(p: nat, z: nat, t: nat, u: nat)
    requires Sticky(z, t, u) && p % 2 == 0
    ensures Sticky(p + z, p * u + t, u)
  {
    Distrib(p, z, u);
    Distrib(p, z - 1, u);
    Distrib(p, z + 1, u);
  }

  lemma StickySub(p: nat, z: nat, t: nat, u: nat)
    requires Sticky(z, t, u) && p % 2 == 0 && z < p && t <= p * u
    ensures Sticky(p - z, p * u - t, u)
  {
    DistribSub(p, z, u);
    DistribSub(p, z + 1, u);
    DistribSub(p, z - 1, u);
  }

  /** Two or more bits of slack make rounding the shifted value the same as rounding the original. */
  lemma StickyRound(q: nat, m: nat, t: nat, h: nat, u: nat)
    requires Sticky(m, t, u) && u > 0 && h % 2 == 0
    requires TiesToEven(q, m, 2 * h)
    ensures TiesToEven(q, t, 2 * h * u)
  {
    hide Sticky;
    var c := q * (2 * h);
    EvenProduct(q, 2 * h);
    Assoc(q, 2 * h, u);
    Assoc(2, h, u);
    StickyWithin(c, m, t, h, u);
  }

  /** Bounds with even ends carry over from the sticky value to the original. */
  lemma StickyWithin(c: nat, m: nat, t: nat, h: nat, u: nat)
    requires Sticky(m, t, u) && u > 0 && h % 2 == 0 && c % 2 == 0
    requires Dist(m, c) <= h
    ensures Dist(t, c * u) <= h * u
    ensures Dist(t, c * u) == h * u ==> Dist(m, c) == h
  {
    DistribSub(c, h, u);
    Distrib(c, h, u);
    if m * u == t {
      MulCancel(c - h, m, u);
      MulCancel(m, c + h, u);
    } else {
      MulMono(c - h, m - 1, u);
      MulMono(m + 1, c + h, u);
    }
  }
}
