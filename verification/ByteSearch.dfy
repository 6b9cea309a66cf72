/** Rune searches of package bytes (bytes/bytes.go) on arbitrary, possibly invalid bytes. */
module ByteSearch {
  import opened Basics
  import opened Utf8
  import opened Boundaries

  type RunePredicate = int -> bool

  /** The rune at boundary i satisfies f == truth. */
  predicate Hit(s: seq<Byte>, f: RunePredicate, truth: bool, i: nat)
    requires i < |s|
  {
    f(RuneAt(s, i)) == truth
  }

  ghost predicate NoHit(s: seq<Byte>, f: RunePredicate, truth: bool, from: nat, to: nat) {
    forall j: nat :: from <= j < to && j < |s| && Boundary(s, j) ==> !Hit(s, f, truth, j)
  }

  /** i is the first boundary with a hit; -1 when there is none. */
  ghost predicate IsFirst(s: seq<Byte>, f: RunePredicate, truth: bool, i: int) {
    if i < 0 then i == -1 && NoHit(s, f, truth, 0, |s|)
    else i < |s| && Boundary(s, i) && Hit(s, f, truth, i) && NoHit(s, f, truth, 0, i)
  }

  /** i is the last boundary of the forward scan with a hit; -1 when there is none. */
  ghost predicate IsLast(s: seq<Byte>, f: RunePredicate, truth: bool, i: int) {
    if i < 0 then i == -1 && NoHit(s, f, truth, 0, |s|)
    else i < |s| && Boundary(s, i) && Hit(s, f, truth, i) && NoHit(s, f, truth, i + SizeAt(s, i), |s|)
  }

  method IndexFunc(s: seq<Byte>, f: RunePredicate, truth: bool) returns (i: int)
    ensures IsFirst(s, f, truth, i)
  {
    hide Size, Rune, Walk;
    WalkStart(s);
    var start := 0;
    while start < |s|
      invariant start <= |s| && Boundary(s, start) && NoHit(s, f, truth, 0, start)
    {
      var r, wid := Rune(s[start..]), Size(s[start..]);
      if f(r) == truth {
        return start;
      }
      NextBoundary(s, start);
      NoHitStep(s, f, truth, start);
      assert start + wid <= |s|;
      start := start + wid;
    }
    return -1;
  }

  lemma WalkStart(s: seq<Byte>)
    ensures Boundary(s, 0)
  {
  }

  lemma NoHitStep(s: seq<Byte>, f: RunePredicate, truth: bool, i: nat)
    requires i < |s| && Boundary(s, i) && !Hit(s, f, truth, i) && NoHit(s, f, truth, 0, i)
    ensures NoHit(s, f, truth, 0, i + SizeAt(s, i))
  {
    hide Size, Rune, Walk;
    forall j: nat | i < j < i + SizeAt(s, i)
      ensures !Boundary(s, j)
    {
      NoBoundaryInside(s, i, j);
    }
  }

  lemma NoHitBack(s: seq<Byte>, f: RunePredicate, truth: bool, i: nat)
    requires i < |s| && Boundary(s, i) && !Hit(s, f, truth, i) && NoHit(s, f, truth, i + SizeAt(s, i), |s|)
    ensures NoHit(s, f, truth, i, |s|)
  {
    hide Size, Rune, Walk;
    forall j: nat | i < j < i + SizeAt(s, i)
      ensures !Boundary(s, j)
    {
      NoBoundaryInside(s, i, j);
    }
  }

  /** Decodes backwards from the end, and still finds the last hit of the forward scan. */
  method LastIndexFunc(s: seq<Byte>, f: RunePredicate, truth: bool) returns (res: int)
    ensures IsLast(s, f, truth, res)
  {
    hide Size, Rune, Walk;
    EndIsBoundary(s, 0);
    var i: nat := |s|;
    while i > 0
      invariant i <= |s| && Boundary(s, i) && NoHit(s, f, truth, i, |s|)
    {
      var r: int, size := s[i - 1], 1;
      if r >= RUNE_SELF {
        r, size := DecodeLastRune(s[..i]);
      } else {
        LastAscii(s[..i]);
      }
      BackwardsIsForwards(s, i, r, size);
      i := i - size;
      if f(r) == truth {
        return i;
      }
      NoHitBack(s, f, truth, i);
    }
    return -1;
  }

  lemma {:induction false} EndIsBoundary(s: seq<Byte>, from: nat)
    requires from <= |s|
    ensures Walk(s, from, |s|)
    decreases |s| - from
  {
    if from < |s| { EndIsBoundary(s, from + SizeAt(s, from)); }
  }

  lemma LastAscii(p: seq<Byte>)
    requires p != [] && p[|p| - 1] < RUNE_SELF
    ensures RuneAt(p, |p| - 1) == p[|p| - 1] && SizeAt(p, |p| - 1) == 1
    ensures forall st: nat :: st < |p| - 1 ==> st + SizeAt(p, st) != |p|
  {
    SingleByte(p[|p| - 1..]);
    AsciiEnds(p);
  }

  /** Cuts off the longest run of trailing runes that satisfy f, on a rune boundary. */
  method TrimRightFunc(s: seq<Byte>, f: RunePredicate) returns (t: seq<Byte>)
    ensures |t| <= |s| && t == s[..|t|] && Boundary(s, |t|) && NoHit(s, f, false, |t|, |s|)
    ensures t != [] ==> exists j: nat :: j < |t| && Boundary(s, j) && j + SizeAt(s, j) == |t| && !f(RuneAt(s, j))
  {
    hide Size, Rune, Walk;
    WalkStart(s);
    var i := LastIndexFunc(s, f, false);
    if i >= 0 {
      NextBoundary(s, i);
      if s[i] < RUNE_SELF { AsciiSize(s[i..]); }
    }
    if i >= 0 && s[i] >= RUNE_SELF {
      var wid := Size(s[i..]);
      assert wid == SizeAt(s, i);
      i := i + wid;
    } else {
      i := i + 1;
    }
    t := s[..i];
  }

  lemma AsciiSize(p: seq<Byte>)
    requires p != [] && p[0] < RUNE_SELF
    ensures Size(p) == 1
  {
  }

  /** Cuts off the longest run of leading runes that satisfy f. */
  method TrimLeftFunc(s: seq<Byte>, f: RunePredicate) returns (t: seq<Byte>)
    ensures |t| <= |s| && t == s[|s| - |t|..] && NoHit(s, f, false, 0, |s| - |t|)
    ensures t != [] ==> Boundary(s, |s| - |t|) && !f(RuneAt(s, |s| - |t|))
  {
    var i := IndexFunc(s, f, false);
    if i == -1 {
      return [];
    }
    return s[i..];
  }

  // ---- IndexRune ----

  /** bytealg.IndexByte: the first occurrence of c. */
  method IndexByte(s: seq<Byte>, c: Byte) returns (i: int)
    ensures -1 <= i < |s|
    ensures i >= 0 ==> s[i] == c && c !in s[..i]
    ensures i < 0 ==> c !in s
  {
    i := 0;
    while i < |s|
      invariant 0 <= i <= |s| && c !in s[..i]
    {
      if s[i] == c {
        return;
      }
      i := i + 1;
    }
    return -1;
  }

  /** b occurs in s at k. */
  predicate At(s: seq<Byte>, b: seq<Byte>, k: nat) {
    k + |b| <= |s| && s[k..k + |b|] == b
  }

  /** bytealg.Index: the first occurrence of b. */
  method Index(s: seq<Byte>, b: seq<Byte>) returns (i: int)
    ensures i == -1 || 0 <= i <= |s|
    ensures i >= 0 ==> At(s, b, i) && forall k: nat :: k < i ==> !At(s, b, k)
    ensures i < 0 ==> forall k: nat :: !At(s, b, k)
  {
    i := 0;
    while i + |b| <= |s|
      invariant 0 <= i <= |s| + 1 && forall k: nat :: k < i ==> !At(s, b, k)
    {
      if s[i..i + |b|] == b {
        return;
      }
      i := i + 1;
    }
    return -1;
  }

  /** A rune other than U+FFFD is found at boundary k exactly when its encoding occurs at k. */
  lemma OccursAsRune(s: seq<Byte>, r: int, k: nat)
    requires ValidRune(r)
    ensures At(s, Encode(r), k) ==> k < |s| && Boundary(s, k) && RuneAt(s, k) == r
    ensures r != RUNE_ERROR && k < |s| && RuneAt(s, k) == r ==> At(s, Encode(r), k)
  {
    hide Size, Walk, Rune, Encode;
    if At(s, Encode(r), k) {
      assert s[k..] == Encode(r) + s[k + |Encode(r)|..];
      DecodeEncode(r, s[k + |Encode(r)|..]);
      FirstByte(s[k..]);
      StartIsBoundary(s, k);
    }
    if r != RUNE_ERROR && k < |s| && RuneAt(s, k) == r {
      NotError(s[k..]);
      EncodeDecode(s[k..]);
      assert s[k..][..Size(s[k..])] == s[k..k + Size(s[k..])];
    }
  }

  lemma FirstByte(p: seq<Byte>)
    requires WellFormed(p)
    ensures RuneStart(p[0])
  {
  }

  lemma NotError(p: seq<Byte>)
    requires Rune(p) != RUNE_ERROR
    ensures WellFormed(p)
  {
  }

  /** The first boundary whose rune is r; -1 when there is none. */
  ghost predicate IsFirstRune(s: seq<Byte>, r: int, i: int) {
    IsFirst(s, x => x == r, true, i)
  }

  lemma FirstOccurrence(s: seq<Byte>, r: int, i: int)
    requires ValidRune(r) && r != RUNE_ERROR
    requires if i < 0 then i == -1 && forall k: nat :: !At(s, Encode(r), k)
             else At(s, Encode(r), i) && forall k: nat :: k < i ==> !At(s, Encode(r), k)
    ensures IsFirstRune(s, r, i)
  {
    hide Size, Walk, Rune, Encode;
    forall k: nat | k < |s|
      ensures At(s, Encode(r), k) ==> Boundary(s, k)
      ensures At(s, Encode(r), k) <==> RuneAt(s, k) == r && Boundary(s, k)
    {
      OccursAsRune(s, r, k);
    }
    if i >= 0 { OccursAsRune(s, r, i); }
  }

  /** The search by the last byte of the encoding, with its two fallbacks, finds what the decoding loop
      would find, for every rune and on every input. */
  method IndexRune(s: seq<Byte>, r: int, haveFastIndex: bool, cutover: nat -> nat) returns (res: int)
    ensures IsFirstRune(s, r, res)
  {
    hide Size, Walk, Rune, Encode, IsFirstRune;
    if 0 <= r < RUNE_SELF {
      res := IndexByte(s, r);
      AsciiRune(s, r, res);
    } else if r == RUNE_ERROR {
      res := IndexFunc(s, x => x == RUNE_ERROR, true);
      ErrorRune(s, res);
    } else if !ValidRune(r) {
      InvalidRune(s, r);
      res := -1;
    } else {
      EncodedLength(r);
      res := IndexEncoded(s, Encode(r), haveFastIndex, cutover);
      FirstOccurrence(s, r, res);
    }
  }

  lemma EncodedLength(r: int)
    requires ValidRune(r) && r >= RUNE_SELF
    ensures |Encode(r)| >= 2
  {
  }

  lemma ErrorRune(s: seq<Byte>, i: int)
    requires IsFirst(s, x => x == RUNE_ERROR, true, i)
    ensures IsFirstRune(s, RUNE_ERROR, i)
  {
    hide Size, Walk, Rune, Boundary;
    var f := x => x == RUNE_ERROR;
    forall j: nat | j < |s|
      ensures Hit(s, f, true, j) <==> RuneAt(s, j) == RUNE_ERROR
    {
    }
  }

  lemma InvalidRune(s: seq<Byte>, r: int)
    requires !ValidRune(r)
    ensures IsFirstRune(s, r, -1)
  {
    hide Size, Walk, Rune;
    forall j: nat | j < |s|
      ensures RuneAt(s, j) != r
    {
      assert ValidRune(RuneAt(s, j));
    }
  }

  lemma AsciiRune(s: seq<Byte>, r: Byte, i: int)
    requires r < RUNE_SELF
    requires if i < 0 then i == -1 && r !in s else i < |s| && s[i] == r && r !in s[..i]
    ensures IsFirstRune(s, r, i)
  {
    hide Size, Walk, Rune, Encode;
    assert Encode(r) == [r] by { AsciiEncode(r); }
    forall k: nat
      ensures At(s, [r], k) <==> k < |s| && s[k] == r
    {
    }
    FirstOccurrence(s, r, i);
  }

  lemma AsciiEncode(r: Byte)
    requires r < RUNE_SELF
    ensures Encode(r) == [r]
  {
  }

  /** The default case of IndexRune: first occurrence of b, looking for its last byte. */
  method IndexEncoded(s: seq<Byte>, b: seq<Byte>, haveFastIndex: bool, cutover: nat -> nat) returns (res: int)
    requires |b| >= 2
    ensures if res < 0 then res == -1 && forall k: nat :: !At(s, b, k)
            else At(s, b, res) && forall k: nat :: k < res ==> !At(s, b, k)
  {
    hide At, Matches;
    AtInRange(s, b);
    var n := |b|;
    var last := n - 1;
    var i := last;
    var fails := 0;
    var fallback := false;
    while i < |s|
      invariant last <= i
      invariant forall k: nat :: k < i - last ==> !At(s, b, k)
      decreases |s| - i
    {
      if s[i] != b[last] {
        var o := IndexByte(s[i + 1..], b[last]);
        SkipTo(s, b, i, o);
        if o < 0 {
          return -1;
        }
        i := i + o + 1;
      }
      var j := 1;
      MatchesMore(s, b, i, 0);
      while j < n && s[i - j] == b[last - j]
        invariant 1 <= j <= n
        invariant Matches(s, b, i, j)
      {
        MatchesMore(s, b, i, j);
        j := j + 1;
      }
      AtEnd(s, b, i, j);
      if j == n {
        return i - last;
      }
      fails := fails + 1;
      i := i + 1;
      if (haveFastIndex && fails > cutover(i) && i < |s|) || (!haveFastIndex && fails >= 4 + i / 16 && i < |s|) {
        fallback := true;
        break;
      }
    }
    if !fallback {
      return -1;
    }
    if haveFastIndex {
      var j := Index(s[i - last..], b);
      ShiftedAt(s, b, i - last);
      if j >= 0 {
        return i + j - last;
      }
      return -1;
    }
    res := IndexBrute(s, b, i);
  }

  /** The brute-force fallback, from i on: last byte, then the one before, then the rest. */
  method IndexBrute(s: seq<Byte>, b: seq<Byte>, from: nat) returns (res: int)
    requires |b| >= 2 && |b| - 1 <= from
    requires forall k: nat :: k < from - (|b| - 1) ==> !At(s, b, k)
    ensures if res < 0 then res == -1 && forall k: nat :: !At(s, b, k)
            else At(s, b, res) && forall k: nat :: k < res ==> !At(s, b, k)
  {
    hide At, Matches;
    AtInRange(s, b);
    var n, last, i := |b|, |b| - 1, from;
    var c0, c1 := b[last], b[last - 1];
    while i < |s|
      invariant last <= i
      invariant forall k: nat :: k < i - last ==> !At(s, b, k)
      decreases |s| - i
    {
      var k := 0;
      if s[i] == c0 && s[i - 1] == c1 {
        k := 2;
        MatchesMore(s, b, i, 0);
        MatchesMore(s, b, i, 1);
        while k < n && s[i - k] == b[last - k]
          invariant 2 <= k <= n
          invariant Matches(s, b, i, k)
        {
          MatchesMore(s, b, i, k);
          k := k + 1;
        }
        AtEnd(s, b, i, k);
        if k == n {
          return i - last;
        }
      } else {
        MatchesMore(s, b, i, 0);
        AtEnd(s, b, i, if s[i] == c0 then 1 else 0);
      }
      i := i + 1;
    }
    return -1;
  }

  /** The last j bytes of b stand before position i + 1. */
  predicate Matches(s: seq<Byte>, b: seq<Byte>, i: nat, j: nat) {
    j <= |b| && j <= i + 1 <= |s| && s[i + 1 - j..i + 1] == b[|b| - j..]
  }

  lemma MatchesMore(s: seq<Byte>, b: seq<Byte>, i: nat, j: nat)
    requires j < |b| && |b| - 1 <= i < |s|
    ensures Matches(s, b, i, 0)
    ensures Matches(s, b, i, j) && s[i - j] == b[|b| - 1 - j] ==> Matches(s, b, i, j + 1)
  {
    assert s[i - j..i + 1] == [s[i - j]] + s[i + 1 - j..i + 1];
    assert b[|b| - 1 - j..] == [b[|b| - 1 - j]] + b[|b| - j..];
  }

  /** Comparing backwards from i decides whether b ends at i. */
  lemma AtEnd(s: seq<Byte>, b: seq<Byte>, i: nat, j: nat)
    requires |b| - 1 <= i < |s| && Matches(s, b, i, j)
    requires j < |b| ==> s[i - j] != b[|b| - 1 - j]
    ensures At(s, b, i - (|b| - 1)) <==> j == |b|
  {
    var t := s[i - (|b| - 1)..i + 1];
    if j < |b| { assert t[|b| - 1 - j] == s[i - j]; }
  }

  lemma AtInRange(s: seq<Byte>, b: seq<Byte>)
    ensures forall k: nat :: At(s, b, k) ==> k + |b| <= |s|
  {
  }

  lemma AtLast(s: seq<Byte>, b: seq<Byte>, k: nat)
    requires b != [] && At(s, b, k)
    ensures s[k + |b| - 1] == b[|b| - 1]
  {
    assert s[k..k + |b|][|b| - 1] == s[k + |b| - 1];
  }

  /** Positions skipped by IndexByte do not hold the last byte, so b does not end there. */
  lemma SkipTo(s: seq<Byte>, b: seq<Byte>, i: nat, o: int)
    requires b != [] && |b| - 1 <= i < |s| && s[i] != b[|b| - 1]
    requires -1 <= o < |s| - i - 1
    requires forall k: nat :: k < i - (|b| - 1) ==> !At(s, b, k)
    requires o >= 0 ==> b[|b| - 1] !in s[i + 1..][..o]
    requires o < 0 ==> b[|b| - 1] !in s[i + 1..]
    ensures o >= 0 ==> forall k: nat :: k < i + o + 1 - (|b| - 1) ==> !At(s, b, k)
    ensures o < 0 ==> forall k: nat :: !At(s, b, k)
  {
    forall k: nat | i - (|b| - 1) <= k && (o >= 0 ==> k < i + o + 1 - (|b| - 1))
      ensures !At(s, b, k)
    {
      var e := k + |b| - 1;
      if i < e < |s| {
        assert s[e] == s[i + 1..][e - i - 1];
        assert o >= 0 ==> s[e] == s[i + 1..][..o][e - i - 1];
      }
      if At(s, b, k) { AtLast(s, b, k); }
    }
  }

  lemma ShiftedAt(s: seq<Byte>, b: seq<Byte>, d: nat)
    requires d <= |s|
    ensures forall k: nat :: At(s[d..], b, k) <==> At(s, b, d + k)
    ensures forall k: nat :: d <= k ==> (At(s, b, k) <==> At(s[d..], b, k - d))
  {
    forall k: nat
      ensures At(s[d..], b, k) <==> At(s, b, d + k)
    {
      if d + k + |b| <= |s| { assert s[d..][k..k + |b|] == s[d + k..d + k + |b|]; }
    }
  }
}
