/** Where runes begin in an arbitrary, possibly invalid byte string, read forwards and backwards. */
module Boundaries {
  import opened Basics
  import opened Utf8

  /** Decoding forwards from `from` visits position i. */
  predicate Walk(s: seq<Byte>, from: nat, i: nat)
    decreases |s| - from
  {
    from == i || (from < i && from < |s| && Walk(s, from + Size(s[from..]), i))
  }

  /** i is a rune boundary of s (or its end). */
  predicate Boundary(s: seq<Byte>, i: nat) {
    i <= |s| && Walk(s, 0, i)
  }

  /** The rune that decoding forwards finds at i. */
  function RuneAt(s: seq<Byte>, i: nat): int
    requires i < |s|
  {
    Rune(s[i..])
  }

  function SizeAt(s: seq<Byte>, i: nat): (n: nat)
    requires i < |s|
    ensures 1 <= n && i + n <= |s|
  {
    Size(s[i..])
  }

  /** Inside a multi-byte sequence there are only continuation bytes. */
  lemma InsideRune(s: seq<Byte>, i: nat, j: nat)
    requires i < j < |s| && j < i + SizeAt(s, i)
    ensures Continuation(s[j]) && RuneStart(s[i]) && WellFormed(s[i..])
  {
    assert s[j] == s[i..][j - i];
  }

  lemma {:induction false} WalkReachesStart(s: seq<Byte>, from: nat, i: nat)
    requires from <= i < |s| && RuneStart(s[i])
    ensures Walk(s, from, i)
    decreases i - from
  {
    hide Size;
    if from < i {
      if i < from + SizeAt(s, from) { InsideRune(s, from, i); }
      WalkReachesStart(s, from + SizeAt(s, from), i);
    }
  }

  /** Every byte that is not a continuation byte is a boundary: no sequence swallows it. */
  lemma StartIsBoundary(s: seq<Byte>, i: nat)
    requires i < |s| && RuneStart(s[i])
    ensures Boundary(s, i)
  {
    WalkReachesStart(s, 0, i);
  }

  lemma {:induction false} WalkStep(s: seq<Byte>, from: nat, i: nat)
    requires Walk(s, from, i) && i < |s|
    ensures Walk(s, from, i + SizeAt(s, i))
    decreases |s| - from
  {
    hide Size;
    if from < i { WalkStep(s, from + SizeAt(s, from), i); }
  }

  lemma NextBoundary(s: seq<Byte>, i: nat)
    requires Boundary(s, i) && i < |s|
    ensures Boundary(s, i + SizeAt(s, i))
  {
    WalkStep(s, 0, i);
  }

  lemma {:induction false} WalkSkips(s: seq<Byte>, from: nat, i: nat, j: nat)
    requires Walk(s, from, i) && i < |s| && i < j < i + SizeAt(s, i)
    ensures !Walk(s, from, j)
    decreases |s| - from
  {
    hide Size;
    if from < i { WalkSkips(s, from + SizeAt(s, from), i, j); }
  }

  /** Between a boundary and the next there is none. */
  lemma NoBoundaryInside(s: seq<Byte>, i: nat, j: nat)
    requires Boundary(s, i) && i < |s| && i < j < i + SizeAt(s, i)
    ensures !Boundary(s, j)
  {
    WalkSkips(s, 0, i, j);
  }

  lemma {:induction false} WalkBack(s: seq<Byte>, from: nat, end: nat) returns (j: nat)
    requires Walk(s, from, end) && from < end <= |s|
    ensures from <= j < end && Walk(s, from, j) && j + SizeAt(s, j) == end
    decreases |s| - from
  {
    hide Size;
    var k := from + SizeAt(s, from);
    if k == end { j := from; } else { j := WalkBack(s, k, end); }
  }

  /** The boundary before a boundary. */
  lemma Previous(s: seq<Byte>, end: nat) returns (j: nat)
    requires Boundary(s, end) && end > 0
    ensures j < end && Boundary(s, j) && j + SizeAt(s, j) == end
  {
    j := WalkBack(s, 0, end);
  }

  // ---- decoding backwards ----

  /** utf8.DecodeLastRune: looks back at most four bytes for a first byte whose sequence ends at the end. */
  method DecodeLastRune(p: seq<Byte>) returns (r: int, size: nat)
    ensures p == [] ==> r == RUNE_ERROR && size == 0
    ensures p != [] ==> 1 <= size <= |p| && r == RuneAt(p, |p| - size) && size == SizeAt(p, |p| - size)
    ensures p != [] && size == 1 ==> forall st: nat :: st < |p| - 1 ==> st + SizeAt(p, st) != |p|
  {
    var end := |p|;
    if end == 0 {
      return RUNE_ERROR, 0;
    }
    var start: int := end - 1;
    r := p[start];
    SingleByte(p[start..]);
    if r < RUNE_SELF {
      AsciiEnds(p);
      return r, 1;
    }
    var lim := if end - 4 > 0 then end - 4 else 0;
    start := start - 1;
    while start >= lim
      invariant lim - 1 <= start < end - 1
      invariant forall k :: start < k < end - 1 ==> Continuation(p[k])
    {
      if RuneStart(p[start]) {
        break;
      }
      start := start - 1;
    }
    if start < 0 {
      start := 0;
    }
    r, size := Rune(p[start..end]), Size(p[start..end]);
    assert p[start..end] == p[start..];
    OnlyCandidate(p, start, lim);
    if start + size != end {
      return RUNE_ERROR, 1;
    }
    return r, size;
  }

  lemma SingleByte(p: seq<Byte>)
    requires |p| == 1
    ensures Size(p) == 1 && Rune(p) == if p[0] < RUNE_SELF then p[0] as int else RUNE_ERROR
  {
  }

  lemma AsciiEnds(p: seq<Byte>)
    requires p != [] && p[|p| - 1] < 0x80
    ensures forall st: nat :: st < |p| - 1 ==> st + SizeAt(p, st) != |p|
  {
    forall st: nat | st < |p| - 1
      ensures st + SizeAt(p, st) != |p|
    {
      if st + SizeAt(p, st) == |p| { InsideRune(p, st, |p| - 1); }
    }
  }

  /** The backward search stops at the only place a multi-byte sequence ending at the end can start. */
  lemma OnlyCandidate(p: seq<Byte>, start: nat, lim: int)
    requires |p| >= 1 && lim == (if |p| - 4 > 0 then |p| - 4 else 0)
    requires start <= |p| - 1 && lim - 1 <= start
    requires forall k :: start < k < |p| - 1 ==> Continuation(p[k])
    requires start < |p| - 1 || |p| == 1
    requires start < lim || RuneStart(p[start]) || start == 0
    ensures forall st: nat :: st < |p| - 1 && st != start ==> st + SizeAt(p, st) != |p|
  {
    forall st: nat | st < |p| - 1 && st != start
      ensures st + SizeAt(p, st) != |p|
    {
      if st + SizeAt(p, st) == |p| {
        InsideRune(p, st, st + 1);
        if st < start { InsideRune(p, st, start); }
      }
    }
  }

  /** A sequence that ends inside or at the end of a prefix decodes the same in the prefix. */
  lemma PrefixDecodes(s: seq<Byte>, j: nat, end: nat)
    requires j < end <= |s| && j + SizeAt(s, j) <= end
    ensures SizeAt(s[..end], j) == SizeAt(s, j) && RuneAt(s[..end], j) == RuneAt(s, j)
  {
    assert s[..end][j..] == s[j..][..end - j];
  }

  /** A sequence of two or more bytes in a prefix is the same sequence in the whole. */
  lemma WholeDecodes(s: seq<Byte>, j: nat, end: nat)
    requires j < end <= |s| && SizeAt(s[..end], j) >= 2
    ensures SizeAt(s, j) == SizeAt(s[..end], j) && RuneStart(s[j])
  {
    assert s[..end][j..] == s[j..][..end - j];
  }

  /** Decoding the last rune before a boundary steps back to exactly the previous boundary, and finds
      the rune that decoding forwards finds there. */
  lemma BackwardsIsForwards(s: seq<Byte>, end: nat, r: int, size: nat)
    requires Boundary(s, end) && end > 0
    requires 1 <= size <= end && r == RuneAt(s[..end], end - size) && size == SizeAt(s[..end], end - size)
    requires size == 1 ==> forall st: nat :: st < end - 1 ==> st + SizeAt(s[..end], st) != end
    ensures Boundary(s, end - size) && size == SizeAt(s, end - size) && r == RuneAt(s, end - size)
  {
    hide Size, Rune, Walk, WellFormed;
    var j := Previous(s, end);
    PrefixDecodes(s, j, end);
    if end - size != j {
      WholeDecodes(s, end - size, end);
      StartIsBoundary(s, end - size);
      if end - size < j { NoBoundaryInside(s, end - size, j); } else { NoBoundaryInside(s, j, end - size); }
    }
  }
}
