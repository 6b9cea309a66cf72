/** Replace (bytes/bytes.go): a result of precomputed length, filled from left to right. */
module Replacing {
  import opened Basics
  import opened Pow2s
  import opened Utf8
  import opened SplitJoin

  /** s cut after each of its first j runes. */
  function RunePieces(s: seq<Byte>, j: nat): (ps: seq<seq<Byte>>)
    ensures ps != []
  {
    if j == 0 || s == [] then [s] else [s[..Size(s)]] + RunePieces(s[Size(s)..], j - 1)
  }

  /** How often an empty pattern is replaced. */
  function Places(s: seq<Byte>, n: int): nat
    requires n != 0
  {
    if n < 0 || n > |DecodeAll(s)| + 1 then |DecodeAll(s)| + 1 else n
  }

  /** What Replace promises: the first n pieces between occurrences of `old` rejoined with `replacement` (n < 0:
      all); an empty `pattern` stands at the beginning and behind every rune. */
  function Replaced(s: seq<Byte>, pattern: seq<Byte>, replacement: seq<Byte>, n: int): seq<Byte> {
    if pattern != [] then Joined(Pieces(s, pattern, 0, if n < 0 then -1 else n + 1), replacement)
    else if n == 0 then s
    else
      Joined([[]] + RunePieces(s, Places(s, n) - 1), replacement)
  }

  method Replace(s: seq<Byte>, pattern: seq<Byte>, replacement: seq<Byte>, n0: int, p: Platform) returns (out: seq<Byte>)
    ensures out == Replaced(s, pattern, replacement, n0)
  {
    hide Pieces, CountOf, DecodeAll, RunePieces, Joined;
    var m, n := 0, n0;
    if n != 0 {
      m := Count(s, pattern, p);
    }
    if m == 0 {
      if pattern != [] { NoReplacement(s, pattern, replacement, n0); }
      return s;
    }
    if n < 0 || m < n {
      n := m;
    }
    if |pattern| > 0 {
      SameReplacements(s, pattern, n0, n);
      out := ReplaceEach(s, pattern, replacement, n, p);
    } else {
      out := ReplaceBetween(s, replacement, n);
    }
  }

  lemma NoReplacement(s: seq<Byte>, pattern: seq<Byte>, replacement: seq<Byte>, n: int)
    requires pattern != [] && (n == 0 || CountOf(s, pattern) == 0)
    ensures Joined(Pieces(s, pattern, 0, if n < 0 then -1 else n + 1), replacement) == s
  {
    hide First;
    FirstFacts(s, pattern);
  }

  lemma SameReplacements(s: seq<Byte>, pattern: seq<Byte>, n0: int, n: nat)
    requires pattern != [] && n0 != 0 && n == (var m := CountOf(s, pattern); if n0 < 0 || m < n0 then m else n0)
    ensures Pieces(s, pattern, 0, n + 1) == Pieces(s, pattern, 0, if n0 < 0 then -1 else n0 + 1)
  {
    hide First, Pieces, CountOf;
    PieceCount(s, pattern, 0, n + 1);
    if n0 > 0 { PieceCount(s, pattern, 0, n0 + 1); }
  }

  /** Pieces that join to s with one separator join to this length with another. */
  lemma OtherLength(ps: seq<seq<Byte>>, s: seq<Byte>, sep: seq<Byte>, replacement: seq<Byte>)
    requires ps != [] && Joined(ps, sep) == s
    ensures |Joined(ps, replacement)| == |s| + (|ps| - 1) * (|replacement| - |sep|)
  {
    JoinedLength(ps, sep);
    JoinedLength(ps, replacement);
  }

  /** The length Replace computes beforehand is that of its result. */
  lemma ReplacedLength(s: seq<Byte>, pattern: seq<Byte>, replacement: seq<Byte>, n: nat)
    requires pattern != [] && n <= CountOf(s, pattern)
    ensures |Joined(Pieces(s, pattern, 0, n + 1), replacement)| == |s| + n * (|replacement| - |pattern|)
  {
    hide Pieces, CountOf, Joined;
    PieceCount(s, pattern, 0, n + 1);
    assert pattern[0..] == pattern;
    JoinSplit(s, pattern, 0, n + 1);
    OtherLength(Pieces(s, pattern, 0, n + 1), s, pattern, replacement);
  }

  lemma Shift(a: seq<Byte>, x: seq<Byte>, y: seq<Byte>, z: seq<Byte>)
    ensures a + (x + y + z) == a + x + y + z
  {
  }

  /** The loop for a non-empty `pattern`: n replacements, with at least n occurrences. */
  method ReplaceEach(s: seq<Byte>, pattern: seq<Byte>, replacement: seq<Byte>, n: nat, p: Platform) returns (out: seq<Byte>)
    requires pattern != [] && n <= CountOf(s, pattern)
    ensures out == Joined(Pieces(s, pattern, 0, n + 1), replacement)
  {
    hide Pieces, CountOf, Joined, First, IsFirstAt;
    ghost var want := Joined(Pieces(s, pattern, 0, n + 1), replacement);
    ReplacedLength(s, pattern, replacement, n);
    var t := new Byte[|s| + n * (|replacement| - |pattern|)](_ => 0);
    var w: nat, start: nat := 0, 0;
    assert s[0..] == s;
    for k := 0 to n
      invariant start <= |s| && n - k <= CountOf(s[start..], pattern)
      invariant w <= t.Length == |want|
      invariant want == t[..w] + Joined(Pieces(s[start..], pattern, 0, n + 1 - k), replacement)
    {
      var i := IndexSep(s[start..], pattern, p);
      FirstIsFirst(s[start..], pattern, i);
      OneReplacement(s[start..], pattern, replacement, n - k);
      var j := start + i;
      assert s[start..][..i] == s[start..j];
      assert s[start..][i + |pattern|..] == s[j + |pattern|..];
      Shift(t[..w], s[start..j], replacement, Joined(Pieces(s[j + |pattern|..], pattern, 0, n - k), replacement));
      w := Put(t, w, s[start..j]);
      w := Put(t, w, replacement);
      start := j + |pattern|;
    }
    LastPiece(s[start..], pattern, replacement);
    w := Put(t, w, s[start..]);
    assert w == t.Length;
    return t[..w];
  }

  /** The first piece and its replacement, then the replacements in what follows. */
  lemma OneReplacement(s: seq<Byte>, pattern: seq<Byte>, replacement: seq<Byte>, n: nat)
    requires pattern != [] && 0 < n <= CountOf(s, pattern)
    ensures var m := First(s, pattern);
            && 0 <= m && m + |pattern| <= |s| && n - 1 <= CountOf(s[m + |pattern|..], pattern)
            && Joined(Pieces(s, pattern, 0, n + 1), replacement)
               == s[..m] + replacement + Joined(Pieces(s[m + |pattern|..], pattern, 0, n), replacement)
  {
    hide First;
    FirstFacts(s, pattern);
    PieceStep(s, pattern, 0, n + 1);
    var m := First(s, pattern);
    var ps := Pieces(s, pattern, 0, n + 1);
    assert ps[1..] == Pieces(s[m + |pattern|..], pattern, 0, n);
  }

  lemma LastPiece(s: seq<Byte>, pattern: seq<Byte>, replacement: seq<Byte>)
    requires pattern != []
    ensures Joined(Pieces(s, pattern, 0, 1), replacement) == s
  {
  }

  // ---- the loop for an empty `pattern` ----

  method ReplaceBetween(s: seq<Byte>, replacement: seq<Byte>, n: nat) returns (out: seq<Byte>)
    requires 1 <= n <= |DecodeAll(s)| + 1
    ensures out == Joined([[]] + RunePieces(s, n - 1), replacement)
  {
    hide DecodeAll, RunePieces, Joined, Size;
    ghost var want := Joined([[]] + RunePieces(s, n - 1), replacement);
    Opening(RunePieces(s, n - 1), replacement);
    BetweenLength(s, replacement, n);
    var t := new Byte[|s| + n * |replacement|](_ => 0);
    var w: nat := Put(t, 0, replacement);
    var start: nat := 0;
    assert s[0..] == s;
    for k := 0 to n - 1
      invariant start <= |s| && n - 1 - k <= |DecodeAll(s[start..])|
      invariant w <= t.Length == |want|
      invariant want == t[..w] + Joined(RunePieces(s[start..], n - 1 - k), replacement)
    {
      OneRune(s[start..], n - 1 - k, replacement);
      var wid := Size(s[start..]);
      var j := start + wid;
      assert s[start..][..wid] == s[start..j] && s[start..][wid..] == s[j..];
      Shift(t[..w], s[start..j], replacement, Joined(RunePieces(s[j..], n - 2 - k), replacement));
      w := Put(t, w, s[start..j]);
      w := Put(t, w, replacement);
      start := j;
    }
    NoMore(s[start..], replacement);
    w := Put(t, w, s[start..]);
    assert w == t.Length;
    return t[..w];
  }

  lemma {:induction false} JoinRunes(s: seq<Byte>, j: nat)
    requires j <= |DecodeAll(s)|
    ensures Joined(RunePieces(s, j), []) == s && |RunePieces(s, j)| == j + 1
    decreases j
  {
    hide Size, Rune;
    if j > 0 {
      var rest := s[Size(s)..];
      JoinRunes(rest, j - 1);
      assert RunePieces(s, j)[1..] == RunePieces(rest, j - 1);
      assert s == s[..Size(s)] + [] + rest;
    }
  }

  lemma BetweenLength(s: seq<Byte>, replacement: seq<Byte>, n: nat)
    requires 1 <= n <= |DecodeAll(s)| + 1
    ensures |Joined([[]] + RunePieces(s, n - 1), replacement)| == |s| + n * |replacement|
  {
    hide DecodeAll, RunePieces, Joined;
    JoinRunes(s, n - 1);
    Opening(RunePieces(s, n - 1), []);
    assert [] + s == s;
    OtherLength([[]] + RunePieces(s, n - 1), s, [], replacement);
  }

  lemma Opening(ps: seq<seq<Byte>>, replacement: seq<Byte>)
    requires ps != []
    ensures Joined([[]] + ps, replacement) == replacement + Joined(ps, replacement)
  {
    assert ([[]] + ps)[1..] == ps;
  }

  lemma OneRune(s: seq<Byte>, j: nat, replacement: seq<Byte>)
    requires 0 < j <= |DecodeAll(s)|
    ensures s != [] && j - 1 <= |DecodeAll(s[Size(s)..])|
    ensures Joined(RunePieces(s, j), replacement)
            == s[..Size(s)] + replacement + Joined(RunePieces(s[Size(s)..], j - 1), replacement)
  {
    hide Size;
    var ps := RunePieces(s, j);
    assert ps[1..] == RunePieces(s[Size(s)..], j - 1);
  }

  lemma NoMore(s: seq<Byte>, replacement: seq<Byte>)
    ensures Joined(RunePieces(s, 0), replacement) == s
  {
  }

  // ---- what Replace means ----

  /** Occurrences are replaced from the left, n of them at most: the first one is cut out for the replacement
      and n - 1 are replaced in what follows it. */
  lemma ReplaceFirst(s: seq<Byte>, pattern: seq<Byte>, replacement: seq<Byte>, n: int)
    requires pattern != []
    ensures n == 0 || IsFirstAt(s, pattern, -1) ==> Replaced(s, pattern, replacement, n) == s
    ensures forall i: nat :: n != 0 && IsFirstAt(s, pattern, i) ==>
              i + |pattern| <= |s|
              && Replaced(s, pattern, replacement, n)
                 == s[..i] + replacement
                    + Replaced(s[i + |pattern|..], pattern, replacement, if n < 0 then n else n - 1)
  {
    hide First, Pieces, IsFirstAt;
    FirstFacts(s, pattern);
    if IsFirstAt(s, pattern, -1) { FirstIsFirst(s, pattern, -1); }
    if n == 0 || First(s, pattern) < 0 {
      NoReplacement(s, pattern, replacement, n);
    }
    forall i: nat | n != 0 && IsFirstAt(s, pattern, i)
      ensures i + |pattern| <= |s|
      ensures Replaced(s, pattern, replacement, n)
              == s[..i] + replacement + Replaced(s[i + |pattern|..], pattern, replacement, if n < 0 then n else n - 1)
    {
      FirstIsFirst(s, pattern, i);
      CutFirst(s, pattern, replacement, if n < 0 then -1 else n + 1);
    }
  }

  lemma CutFirst(s: seq<Byte>, pattern: seq<Byte>, replacement: seq<Byte>, limit: int)
    requires pattern != [] && First(s, pattern) >= 0 && (limit == -1 || limit > 1)
    ensures var m := First(s, pattern);
            && m + |pattern| <= |s|
            && Joined(Pieces(s, pattern, 0, limit), replacement)
               == s[..m] + replacement
                  + Joined(Pieces(s[m + |pattern|..], pattern, 0, if limit < 0 then -1 else limit - 1), replacement)
  {
    hide First;
    FirstFacts(s, pattern);
    PieceStep(s, pattern, 0, limit);
    var m := First(s, pattern);
    var ps := Pieces(s, pattern, 0, limit);
    Unlimited(s[m + |pattern|..], pattern, 0);
    assert ps[1..] == Pieces(s[m + |pattern|..], pattern, 0, if limit < 0 then -1 else limit - 1);
  }

  /** An empty pattern is found before the first rune and behind each: the replacement, the first rune, and
      the same again for what follows it. */
  lemma ReplaceEmpty(s: seq<Byte>, replacement: seq<Byte>, n: int)
    ensures n == 0 ==> Replaced(s, [], replacement, n) == s
    ensures n != 0 && s == [] ==> Replaced(s, [], replacement, n) == replacement
    ensures n == 1 ==> Replaced(s, [], replacement, n) == replacement + s
    ensures n != 0 && n != 1 && s != [] ==>
              Replaced(s, [], replacement, n)
              == replacement + s[..Size(s)] + Replaced(s[Size(s)..], [], replacement, if n < 0 then n else n - 1)
  {
    hide DecodeAll, RunePieces, Joined, Size;
    if n != 0 {
      Runes(s);
      var k := Places(s, n);
      Opening(RunePieces(s, k - 1), replacement);
      if k > 1 {
        RuneInFront(s, replacement, k);
      } else {
        NoMore(s, replacement);
        assert replacement + [] == replacement;
      }
    }
  }

  lemma RuneInFront(s: seq<Byte>, replacement: seq<Byte>, k: nat)
    requires 1 < k <= |DecodeAll(s)| + 1
    ensures var rest := s[Size(s)..];
            Joined([[]] + RunePieces(s, k - 1), replacement)
            == replacement + s[..Size(s)] + Joined([[]] + RunePieces(rest, k - 2), replacement)
  {
    hide DecodeAll, RunePieces, Joined, Size;
    var head, rest := s[..Size(s)], s[Size(s)..];
    Opening(RunePieces(s, k - 1), replacement);
    OneRune(s, k - 1, replacement);
    Opening(RunePieces(rest, k - 2), replacement);
    Regroup(replacement, head, Joined(RunePieces(rest, k - 2), replacement));
  }

  lemma Regroup(x: seq<Byte>, y: seq<Byte>, z: seq<Byte>)
    ensures x + (y + x + z) == x + y + (x + z)
  {
  }

  lemma Runes(s: seq<Byte>)
    ensures |DecodeAll(s)| == if s == [] then 0 else 1 + |DecodeAll(s[Size(s)..])|
  {
  }

  /** Replacing every occurrence by itself, or nothing at all, changes nothing. */
  lemma ReplaceSame(s: seq<Byte>, pattern: seq<Byte>, n: int)
    requires pattern != []
    ensures Replaced(s, pattern, pattern, n) == s
  {
    hide Pieces;
    assert pattern[0..] == pattern;
    JoinSplit(s, pattern, 0, if n < 0 then -1 else n + 1);
  }
}
