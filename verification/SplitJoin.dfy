/** Substring search, Split, Join and Replace (bytes/bytes.go). */
module SplitJoin {
  import opened Basics
  import opened Pow2s
  import opened Utf8
  import opened ByteSearch

  /** The limits bytealg sets on each architecture. */
  datatype Platform = Platform(maxLen: nat, maxBruteForce: nat, cutover: nat -> nat)

  // ---- where a separator occurs ----

  /** i is the first place where sep occurs in s; -1 when there is none. */
  ghost predicate IsFirstAt(s: seq<Byte>, sep: seq<Byte>, i: int) {
    if i < 0 then i == -1 && forall k: nat :: !At(s, sep, k)
    else At(s, sep, i) && forall k: nat :: k < i ==> !At(s, sep, k)
  }

  /** No occurrence begins before i. */
  ghost predicate NoneBefore(s: seq<Byte>, sep: seq<Byte>, i: int) {
    forall k: nat :: k < i ==> !At(s, sep, k)
  }

  /** The first place from k on where sep occurs. */
  function FirstFrom(s: seq<Byte>, sep: seq<Byte>, k: nat): (i: int)
    ensures i == -1 || k <= i <= |s|
    decreases |s| - k
  {
    if k + |sep| > |s| then -1 else if At(s, sep, k) then k else if k == |s| then -1 else FirstFrom(s, sep, k + 1)
  }

  function First(s: seq<Byte>, sep: seq<Byte>): (i: int)
    ensures i == -1 || 0 <= i <= |s|
  {
    FirstFrom(s, sep, 0)
  }

  lemma {:induction false} FirstFromIs(s: seq<Byte>, sep: seq<Byte>, k: nat)
    requires forall j: nat :: j < k ==> !At(s, sep, j)
    ensures IsFirstAt(s, sep, FirstFrom(s, sep, k))
    decreases |s| - k
  {
    if k + |sep| <= |s| && !At(s, sep, k) && k < |s| { FirstFromIs(s, sep, k + 1); }
  }

  lemma FirstIsFirst(s: seq<Byte>, sep: seq<Byte>, i: int)
    requires IsFirstAt(s, sep, i)
    ensures First(s, sep) == i
  {
    hide At;
    FirstFromIs(s, sep, 0);
  }

  /** An occurrence starts with the first byte and fits. */
  lemma AtFirst(s: seq<Byte>, sep: seq<Byte>, k: nat)
    requires sep != [] && At(s, sep, k)
    ensures k + |sep| <= |s| && s[k] == sep[0]
  {
    assert s[k..k + |sep|][0] == s[k];
  }

  /** Positions skipped by IndexByte in s[i+1..t] do not start an occurrence. */
  lemma SkipFront(s: seq<Byte>, sep: seq<Byte>, i: nat, t: nat, o: int)
    requires sep != [] && t + |sep| == |s| + 1 && i < t && s[i] != sep[0] && -1 <= o < t - i - 1
    requires NoneBefore(s, sep, i)
    requires o >= 0 ==> sep[0] !in s[i + 1..t][..o]
    requires o < 0 ==> sep[0] !in s[i + 1..t]
    ensures o >= 0 ==> NoneBefore(s, sep, i + o + 1)
    ensures o < 0 ==> IsFirstAt(s, sep, -1)
  {
    hide At;
    forall k: nat | i <= k && (o >= 0 ==> k < i + o + 1)
      ensures !At(s, sep, k)
    {
      if i < k < t {
        assert s[k] == s[i + 1..t][k - i - 1];
        assert o >= 0 ==> s[k] == s[i + 1..t][..o][k - i - 1];
      }
      if At(s, sep, k) { AtFirst(s, sep, k); }
    }
  }

  /** The test at i settles whether an occurrence begins there. */
  lemma Here(s: seq<Byte>, sep: seq<Byte>, i: nat)
    requires |sep| >= 2 && i + |sep| <= |s| && NoneBefore(s, sep, i)
    ensures if s[i + 1] == sep[1] && s[i..i + |sep|] == sep then IsFirstAt(s, sep, i) else NoneBefore(s, sep, i + 1)
  {
    assert s[i..i + |sep|][1] == s[i + 1];
    assert At(s, sep, i) <==> s[i + 1] == sep[1] && s[i..i + |sep|] == sep;
    hide At;
  }

  lemma NoneBeforeStart(s: seq<Byte>, sep: seq<Byte>)
    ensures NoneBefore(s, sep, 0)
  {
  }

  /** The search of a suffix, taken back to the whole. */
  lemma SuffixFirst(s: seq<Byte>, sep: seq<Byte>, i: nat, r: int)
    requires i <= |s| && IsFirstAt(s[i..], sep, r) && NoneBefore(s, sep, i)
    ensures IsFirstAt(s, sep, if r < 0 then -1 else r + i) && r >= -1
  {
    hide At;
    ShiftedAt(s, sep, i);
  }

  lemma NoRoom(s: seq<Byte>, sep: seq<Byte>, i: nat)
    requires i + |sep| > |s| && NoneBefore(s, sep, i)
    ensures IsFirstAt(s, sep, -1)
  {
  }

  /** Index: by length of the separator, skipping with IndexByte and changing to a slower but steadier
      search after too many false positives. */
  method IndexSep(s: seq<Byte>, sep: seq<Byte>, p: Platform) returns (i: int)
    ensures IsFirstAt(s, sep, i)
  {
    hide At, NoneBefore;
    var n := |sep|;
    if n == 0 {
      Short(s, sep);
      return 0;
    } else if n == 1 {
      i := ByteSearch.IndexByte(s, sep[0]);
      SingleByteAt(s, sep, i);
      return;
    } else if n == |s| {
      Short(s, sep);
      return if sep == s then 0 else -1;
    } else if n > |s| {
      Short(s, sep);
      return -1;
    } else if n <= p.maxLen && |s| <= p.maxBruteForce {
      i := Index(s, sep);
      return;
    }
    var c0, t, fails := sep[0], |s| - n + 1, 0;
    var small := n <= p.maxLen;
    i := 0;
    NoneBeforeStart(s, sep);
    while i < t
      invariant 0 <= i <= t
      invariant NoneBefore(s, sep, i)
      decreases t - i
    {
      if s[i] != c0 {
        var o := ByteSearch.IndexByte(s[i + 1..t], c0);
        SkipFront(s, sep, i, t, o);
        if o < 0 {
          return -1;
        }
        i := i + o + 1;
      }
      Here(s, sep, i);
      if s[i + 1] == sep[1] && s[i..i + n] == sep {
        return i;
      }
      i := i + 1;
      fails := fails + 1;
      if if small then fails > p.cutover(i) else fails >= 4 + i / 16 && i < t {
        var r := Index(s[i..], sep);
        SuffixFirst(s, sep, i, r);
        return if r >= 0 then i + r else -1;
      }
    }
    NoRoom(s, sep, i);
    return -1;
  }

  lemma Short(s: seq<Byte>, sep: seq<Byte>)
    ensures sep == [] ==> IsFirstAt(s, sep, 0)
    ensures |sep| > |s| ==> IsFirstAt(s, sep, -1)
    ensures |sep| == |s| ==> IsFirstAt(s, sep, if sep == s then 0 else -1)
  {
    assert s[0..|s|] == s;
  }

  lemma SingleByteAt(s: seq<Byte>, sep: seq<Byte>, i: int)
    requires |sep| == 1 && -1 <= i < |s|
    requires i >= 0 ==> s[i] == sep[0] && sep[0] !in s[..i]
    requires i < 0 ==> sep[0] !in s
    ensures IsFirstAt(s, sep, i)
  {
    hide At;
    forall k: nat
      ensures At(s, sep, k) <==> k < |s| && s[k] == sep[0]
    {
      OneByte(s, sep, k);
    }
    assert i >= 0 ==> forall k: nat :: k < i ==> s[..i][k] == s[k];
  }

  lemma OneByte(s: seq<Byte>, sep: seq<Byte>, k: nat)
    requires |sep| == 1
    ensures At(s, sep, k) <==> k < |s| && s[k] == sep[0]
  {
    if k < |s| { assert s[k..k + 1] == [s[k]]; }
  }

  // ---- splitting ----

  /** s cut at each separator, from the left, into at most n pieces (n < 0: all); each piece keeps the
      first `save` bytes of the separator behind it. */
  function Pieces(s: seq<Byte>, sep: seq<Byte>, save: nat, n: int): (ps: seq<seq<Byte>>)
    requires sep != [] && save <= |sep| && n != 0
    ensures ps != []
    decreases |s|
  {
    var m := First(s, sep);
    if n == 1 || m < 0 || m + |sep| > |s| then [s]
    else [s[..m + save]] + Pieces(s[m + |sep|..], sep, save, n - 1)
  }

  /** Number of separators found from the left. */
  function CountOf(s: seq<Byte>, sep: seq<Byte>): nat
    requires sep != []
    decreases |s|
  {
    var m := First(s, sep);
    if m < 0 || m + |sep| > |s| then 0 else 1 + CountOf(s[m + |sep|..], sep)
  }

  /** First, as a fact about occurrences. */
  lemma FirstFacts(s: seq<Byte>, sep: seq<Byte>)
    ensures IsFirstAt(s, sep, First(s, sep))
    ensures First(s, sep) >= 0 ==> First(s, sep) + |sep| <= |s|
    ensures First(s, sep) >= 0 ==> s[First(s, sep)..First(s, sep) + |sep|] == sep
  {
    FirstFromIs(s, sep, 0);
  }

  lemma {:induction false} PieceCount(s: seq<Byte>, sep: seq<Byte>, save: nat, n: int)
    requires sep != [] && save <= |sep| && n != 0
    ensures |Pieces(s, sep, save, n)| == if n < 0 || n > CountOf(s, sep) then CountOf(s, sep) + 1 else n
    ensures n > CountOf(s, sep) ==> Pieces(s, sep, save, n) == Pieces(s, sep, save, -1)
    decreases |s|
  {
    hide First;
    var m := First(s, sep);
    if m >= 0 && m + |sep| <= |s| {
      if n != 1 { PieceCount(s[m + |sep|..], sep, save, n - 1); } else { PieceCount(s[m + |sep|..], sep, save, -1); }
      Unlimited(s, sep, save);
      Unlimited(s[m + |sep|..], sep, save);
    }
  }

  /** Without a limit the limit does not count down. */
  lemma {:induction false} Unlimited(s: seq<Byte>, sep: seq<Byte>, save: nat)
    requires sep != [] && save <= |sep|
    ensures forall k: int :: k < 0 ==> Pieces(s, sep, save, k) == Pieces(s, sep, save, -1)
    decreases |s|
  {
    hide First;
    var m := First(s, sep);
    if m >= 0 && m + |sep| <= |s| { Unlimited(s[m + |sep|..], sep, save); }
  }

  /** The pieces with sep between them. */
  function Joined(ps: seq<seq<Byte>>, sep: seq<Byte>): seq<Byte> {
    if ps == [] then [] else if |ps| == 1 then ps[0] else ps[0] + sep + Joined(ps[1..], sep)
  }

  /** Joining what Split (or SplitAfter) cut gives back the whole, for every limit. */
  lemma {:induction false} JoinSplit(s: seq<Byte>, sep: seq<Byte>, save: nat, n: int)
    requires sep != [] && save <= |sep| && n != 0
    ensures Joined(Pieces(s, sep, save, n), sep[save..]) == s
    decreases |s|
  {
    hide First, IsFirstAt;
    FirstFacts(s, sep);
    var m := First(s, sep);
    if n != 1 && m >= 0 {
      var rest := s[m + |sep|..];
      JoinSplit(rest, sep, save, n - 1);
      assert Pieces(s, sep, save, n)[1..] == Pieces(rest, sep, save, n - 1);
      assert s[..m + save] == s[..m] + sep[..save];
      assert sep[..save] + sep[save..] == sep;
      assert s == s[..m] + sep + rest;
    }
  }

  /** p is cut off before the first separator in it and what follows. */
  ghost predicate CutFirst(p: seq<Byte>, sep: seq<Byte>) {
    IsFirstAt(p + sep, sep, |p|)
  }

  ghost predicate NoneIn(p: seq<Byte>, sep: seq<Byte>) {
    forall k: nat :: !At(p, sep, k)
  }

  /** What makes a list of pieces the split of their join: none contains sep, and none but the last has an
      occurrence that begins in it and ends in the separator behind it. */
  ghost predicate IsSplit(ps: seq<seq<Byte>>, sep: seq<Byte>) {
    && ps != [] && NoneIn(ps[|ps| - 1], sep)
    && forall i :: 0 <= i < |ps| - 1 ==> CutFirst(ps[i], sep)
  }

  lemma CutFirstHasNone(p: seq<Byte>, sep: seq<Byte>)
    requires CutFirst(p, sep) && sep != []
    ensures NoneIn(p, sep)
  {
    forall k: nat
      ensures !At(p, sep, k)
    {
      if k + |sep| <= |p| { assert (p + sep)[k..k + |sep|] == p[k..k + |sep|]; }
      assert k < |p| ==> !At(p + sep, sep, k);
    }
  }

  /** Only what stands before the end of the first separator decides where it is. */
  lemma FirstLocal(p: seq<Byte>, sep: seq<Byte>, rest: seq<Byte>)
    requires sep != []
    ensures CutFirst(p, sep) <==> IsFirstAt(p + sep + rest, sep, |p|)
  {
    var s := p + sep + rest;
    forall k: nat | k <= |p|
      ensures At(p + sep, sep, k) <==> At(s, sep, k)
    {
      assert s[k..k + |sep|] == (p + sep)[k..k + |sep|];
    }
  }

  /** Split yields such pieces. */
  lemma {:induction false} SplitIsSplit(s: seq<Byte>, sep: seq<Byte>)
    requires sep != []
    ensures IsSplit(Pieces(s, sep, 0, -1), sep)
    decreases |s|
  {
    hide First, At;
    FirstFacts(s, sep);
    Unlimited(s, sep, 0);
    var m := First(s, sep);
    if m >= 0 {
      var rest := s[m + |sep|..];
      SplitIsSplit(rest, sep);
      Unlimited(rest, sep, 0);
      assert s == s[..m] + sep + rest;
      FirstLocal(s[..m], sep, rest);
    }
  }

  /** ... and they are the only such pieces that join to s. */
  lemma {:induction false} SplitUnique(ps: seq<seq<Byte>>, sep: seq<Byte>)
    requires sep != [] && IsSplit(ps, sep)
    ensures Pieces(Joined(ps, sep), sep, 0, -1) == ps
    decreases |ps|
  {
    hide First, At;
    var s := Joined(ps, sep);
    if |ps| == 1 {
      FirstIsFirst(s, sep, -1);
    } else {
      var rest := Joined(ps[1..], sep);
      SplitUnique(ps[1..], sep);
      assert s == ps[0] + sep + rest;
      FirstLocal(ps[0], sep, rest);
      FirstIsFirst(s, sep, |ps[0]|);
      assert s[|ps[0]| + |sep|..] == rest && s[..|ps[0]|] == ps[0];
      Unlimited(rest, sep, 0);
    }
  }

  /** No piece of a full split contains the separator. */
  lemma PiecesHaveNone(s: seq<Byte>, sep: seq<Byte>)
    requires sep != []
    ensures forall p :: p in Pieces(s, sep, 0, -1) ==> NoneIn(p, sep)
  {
    hide Pieces, NoneIn, CutFirst;
    SplitIsSplit(s, sep);
    var ps := Pieces(s, sep, 0, -1);
    forall i | 0 <= i < |ps| - 1
      ensures NoneIn(ps[i], sep)
    {
      CutFirstHasNone(ps[i], sep);
    }
  }

  // ---- an empty separator ----

  /** s cut after each rune, into at most n pieces (n < 0: all). */
  function Exploded(s: seq<Byte>, n: int): seq<seq<Byte>>
    requires n != 0
    decreases |s|
  {
    if s == [] then [] else if n == 1 then [s] else [s[..Size(s)]] + Exploded(s[Size(s)..], n - 1)
  }

  /** A limit of at least the length is none. */
  lemma {:induction false} ExplodeAll(s: seq<Byte>, n: int)
    requires n < 0 || n >= |s|
    requires n != 0
    ensures Exploded(s, n) == Exploded(s, -1)
    decreases |s|
  {
    hide Size;
    if s != [] {
      var rest := s[Size(s)..];
      if n == 1 {
        assert Size(s) == 1 && s[..1] == s && rest == [];
      } else {
        ExplodeAll(rest, n - 1);
      }
      ExplodeAll(rest, -2);
    }
  }

  lemma {:induction false} JoinExploded(s: seq<Byte>, n: int)
    requires n != 0
    ensures Joined(Exploded(s, n), []) == s
    decreases |s|
  {
    hide Size;
    if s != [] && n != 1 {
      var rest := s[Size(s)..];
      JoinExploded(rest, n - 1);
      var ps := Exploded(s, n);
      assert ps[1..] == Exploded(rest, n - 1);
      assert s == s[..Size(s)] + [] + rest;
    }
  }

  /** Each piece is the bytes of one rune, and the pieces are as many as the runes. */
  lemma {:induction false} PieceIsRune(s: seq<Byte>)
    ensures var ps, rs := Exploded(s, -1), DecodeAll(s);
            |ps| == |rs| && forall i :: 0 <= i < |ps| ==> DecodeAll(ps[i]) == [rs[i]]
    decreases |s|
  {
    hide Size, Rune;
    if s != [] {
      var rest := s[Size(s)..];
      PieceIsRune(rest);
      ExplodeAny(rest);
      FirstRune(s);
    }
  }

  lemma {:induction false} ExplodeAny(s: seq<Byte>)
    ensures Exploded(s, -2) == Exploded(s, -1)
  {
    ExplodeAll(s, -2);
  }

  lemma FirstRune(s: seq<Byte>)
    requires s != []
    ensures DecodeAll(s[..Size(s)]) == [Rune(s)]
  {
    var p := s[..Size(s)];
    assert Size(p) == |p| && Rune(p) == Rune(s);
    assert p[Size(p)..] == [];
  }

  /** A limit n leaves the first n - 1 runes as pieces of their own and the rest as one. */
  lemma {:induction false} ExplodeLimit(s: seq<Byte>, n: nat)
    requires n > 0
    ensures var ps, all := Exploded(s, n), Exploded(s, -1);
            |ps| == Min(n, |all|) && forall i :: 0 <= i < |ps| && i < n - 1 ==> ps[i] == all[i]
    decreases |s|
  {
    hide Size;
    if s != [] {
      var rest := s[Size(s)..];
      ExplodeAny(rest);
      if n > 1 { ExplodeLimit(rest, n - 1); }
    }
  }

  lemma ExplodeNone()
    ensures forall n :: n != 0 ==> Exploded([], n) == []
  {
  }

  lemma ExplodeStep(s: seq<Byte>, n: int)
    requires s != [] && n != 0
    ensures Exploded(s, n) == if n == 1 then [s] else [s[..Size(s)]] + Exploded(s[Size(s)..], n - 1)
  {
  }

  /** explode */
  method Explode(s: seq<Byte>, n0: int) returns (ps: seq<seq<Byte>>)
    ensures ps == Exploded(s, if n0 <= 0 then -1 else n0)
  {
    hide Size, Exploded;
    ExplodeNone();
    var n := n0;
    if n <= 0 || n > |s| {
      n := |s|;
    }
    if n == 0 {
      return [];
    }
    if n0 <= 0 || n0 > |s| {
      ExplodeAll(s, |s|);
      if n0 > 0 { ExplodeAll(s, n0); }
    }
    ps := ExplodeInto(s, n);
  }

  /** The loop of explode, filling an array of n pieces. */
  method ExplodeInto(s0: seq<Byte>, n: nat) returns (ps: seq<seq<Byte>>)
    requires n > 0
    ensures ps == Exploded(s0, n)
  {
    hide Size, Exploded;
    ExplodeNone();
    var s := s0;
    var a := new seq<Byte>[n](_ => []);
    var na := 0;
    while |s| > 0
      invariant na < n && Exploded(s0, n) == a[..na] + Exploded(s, n - na)
      decreases |s|
    {
      ghost var done := a[..na];
      ExplodeStep(s, n - na);
      if na + 1 >= n {
        a[na] := s;
        assert a[..na + 1] == done + [s];
        return a[..na + 1];
      }
      var size := Size(s);
      a[na] := s[..size];
      s := s[size..];
      na := na + 1;
      assert a[..na] == done + [a[na - 1]];
    }
    return a[..na];
  }

  // ---- Count, Split and Join ----

  /** bytealg.Count */
  method CountByte(s: seq<Byte>, c: Byte) returns (n: nat)
    ensures n == CountOf(s, [c])
  {
    n := 0;
    var i := |s|;
    NoneLeft(s[i..], c);
    while i > 0
      invariant 0 <= i <= |s| && n == CountOf(s[i..], [c])
    {
      i := i - 1;
      CountStep(s[i..], c);
      assert s[i..][1..] == s[i + 1..];
      if s[i] == c {
        n := n + 1;
      }
    }
    assert s[0..] == s;
  }

  lemma NoneLeft(s: seq<Byte>, c: Byte)
    requires s == []
    ensures CountOf(s, [c]) == 0
  {
  }

  lemma CountStep(s: seq<Byte>, c: Byte)
    requires s != []
    ensures CountOf(s, [c]) == CountOf(s[1..], [c]) + if s[0] == c then 1 else 0
  {
    hide First, At;
    var sep, rest := [c], s[1..];
    FirstFacts(s, sep);
    FirstFacts(rest, sep);
    OneByte(s, sep, 0);
    ShiftedAt(s, sep, 1);
    var m := First(rest, sep);
    if s[0] == c {
      FirstIsFirst(s, sep, 0);
    } else if m >= 0 {
      FirstIsFirst(s, sep, m + 1);
      assert s[m + 2..] == rest[m + 1..];
    } else {
      FirstIsFirst(s, sep, -1);
    }
  }

  /** utf8.RuneCount */
  method RuneCount(s: seq<Byte>) returns (n: nat)
    ensures n == |DecodeAll(s)|
  {
    hide Size, Rune;
    n := 0;
    var i := 0;
    assert s[0..] == s;
    while i < |s|
      invariant i <= |s| && |DecodeAll(s)| == n + |DecodeAll(s[i..])|
      decreases |s| - i
    {
      var size := Size(s[i..]);
      assert s[i..][size..] == s[i + size..];
      i := i + size;
      n := n + 1;
    }
  }

  method Count(s0: seq<Byte>, sep: seq<Byte>, p: Platform) returns (n: nat)
    ensures n == if sep == [] then |DecodeAll(s0)| + 1 else CountOf(s0, sep)
  {
    hide First, IsFirstAt, DecodeAll;
    if |sep| == 0 {
      n := RuneCount(s0);
      return n + 1;
    }
    if |sep| == 1 {
      assert sep == [sep[0]];
      n := CountByte(s0, sep[0]);
      return;
    }
    var s := s0;
    n := 0;
    while true
      invariant CountOf(s0, sep) == n + CountOf(s, sep)
      decreases |s|
    {
      var i := IndexSep(s, sep, p);
      FirstIsFirst(s, sep, i);
      FirstFacts(s, sep);
      if i == -1 {
        return;
      }
      n := n + 1;
      s := s[i + |sep|..];
    }
  }

  /** genSplit: Split, SplitN, SplitAfter and SplitAfterN. */
  method GenSplit(s0: seq<Byte>, sep: seq<Byte>, sepSave: nat, n0: int, p: Platform) returns (ps: seq<seq<Byte>>)
    requires sepSave <= |sep|
    ensures ps == if n0 == 0 then [] else if sep == [] then Exploded(s0, n0) else Pieces(s0, sep, sepSave, n0)
  {
    hide First, IsFirstAt, Pieces, CountOf, Exploded;
    if n0 == 0 {
      return [];
    }
    if |sep| == 0 {
      ps := Explode(s0, n0);
      if n0 < 0 { ExplodeAll(s0, n0); }
      return;
    }
    var n := n0;
    if n < 0 {
      n := Count(s0, sep, p);
      n := n + 1;
    }
    if n > |s0| + 1 {
      n := |s0| + 1;
    }
    SameLimit(s0, sep, sepSave, n0, n);
    ps := CutPieces(s0, sep, sepSave, n, p);
  }

  /** The limit genSplit works with instead of n0. */
  lemma SameLimit(s: seq<Byte>, sep: seq<Byte>, save: nat, n0: int, n: int)
    requires sep != [] && save <= |sep| && n0 != 0
    requires n == var m := if n0 < 0 then CountOf(s, sep) + 1 else n0; if m > |s| + 1 then |s| + 1 else m
    ensures n >= 1 && Pieces(s, sep, save, n) == Pieces(s, sep, save, n0)
  {
    hide First, Pieces, CountOf;
    CountAtMost(s, sep);
    PieceCount(s, sep, save, n);
    PieceCount(s, sep, save, n0);
    Unlimited(s, sep, save);
  }

  lemma PieceStep(s: seq<Byte>, sep: seq<Byte>, save: nat, n: int)
    requires sep != [] && save <= |sep| && n != 0
    ensures n == 1 || First(s, sep) < 0 ==> Pieces(s, sep, save, n) == [s]
    ensures n != 1 && First(s, sep) >= 0 ==>
              var m := First(s, sep);
              m + |sep| <= |s| && Pieces(s, sep, save, n) == [s[..m + save]] + Pieces(s[m + |sep|..], sep, save, n - 1)
  {
    hide First;
    FirstFacts(s, sep);
  }

  /** The loop of genSplit, filling an array of n pieces. */
  method CutPieces(s0: seq<Byte>, sep: seq<Byte>, sepSave: nat, n0: nat, p: Platform) returns (ps: seq<seq<Byte>>)
    requires sep != [] && sepSave <= |sep| && n0 >= 1
    ensures ps == Pieces(s0, sep, sepSave, n0)
  {
    hide First, IsFirstAt, Pieces;
    var a := new seq<Byte>[n0](_ => []);
    var s, n := s0, n0 - 1;
    var i := 0;
    while i < n
      invariant 0 <= i <= n && Pieces(s0, sep, sepSave, n0) == a[..i] + Pieces(s, sep, sepSave, n0 - i)
    {
      var m := IndexSep(s, sep, p);
      FirstIsFirst(s, sep, m);
      PieceStep(s, sep, sepSave, n0 - i);
      if m < 0 {
        break;
      }
      ghost var done := a[..i];
      a[i] := s[..m + sepSave];
      s := s[m + |sep|..];
      i := i + 1;
      assert a[..i] == done + [a[i - 1]];
    }
    PieceStep(s, sep, sepSave, n0 - i);
    a[i] := s;
    assert a[..i + 1] == a[..i] + [s];
    return a[..i + 1];
  }

  lemma {:induction false} CountAtMost(s: seq<Byte>, sep: seq<Byte>)
    requires sep != []
    ensures CountOf(s, sep) <= |s|
    decreases |s|
  {
    hide First;
    var m := First(s, sep);
    if m >= 0 && m + |sep| <= |s| { CountAtMost(s[m + |sep|..], sep); }
  }

  lemma {:induction false} JoinedSnoc(ps: seq<seq<Byte>>, p: seq<Byte>, sep: seq<Byte>)
    requires ps != []
    ensures Joined(ps + [p], sep) == Joined(ps, sep) + sep + p
  {
    var all := ps + [p];
    if |ps| == 1 {
      assert all[1..] == [p];
    } else {
      JoinedSnoc(ps[1..], p, sep);
      assert all[1..] == ps[1..] + [p];
    }
  }

  lemma {:induction false} JoinedLength(ps: seq<seq<Byte>>, sep: seq<Byte>)
    requires ps != []
    ensures |Joined(ps, sep)| == |sep| * (|ps| - 1) + |Flatten(ps)|
    decreases |ps|
  {
    var k := |ps| - 1;
    assert ps == ps[..k] + [ps[k]];
    FlattenSnoc(ps[..k], ps[k]);
    if k > 0 {
      JoinedLength(ps[..k], sep);
      JoinedSnoc(ps[..k], ps[k], sep);
      assert |sep| * k == |sep| * (k - 1) + |sep|;
    } else {
      assert ps[..k] == [];
    }
  }

  /** copy(b[at:], p) */
  method Put(b: array<Byte>, at: nat, p: seq<Byte>) returns (end: nat)
    requires at + |p| <= b.Length
    modifies b
    ensures end == at + |p| && b[..end] == old(b[..at]) + p
  {
    forall k | 0 <= k < |p| {
      b[at + k] := p[k];
    }
    end := at + |p|;
    assert forall k :: 0 <= k < at ==> b[k] == old(b[k]);
  }

  /** The lengths first, then one buffer of exactly the length needed. */
  method Join(s: seq<seq<Byte>>, sep: seq<Byte>) returns (out: seq<Byte>)
    ensures out == Joined(s, sep)
  {
    hide Joined, Flatten;
    FewPieces(s, sep);
    if |s| == 0 {
      return [];
    }
    if |s| == 1 {
      return s[0];
    }
    var n := |sep| * (|s| - 1);
    n := AddLengths(s, n);
    JoinedLength(s, sep);
    var b := new Byte[n](_ => 0);
    PrefixFits(s, 1, sep);
    FewPieces(s[..1], sep);
    var bp: nat := Put(b, 0, s[0]);
    for i := 1 to |s|
      invariant bp <= n && b[..bp] == Joined(s[..i], sep)
    {
      assert s[..i + 1] == s[..i] + [s[i]];
      JoinedSnoc(s[..i], s[i], sep);
      PrefixFits(s, i + 1, sep);
      bp := Put(b, bp, sep);
      bp := Put(b, bp, s[i]);
    }
    assert s[..|s|] == s;
    return b[..];
  }

  lemma FewPieces(s: seq<seq<Byte>>, sep: seq<Byte>)
    ensures |s| == 0 ==> Joined(s, sep) == []
    ensures |s| == 1 ==> Joined(s, sep) == s[0]
  {
  }

  lemma PrefixFits(s: seq<seq<Byte>>, i: nat, sep: seq<Byte>)
    requires 1 <= i <= |s|
    ensures |Joined(s[..i], sep)| <= |Joined(s, sep)|
  {
    hide Joined, Flatten;
    JoinedLength(s[..i], sep);
    JoinedLength(s, sep);
    FlattenPrefix(s, i);
    MulMono(i - 1, |s| - 1, |sep|);
  }

  /** The loop adding up the lengths. */
  method AddLengths(s: seq<seq<Byte>>, n0: nat) returns (n: nat)
    ensures n == n0 + |Flatten(s)|
  {
    hide Flatten;
    n := n0;
    NoChunks();
    for i := 0 to |s|
      invariant n == n0 + |Flatten(s[..i])|
    {
      assert s[..i + 1] == s[..i] + [s[i]];
      FlattenSnoc(s[..i], s[i]);
      n := n + |s[i]|;
    }
    assert s[..|s|] == s;
  }

  lemma NoChunks()
    ensures Flatten([]) == []
  {
  }
}
