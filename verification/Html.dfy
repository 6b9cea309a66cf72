/** HTML escaping and unescaping (html/escape.go). Unescaping rewrites the byte slice in place; here it
    is shown to compute what an out-of-place decoder computes on the original text. */
module Html {
  import opened Basics
  import opened Utf8

  type Rune32 = x: int | -0x8000_0000 <= x < 0x8000_0000

  /** int32 arithmetic wraps. */
  function Wrap32(x: int): Rune32 {
    (x + 0x8000_0000) % 0x1_0000_0000 - 0x8000_0000
  }

  const AMP: Byte := 38
  const HASH: Byte := 35
  const SEMI: Byte := 59

  /** All entities that do not end with ';' are at most this long. */
  const LONGEST_WITHOUT_SEMICOLON: nat := 6

  /** The two tables of named references. */
  datatype Tables = Tables(entity: map<seq<Byte>, int>, entity2: map<seq<Byte>, (int, int)>)

  /** A missing key reads as zero. */
  function Lookup(t: Tables, name: seq<Byte>): int {
    if name in t.entity then t.entity[name] else 0
  }

  function Lookup2(t: Tables, name: seq<Byte>): (int, int) {
    if name in t.entity2 then t.entity2[name] else (0, 0)
  }

  /** No reference encodes wider than "&" and its name: what the table's own test checks. */
  ghost predicate Narrow(t: Tables) {
    && (forall k :: k in t.entity ==> |Encode(t.entity[k])| <= 1 + |k|)
    && (forall k :: k in t.entity2 ==> |Encode(t.entity2[k].0)| + |Encode(t.entity2[k].1)| <= 1 + |k|)
  }

  // ---- numeric references ----

  predicate Digit(c: Byte) { 48 <= c <= 57 }

  predicate HexDigit(c: Byte) { Digit(c) || 97 <= c <= 102 || 65 <= c <= 70 }

  function HexValue(c: Byte): int {
    if Digit(c) then c - 48 else if 97 <= c <= 102 then c - 97 + 10 else c - 65 + 10
  }

  predicate Accepts(hex: bool, c: Byte) { if hex then HexDigit(c) else Digit(c) }

  function Accumulate(hex: bool, x: Rune32, c: Byte): Rune32
    requires Accepts(hex, c)
  {
    Wrap32(if hex then 16 * x + HexValue(c) else 10 * x + (c - 48))
  }

  /** Reads digits from i on, and one semicolon behind them: value and end position. */
  function Digits(s: seq<Byte>, i: nat, hex: bool, x: Rune32): (Rune32, nat)
    requires i <= |s|
    decreases |s| - i
  {
    if i == |s| then (x, i)
    else if Accepts(hex, s[i]) then Digits(s, i + 1, hex, Accumulate(hex, x, s[i]))
    else if s[i] == SEMI then (x, i + 1)
    else (x, i)
  }

  /** Windows-1252 readings of 0x80 to 0x9F. */
  const REPLACEMENTS: seq<int> := [
    0x20AC, 0x81, 0x201A, 0x192, 0x201E, 0x2026, 0x2020, 0x2021, 0x2C6, 0x2030, 0x160, 0x2039, 0x152, 0x8D, 0x17D, 0x8F,
    0x90, 0x2018, 0x2019, 0x201C, 0x201D, 0x2022, 0x2013, 0x2014, 0x2DC, 0x2122, 0x161, 0x203A, 0x153, 0x9D, 0x17E, 0x178]

  function FixRune(x: Rune32): Rune32 {
    if 0x80 <= x <= 0x9F then REPLACEMENTS[x - 0x80]
    else if x == 0 || 0xD800 <= x <= 0xDFFF || x > 0x10FFFF then 0xFFFD
    else x
  }

  // ---- named references ----

  predicate Alnum(c: Byte) { 97 <= c <= 122 || 65 <= c <= 90 || 48 <= c <= 57 }

  /** End of the longest run of letters and digits from i on, with one semicolon behind it. */
  function NameEnd(s: seq<Byte>, i: nat): (e: nat)
    requires i <= |s|
    ensures i <= e <= |s|
    decreases |s| - i
  {
    if i == |s| then i
    else if Alnum(s[i]) then NameEnd(s, i + 1)
    else if s[i] == SEMI then i + 1
    else i
  }

  /** The longest prefix of name, from length j down to 2, that is an entity on its own; 0 if none. */
  function PrefixEntity(t: Tables, name: seq<Byte>, j: nat): (k: nat)
    requires j <= |name|
    ensures k <= j && (k > 0 ==> k > 1 && Lookup(t, name[..k]) != 0)
  {
    if j <= 1 then 0
    else if Lookup(t, name[..j]) != 0 then j
    else PrefixEntity(t, name, j - 1)
  }

  // ---- the out-of-place decoder ----

  /** A reference at the start of s (s[0] is '&'): the bytes it stands for and how much of s it uses. */
  function Reference(t: Tables, s: seq<Byte>): (seq<Byte>, nat)
    requires s != []
  {
    if |s| <= 1 then (s[..1], 1)
    else if s[1] == HASH then Numeric(s)
    else Named(t, s)
  }

  function Numeric(s: seq<Byte>): (seq<Byte>, nat)
    requires |s| > 1
  {
    if |s| <= 3 then (s[..1], 1)
    else
      var hex := s[2] == 120 || s[2] == 88;
      var d := Digits(s, if hex then 3 else 2, hex, 0);
      if d.1 <= 3 then (s[..1], 1) else (Encode(FixRune(d.0)), d.1)
  }

  function Named(t: Tables, s: seq<Byte>): (seq<Byte>, nat)
    requires |s| > 1
  {
    var i := NameEnd(s, 1);
    var name := s[1..i];
    if name == [] then (s[..i], i)
    else if Lookup(t, name) != 0 then (Encode(Lookup(t, name)), i)
    else if Lookup2(t, name).0 != 0 then (Encode(Lookup2(t, name).0) + Encode(Lookup2(t, name).1), i)
    else
      var j := PrefixEntity(t, name, Min(|name| - 1, LONGEST_WITHOUT_SEMICOLON));
      if j > 0 then (Encode(Lookup(t, name[..j])), j + 1) else (s[..i], i)
  }

  lemma {:induction false} DigitsEnd(s: seq<Byte>, i: nat, hex: bool, x: Rune32)
    requires i <= |s|
    ensures i <= Digits(s, i, hex, x).1 <= |s|
    decreases |s| - i
  {
    if i < |s| && Accepts(hex, s[i]) { DigitsEnd(s, i + 1, hex, Accumulate(hex, x, s[i])); }
  }

  /** A reference never stands for more bytes than it uses: the reason the rewrite can be done in place. */
  lemma ReferenceShrinks(t: Tables, s: seq<Byte>)
    requires s != [] && Narrow(t)
    ensures |Reference(t, s).0| <= Reference(t, s).1 && 1 <= Reference(t, s).1 <= |s|
  {
    hide Encode, Digits, NameEnd, PrefixEntity, FixRune;
    if |s| > 3 && s[1] == HASH {
      var hex := s[2] == 120 || s[2] == 88;
      DigitsEnd(s, if hex then 3 else 2, hex, 0);
    }
  }

  /** The whole text decoded: everything but references stands for itself. */
  function Unescaped(t: Tables, s: seq<Byte>): seq<Byte>
    requires Narrow(t)
    decreases |s|
  {
    if s == [] then []
    else if s[0] != AMP then [s[0]] + Unescaped(t, s[1..])
    else
      ReferenceShrinks(t, s);
      Reference(t, s).0 + Unescaped(t, s[Reference(t, s).1..])
  }

  // ---- escaping ----

  /** htmlEscaper, byte by byte: & ' < > " become &amp; &#39; &lt; &gt; &#34; */
  function EscapeByte(c: Byte): (e: seq<Byte>)
    ensures e != []
  {
    if c == 38 then [38, 97, 109, 112, 59]
    else if c == 39 then [38, 35, 51, 57, 59]
    else if c == 60 then [38, 108, 116, 59]
    else if c == 62 then [38, 103, 116, 59]
    else if c == 34 then [38, 35, 51, 52, 59]
    else [c]
  }

  function EscapeString(s: seq<Byte>): seq<Byte> {
    if s == [] then [] else EscapeByte(s[0]) + EscapeString(s[1..])
  }

  /** The table knows amp; lt; and gt; */
  ghost predicate HasBasics(t: Tables) {
    Lookup(t, [97, 109, 112, 59]) == 38 && Lookup(t, [108, 116, 59]) == 60 && Lookup(t, [103, 116, 59]) == 62
  }

  /** Unescaping undoes escaping, for every byte string. */
  lemma {:induction false} UnescapeEscape(t: Tables, s: seq<Byte>)
    requires Narrow(t) && HasBasics(t)
    ensures Unescaped(t, EscapeString(s)) == s
  {
    hide Encode, Reference, Narrow;
    if s != [] {
      UnescapeEscape(t, s[1..]);
      var e, rest := EscapeByte(s[0]), EscapeString(s[1..]);
      if e[0] == AMP {
        EscapedReference(t, s[0], rest);
        assert (e + rest)[|e|..] == rest;
      } else {
        assert (e + rest)[1..] == rest;
      }
    }
  }

  /** Each of the five replacements is read back as the byte it replaced, whatever follows. */
  lemma EscapedReference(t: Tables, c: Byte, rest: seq<Byte>)
    requires HasBasics(t) && EscapeByte(c)[0] == AMP
    ensures Reference(t, EscapeByte(c) + rest) == ([c], |EscapeByte(c)|)
  {
    hide Digits, NameEnd;
    if c == 39 || c == 34 {
      NumericBack(c, rest);
    } else {
      var letters := if c == 38 then [97, 109, 112] else if c == 60 then [108, 116] else [103, 116];
      assert letters + [SEMI] == if c == 38 then [97, 109, 112, 59] else if c == 60 then [108, 116, 59] else [103, 116, 59];
      assert EscapeByte(c) == [AMP] + letters + [SEMI];
      NamedBack(t, letters, c, rest);
    }
  }

  lemma NamedBack(t: Tables, letters: seq<Byte>, c: Byte, rest: seq<Byte>)
    requires letters != [] && forall i :: 0 <= i < |letters| ==> Alnum(letters[i])
    requires Lookup(t, letters + [SEMI]) == c != 0 && c < 0x80
    ensures Reference(t, [AMP] + letters + [SEMI] + rest) == ([c], |letters| + 2)
  {
    hide NameEnd, Lookup;
    NameOf(letters, rest);
    var s := [AMP] + letters + [SEMI] + rest;
    assert Alnum(s[1]);
  }

  lemma NumericBack(c: Byte, rest: seq<Byte>)
    requires c == 39 || c == 34
    ensures Digits([38, 35, 51, c + 18, 59] + rest, 2, false, 0) == (c, 5)
  {
    var s := [38, 35, 51, c + 18, 59] + rest;
    assert Digits(s, 4, false, c) == (c, 5);
    assert Accumulate(false, 0, 51) == 3 && Accumulate(false, 3, c + 18) == c;
    assert Digits(s, 3, false, 3) == (c, 5);
  }

  /** A run of letters ended by a semicolon is taken whole. */
  lemma NameOf(letters: seq<Byte>, rest: seq<Byte>)
    requires forall i :: 0 <= i < |letters| ==> Alnum(letters[i])
    ensures var s := [AMP] + letters + [SEMI] + rest;
            NameEnd(s, 1) == |letters| + 2 && s[1..|letters| + 2] == letters + [SEMI]
  {
    var s := [AMP] + letters + [SEMI] + rest;
    NameRun(s, 1, |letters| + 1);
  }

  lemma {:induction false} NameRun(s: seq<Byte>, i: nat, e: nat)
    requires i <= e < |s| && s[e] == SEMI && forall k :: i <= k < e ==> Alnum(s[k])
    ensures NameEnd(s, i) == e + 1
    decreases e - i
  {
    if i < e { NameRun(s, i + 1, e); }
  }

  // ---- the in-place rewrite ----

  /** b[at..at+|p|] now holds p, and nothing else changed. */
  twostate predicate Wrote(b: array<Byte>, at: nat, p: seq<Byte>)
    reads b
  {
    && at + |p| <= b.Length && b[at..at + |p|] == p
    && b[..at] == old(b[..at]) && b[at + |p|..] == old(b[at + |p|..])
  }

  /** utf8.EncodeRune(b[dst:], x) */
  method EncodeRune(b: array<Byte>, dst: nat, x: int) returns (n: nat)
    requires dst + |Encode(x)| <= b.Length
    modifies b
    ensures n == |Encode(x)| && Wrote(b, dst, Encode(x))
  {
    var p := Encode(x);
    n := |p|;
    forall k | 0 <= k < n {
      b[dst + k] := p[k];
    }
  }

  /** copy(b[dst:dst+n], b[src:src+n]), overlapping or not. */
  method Move(b: array<Byte>, dst: nat, src: nat, n: nat, ghost text: seq<Byte>)
    requires dst <= src && src + n <= b.Length && text == b[src..src + n]
    modifies b
    ensures Wrote(b, dst, text)
  {
    forall k | 0 <= k < n {
      b[dst + k] := b[src + k];
    }
    assert b[dst..dst + n] == text;
  }

  /** What unescapeEntity does to b: the reference at src is decoded to dst, the cursors advance past it
      and its decoding, and the text from the new src on is untouched. */
  twostate predicate Decoded(t: Tables, b: array<Byte>, dst: nat, src: nat, dst1: nat, src1: nat)
    requires src < b.Length
    reads b
  {
    var ref := Reference(t, old(b[src..]));
    src1 == src + ref.1 && dst1 == dst + |ref.0| && dst1 <= src1 <= b.Length && Wrote(b, dst, ref.0)
  }

  /** unescapeEntity: decodes the reference at b[src] to b[dst]. */
  method UnescapeEntity(t: Tables, b: array<Byte>, dst: nat, src: nat) returns (dst1: nat, src1: nat)
    requires Narrow(t) && dst <= src < b.Length && b[src] == AMP
    modifies b
    ensures Decoded(t, b, dst, src, dst1, src1)
  {
    ghost var s := b[src..];
    ReferenceShrinks(t, s);
    if b.Length - src <= 1 {
      dst1, src1 := CopyAmp(b, dst, src);
      return;
    }
    if b[src + 1] == HASH {
      dst1, src1 := UnescapeNumeric(t, b, dst, src);
    } else {
      dst1, src1 := UnescapeNamed(t, b, dst, src);
    }
  }

  /** b[dst] = b[src] */
  method CopyAmp(b: array<Byte>, dst: nat, src: nat) returns (dst1: nat, src1: nat)
    requires dst <= src < b.Length
    modifies b
    ensures dst1 == dst + 1 && src1 == src + 1 && Wrote(b, dst, old(b[src..])[..1])
  {
    b[dst] := b[src];
    return dst + 1, src + 1;
  }

  method UnescapeNumeric(t: Tables, b: array<Byte>, dst: nat, src: nat) returns (dst1: nat, src1: nat)
    requires Narrow(t) && dst <= src && src + 1 < b.Length && b[src] == AMP && b[src + 1] == HASH
    modifies b
    ensures Decoded(t, b, dst, src, dst1, src1)
  {
    hide Encode, Digits, FixRune, Narrow;
    ghost var s := b[src..];
    ReferenceShrinks(t, s);
    if b.Length - src <= 3 {
      dst1, src1 := CopyAmp(b, dst, src);
      return;
    }
    var i := 2;
    var c := b[src + i];
    var hex := false;
    if c == 120 || c == 88 {
      hex := true;
      i := i + 1;
    }
    var x;
    x, i := ReadDigits(b, src, i, hex);
    if i <= 3 {
      dst1, src1 := CopyAmp(b, dst, src);
      return;
    }
    var n := EncodeRune(b, dst, FixRune(x));
    return dst + n, src + i;
  }

  /** The digit loop. */
  method ReadDigits(b: array<Byte>, src: nat, i0: nat, hex: bool) returns (x: Rune32, i: nat)
    requires src + i0 <= b.Length
    ensures (x, i) == Digits(b[src..], i0, hex, 0) && i <= b.Length - src
  {
    ghost var s := b[src..];
    DigitsEnd(s, i0, hex, 0);
    x, i := 0, i0;
    while i < b.Length - src
      invariant i0 <= i <= |s| && Digits(s, i, hex, x) == Digits(s, i0, hex, 0)
    {
      var c := b[src + i];
      assert c == s[i];
      i := i + 1;
      if Accepts(hex, c) {
        x := Accumulate(hex, x, c);
      } else {
        if c != SEMI {
          i := i - 1;
        }
        return;
      }
    }
  }

  method UnescapeNamed(t: Tables, b: array<Byte>, dst: nat, src: nat) returns (dst1: nat, src1: nat)
    requires Narrow(t) && dst <= src && src + 1 < b.Length && b[src] == AMP && b[src + 1] != HASH
    modifies b
    ensures Decoded(t, b, dst, src, dst1, src1)
  {
    hide Encode, NameEnd, PrefixEntity, Narrow, Reference, Named, Lookup, Lookup2;
    ghost var s := b[src..];
    ReferenceShrinks(t, s);
    var i := ReadName(b, src);
    var name := b[src + 1..src + i];
    assert name == s[1..i];
    NamedCases(t, s);
    if name != [] {
      if Lookup(t, name) != 0 {
        var n := EncodeRune(b, dst, Lookup(t, name));
        return dst + n, src + i;
      }
      var x := Lookup2(t, name);
      if x.0 != 0 {
        dst1 := EncodeTwo(b, dst, x.0, x.1);
        return dst1, src + i;
      }
    }
    dst1, src1 := UnescapePrefix(t, b, dst, src, i);
  }

  /** The name as a whole is no entity: a shorter prefix of it, or the text as it stands. */
  method UnescapePrefix(t: Tables, b: array<Byte>, dst: nat, src: nat, i: nat) returns (dst1: nat, src1: nat)
    requires Narrow(t) && dst <= src && src + 1 < b.Length && b[src] == AMP && b[src + 1] != HASH
    requires i == NameEnd(b[src..], 1)
    requires i > 1 ==> Lookup(t, b[src..][1..i]) == 0 && Lookup2(t, b[src..][1..i]).0 == 0
    modifies b
    ensures Decoded(t, b, dst, src, dst1, src1)
  {
    hide Encode, NameEnd, PrefixEntity, Narrow, Reference, Named, Lookup, Lookup2;
    ghost var s := b[src..];
    ReferenceShrinks(t, s);
    NamedCases(t, s);
    var name := b[src + 1..src + i];
    assert name == s[1..i];
    if name != [] {
      var j := FindPrefix(t, name);
      if j > 0 {
        var n := EncodeRune(b, dst, Lookup(t, name[..j]));
        return dst + n, src + j + 1;
      }
    }
    Move(b, dst, src, i, s[..i]);
    return dst + i, src + i;
  }

  /** Named, case by case. */
  lemma NamedCases(t: Tables, s: seq<Byte>)
    requires |s| > 1 && s[1] != HASH
    ensures var i := NameEnd(s, 1);
            var name := s[1..i];
            var j := if name == [] then 0 else PrefixEntity(t, name, Min(|name| - 1, LONGEST_WITHOUT_SEMICOLON));
            && (name != [] && Lookup(t, name) != 0 ==> Reference(t, s) == (Encode(Lookup(t, name)), i))
            && (name != [] && Lookup(t, name) == 0 && Lookup2(t, name).0 != 0 ==>
                  Reference(t, s) == (Encode(Lookup2(t, name).0) + Encode(Lookup2(t, name).1), i))
            && (name != [] && Lookup(t, name) == 0 && Lookup2(t, name).0 == 0 && j > 0 ==>
                  Reference(t, s) == (Encode(Lookup(t, name[..j])), j + 1))
            && (name == [] || (Lookup(t, name) == 0 && Lookup2(t, name).0 == 0 && j == 0) ==> Reference(t, s) == (s[..i], i))
  {
  }

  method EncodeTwo(b: array<Byte>, dst: nat, x: int, y: int) returns (dst1: nat)
    requires dst + |Encode(x)| + |Encode(y)| <= b.Length
    modifies b
    ensures dst1 == dst + |Encode(x)| + |Encode(y)| && Wrote(b, dst, Encode(x) + Encode(y))
  {
    hide Encode, Written;
    ghost var before := b[..];
    var n := EncodeOne(b, dst, x);
    ghost var middle := b[..];
    var m := EncodeOne(b, dst + n, y);
    TwoWrites(before, middle, b[..], dst, Encode(x), Encode(y));
    Spliced(before, b[..], dst, Encode(x) + Encode(y));
    dst1 := dst + n + m;
  }

  method EncodeOne(b: array<Byte>, at: nat, x: int) returns (n: nat)
    requires at + |Encode(x)| <= b.Length
    modifies b
    ensures n == |Encode(x)| && Written(old(b[..]), b[..], at, Encode(x))
  {
    hide Encode;
    n := EncodeRune(b, at, x);
    assert b[..][at..at + n] == b[at..at + n];
    assert b[..][..at] == b[..at] && old(b[..])[..at] == old(b[..at]);
    assert b[..][at + n..] == b[at + n..] && old(b[..])[at + n..] == old(b[at + n..]);
  }

  /** Wrote, for the contents before and after. */
  ghost predicate Written(s: seq<Byte>, s1: seq<Byte>, at: nat, p: seq<Byte>) {
    at + |p| <= |s| == |s1| && s1[..at] == s[..at] && s1[at..at + |p|] == p && s1[at + |p|..] == s[at + |p|..]
  }

  lemma Spliced(s: seq<Byte>, s1: seq<Byte>, at: nat, p: seq<Byte>)
    requires Written(s, s1, at, p)
    ensures at + |p| <= |s| == |s1| && s1[..at] == s[..at] && s1[at..at + |p|] == p && s1[at + |p|..] == s[at + |p|..]
  {
  }

  /** Two adjacent writes make one. */
  lemma TwoWrites(s: seq<Byte>, s1: seq<Byte>, s2: seq<Byte>, at: nat, p: seq<Byte>, q: seq<Byte>)
    requires Written(s, s1, at, p) && Written(s1, s2, at + |p|, q)
    ensures Written(s, s2, at, p + q)
  {
    var mid := at + |p|;
    assert s2[..at] == s2[..mid][..at] && s1[..at] == s1[..mid][..at];
    assert s2[at..mid] == s2[..mid][at..] && s1[at..mid] == s1[..mid][at..];
    assert s2[at..mid + |q|] == s2[at..mid] + s2[mid..mid + |q|];
    assert s1[mid + |q|..] == s1[mid..][|q|..] && s[mid + |q|..] == s[mid..][|q|..];
  }

  /** The loop over letters and digits. */
  method ReadName(b: array<Byte>, src: nat) returns (i: nat)
    requires src + 1 < b.Length
    ensures i == NameEnd(b[src..], 1) && 1 <= i <= b.Length - src
  {
    ghost var s := b[src..];
    i := 1;
    while i < b.Length - src
      invariant 1 <= i <= |s| && NameEnd(s, i) == NameEnd(s, 1)
    {
      var c := b[src + i];
      assert c == s[i];
      i := i + 1;
      if !Alnum(c) {
        if c != SEMI {
          i := i - 1;
        }
        return;
      }
    }
  }

  /** The loop over shorter and shorter prefixes. */
  method FindPrefix(t: Tables, name: seq<Byte>) returns (j: nat)
    requires name != []
    ensures j == PrefixEntity(t, name, Min(|name| - 1, LONGEST_WITHOUT_SEMICOLON))
  {
    var maxLen := |name| - 1;
    if maxLen > LONGEST_WITHOUT_SEMICOLON {
      maxLen := LONGEST_WITHOUT_SEMICOLON;
    }
    j := maxLen;
    while j > 1
      invariant j <= maxLen
      invariant PrefixEntity(t, name, j) == PrefixEntity(t, name, maxLen)
    {
      if Lookup(t, name[..j]) != 0 {
        return;
      }
      j := j - 1;
    }
    return 0;
  }

  /** strings.IndexByte(s, '&') */
  method IndexAmp(s: seq<Byte>) returns (i: int)
    ensures -1 <= i < |s|
    ensures i >= 0 ==> s[i] == AMP && AMP !in s[..i]
    ensures i < 0 ==> AMP !in s
  {
    i := 0;
    while i < |s|
      invariant 0 <= i <= |s| && AMP !in s[..i]
    {
      if s[i] == AMP {
        return;
      }
      i := i + 1;
    }
    return -1;
  }

  /** Text without references stands for itself. */
  lemma {:induction false} Plain(t: Tables, s: seq<Byte>, i: nat)
    requires Narrow(t) && i <= |s| && AMP !in s[..i]
    ensures Unescaped(t, s) == s[..i] + Unescaped(t, s[i..])
    decreases i
  {
    hide Reference, Narrow, Encode;
    if i == 0 {
      assert s[0..] == s;
    } else {
      var p, rest := s[..i], s[1..];
      assert p[0] == s[0] && p[0] in p;
      assert p[1..] == rest[..i - 1];
      assert p == [s[0]] + p[1..];
      Plain(t, rest, i - 1);
      var tail := rest[i - 1..];
      assert tail == s[i..];
      Reassociate([s[0]], p[1..], Unescaped(t, tail));
    }
  }

  lemma Reassociate(x: seq<Byte>, y: seq<Byte>, z: seq<Byte>)
    ensures x + (y + z) == x + y + z
  {
  }

  /** UnescapeString: one pass, rewriting the text in place, gives the out-of-place decoding. */
  method UnescapeString(t: Tables, s: seq<Byte>) returns (out: seq<Byte>)
    requires Narrow(t)
    ensures out == Unescaped(t, s)
  {
    hide Reference, Unescaped, Narrow;
    var i := IndexAmp(s);
    if i < 0 {
      PlainAll(t, s);
      return s;
    }
    var b := new Byte[|s|](k requires 0 <= k < |s| => s[k]);
    assert b[..] == s;
    Plain(t, s, i);
    ghost var want := Unescaped(t, s);
    var dst, src := Step(t, b, s, i, i, want);
    while src < |s|
      invariant 0 <= dst <= src <= |s| == b.Length && b[src..] == s[src..]
      invariant want == b[..dst] + Unescaped(t, s[src..])
      invariant fresh(b)
      decreases |s| - src
    {
      if s[src] == AMP {
        i := 0;
      } else {
        i := IndexAmp(s[src..]);
      }
      if i < 0 {
        assert s[src..][..|s| - src] == s[src..];
        CopyPlain(t, b, s, dst, src, |s| - src, want);
        EmptyText(t, s[|s|..]);
        return b[..dst + (|s| - src)];
      }
      CopyPlain(t, b, s, dst, src, i, want);
      dst, src := Step(t, b, s, dst + i, src + i, want);
    }
    EmptyText(t, s[src..]);
    return b[..dst];
  }

  lemma EmptyText(t: Tables, s: seq<Byte>)
    requires s == [] && Narrow(t)
    ensures Unescaped(t, s) == []
  {
  }

  lemma PlainAll(t: Tables, s: seq<Byte>)
    requires Narrow(t) && AMP !in s
    ensures Unescaped(t, s) == s
  {
    assert s[..|s|] == s;
    Plain(t, s, |s|);
    EmptyText(t, s[|s|..]);
  }

  /** copy(b[dst:], s[src:src+i]): plain text moved down to where its decoding belongs. */
  method CopyPlain(t: Tables, b: array<Byte>, s: seq<Byte>, dst: nat, src: nat, i: nat, ghost want: seq<Byte>)
    requires Narrow(t) && dst <= src && src + i <= |s| == b.Length && b[src..] == s[src..] && AMP !in s[src..][..i]
    requires want == b[..dst] + Unescaped(t, s[src..])
    modifies b
    ensures b[src + i..] == s[src + i..]
    ensures want == b[..dst + i] + Unescaped(t, s[src + i..])
  {
    hide Unescaped, Narrow;
    Plain(t, s[src..], i);
    var p := s[src..][..i];
    forall k | 0 <= k < i {
      b[dst + k] := p[k];
    }
    assert s[src..][i..] == s[src + i..];
    assert b[src + i..] == s[src + i..] by {
      assert forall k :: src + i <= k < |s| ==> b[k] == old(b[src..])[k - src];
    }
    assert b[..dst + i] == old(b[..dst]) + p;
    assert old(b[..dst]) + (p + Unescaped(t, s[src + i..])) == (old(b[..dst]) + p) + Unescaped(t, s[src + i..]);
  }

  /** unescapeEntity inside the main loop: decoded text so far, then the decoding of what is left. */
  method Step(t: Tables, b: array<Byte>, s: seq<Byte>, dst: nat, src: nat, ghost want: seq<Byte>)
    returns (dst1: nat, src1: nat)
    requires Narrow(t) && dst <= src < |s| == b.Length && b[src..] == s[src..] && s[src] == AMP
    requires want == b[..dst] + Unescaped(t, s[src..])
    modifies b
    ensures dst1 <= src1 <= |s| && src < src1 && b[src1..] == s[src1..]
    ensures want == b[..dst1] + Unescaped(t, s[src1..])
  {
    hide Reference, Narrow;
    ghost var out, used := Reference(t, s[src..]).0, Reference(t, s[src..]).1;
    ReferenceShrinks(t, s[src..]);
    assert b[src] == b[src..][0];
    dst1, src1 := UnescapeEntity(t, b, dst, src);
    assert s[src..][used..] == s[src1..];
    assert b[..dst1] == b[..dst] + b[dst..dst1];
    assert b[src1..] == b[dst1..][src1 - dst1..];
    assert b[..dst] + out + Unescaped(t, s[src1..]) == b[..dst] + (out + Unescaped(t, s[src1..]));
    assert b[src1..] == s[src..][used..] by {
      assert old(b[dst1..])[src1 - dst1..] == old(b[src..])[used..];
    }
  }

  /** The round trip the package promises: UnescapeString(EscapeString(s)) == s. */
  method RoundTrip(t: Tables, s: seq<Byte>) returns (out: seq<Byte>)
    requires Narrow(t) && HasBasics(t)
    ensures out == s
  {
    UnescapeEscape(t, s);
    out := UnescapeString(t, EscapeString(s));
  }
}
