/** What UnescapeString promises, in the characters of the text: numbers as they are spelled, names as they
    are listed, and what EscapeString leaves out. */
module HtmlReferences {
  import opened Basics
  import opened Utf8
  import opened Html

  /** 0 to 9, then a to f or A to F. */
  const LOWER: seq<Byte> := [48, 49, 50, 51, 52, 53, 54, 55, 56, 57, 97, 98, 99, 100, 101, 102]
  const UPPER: seq<Byte> := [48, 49, 50, 51, 52, 53, 54, 55, 56, 57, 65, 66, 67, 68, 69, 70]

  /** s is the number n in decimal or hexadecimal digits of either case, leading zeros or not. */
  predicate Spells(s: seq<Byte>, n: nat, base: nat)
    requires base == 10 || base == 16
  {
    && s != [] && (s[|s| - 1] == LOWER[n % base] || s[|s| - 1] == UPPER[n % base])
    && (if |s| == 1 then n < base else Spells(s[..|s| - 1], n / base, base))
  }

  /** What section 13.2.5.80 of the HTML Standard makes of the code points 0x80 to 0x9F; 0x81, 0x8D, 0x8F,
      0x90 and 0x9D are not listed there and stay. */
  const WINDOWS_1252: seq<int> := [
    0x20AC, 0x0081, 0x201A, 0x0192, 0x201E, 0x2026, 0x2020, 0x2021, 0x02C6, 0x2030, 0x0160, 0x2039, 0x0152, 0x008D,
    0x017D, 0x008F, 0x0090, 0x2018, 0x2019, 0x201C, 0x201D, 0x2022, 0x2013, 0x2014, 0x02DC, 0x2122, 0x0161, 0x203A,
    0x0153, 0x009D, 0x017E, 0x0178]

  predicate Surrogate(n: int) { 0xD800 <= n <= 0xDFFF }

  /** "&#", perhaps an x, the digits, perhaps a semicolon. */
  function Spelled(x: seq<Byte>, s: seq<Byte>, semi: bool, rest: seq<Byte>): seq<Byte> {
    [38, 35] + x + s + (if semi then [59] else []) + rest
  }

  // ---- numeric references ----

  /** The characters of the digits, by ranges. */
  lemma DigitRanges(d: nat)
    requires d < 16
    ensures LOWER[d] == (if d < 10 then 48 + d else 87 + d) && UPPER[d] == (if d < 10 then 48 + d else 55 + d)
  {
  }

  /** A digit as the loop sees it. */
  lemma OneDigit(c: Byte, d: nat, base: nat, q: nat)
    requires (base == 10 || base == 16) && d < base && (c == LOWER[d] || c == UPPER[d]) && q * base + d < 0x8000_0000
    ensures Accepts(base == 16, c) && Accumulate(base == 16, q, c) == q * base + d
  {
    DigitRanges(d);
    hide *;
    DigitStep(c, d, base, q);
  }

  lemma DigitStep(c: Byte, d: nat, base: nat, q: nat)
    requires (base == 10 || base == 16) && d < base && q * base + d < 0x8000_0000
    requires c == (if d < 10 then 48 + d else 87 + d) || c == (if d < 10 then 48 + d else 55 + d)
    ensures Accepts(base == 16, c) && Accumulate(base == 16, q, c) == q * base + d
  {
  }

  lemma Quotient(n: nat, base: nat)
    requires base == 10 || base == 16
    ensures n / base * base + n % base == n && 0 <= n / base <= n && (n >= base ==> n / base < n)
  {
  }

  /** The digit loop reads a spelled number as that number, as long as it fits an int32. */
  lemma {:induction false} ReadsNumber(text: seq<Byte>, i: nat, s: seq<Byte>, n: nat, base: nat)
    requires (base == 10 || base == 16) && Spells(s, n, base) && n < 0x8000_0000
    requires i + |s| <= |text| && text[i..i + |s|] == s
    ensures Html.Digits(text, i, base == 16, 0) == Html.Digits(text, i + |s|, base == 16, n)
    decreases |s|
  {
    hide Accumulate, Accepts;
    var k := |s| - 1;
    Quotient(n, base);
    assert text[i + k] == s[k];
    OneDigit(s[k], n % base, base, if k == 0 then 0 else n / base);
    if k > 0 {
      assert text[i..i + k] == s[..k];
      ReadsNumber(text, i, s[..k], n / base, base);
    }
  }

  /** Nothing after the number belongs to it. */
  predicate Ends(base: nat, rest: seq<Byte>)
    requires base == 10 || base == 16
  {
    rest == [] || (rest[0] != 59 && rest[0] !in LOWER[..base] && rest[0] !in UPPER[..base])
  }

  lemma AcceptedDigit(c: Byte, base: nat)
    requires (base == 10 || base == 16) && Accepts(base == 16, c)
    ensures c in LOWER[..base] || c in UPPER[..base]
  {
    var d := HexValue(c);
    DigitRanges(d);
    assert LOWER[..base][d] == LOWER[d] && UPPER[..base][d] == UPPER[d];
  }

  lemma NotADigit(c: Byte, base: nat)
    requires (base == 10 || base == 16) && c !in LOWER[..base] && c !in UPPER[..base]
    ensures !Accepts(base == 16, c)
  {
    hide Accepts;
    if Accepts(base == 16, c) { AcceptedDigit(c, base); }
  }

  /** Where the reference ends. */
  lemma NumberEnd(text: seq<Byte>, i: nat, n: Rune32, base: nat, semi: bool, rest: seq<Byte>)
    requires (base == 10 || base == 16) && i <= |text| && text[i..] == (if semi then [59] else []) + rest
    requires semi || Ends(base, rest)
    ensures Html.Digits(text, i, base == 16, n) == (n, if semi then i + 1 else i)
  {
    hide Accumulate;
    if semi {
      assert text[i] == text[i..][0] == 59;
    } else if rest != [] {
      assert text[i] == text[i..][0] == rest[0];
      NotADigit(rest[0], base);
    }
  }

  /** What the code point n stands for. */
  lemma Meaning(n: nat)
    requires n < 0x8000_0000
    ensures n > 0 && ValidRune(n) && !(0x80 <= n <= 0x9F) ==> FixRune(n) == n
    ensures n == 0 || Surrogate(n) || n > 0x10FFFF ==> Encode(FixRune(n)) == [0xEF, 0xBF, 0xBD]
    ensures 0x80 <= n <= 0x9F ==> FixRune(n) == WINDOWS_1252[n - 0x80]
  {
    if 0x80 <= n <= 0x9F { Listed(n); }
  }

  lemma Listed(n: nat)
    requires 0x80 <= n <= 0x9F
    ensures FixRune(n) == WINDOWS_1252[n - 0x80]
  {
  }

  /** A number spelled in decimal, or behind x or X in hexadecimal, is read as its code point: itself, for
      every scalar value but 0 and 0x80 to 0x9F; those by the standard's table; U+FFFD for 0, surrogates and
      everything too large. The semicolon may be missing, except behind a single decimal digit. */
  lemma NumericReference(t: Tables, x: seq<Byte>, s: seq<Byte>, n: nat, semi: bool, rest: seq<Byte>)
    requires Narrow(t) && (x == [] || x == [120] || x == [88])
    requires var base := if x == [] then 10 else 16; Spells(s, n, base) && (semi || Ends(base, rest))
    requires n < 0x8000_0000 && (semi || x != [] || |s| >= 2)
    ensures var text := Spelled(x, s, semi, rest);
            && (n > 0 && ValidRune(n) && !(0x80 <= n <= 0x9F) ==> Unescaped(t, text) == Encode(n) + Unescaped(t, rest))
            && (n == 0 || Surrogate(n) || n > 0x10FFFF ==> Unescaped(t, text) == [0xEF, 0xBF, 0xBD] + Unescaped(t, rest))
            && (0x80 <= n <= 0x9F ==>
                  Unescaped(t, text) == Encode(WINDOWS_1252[n - 0x80]) + Unescaped(t, rest))
  {
    hide Narrow, Encode, FixRune, Html.Digits, Unescaped, Spells, Spelled, Ends;
    var text := Spelled(x, s, semi, rest);
    var base, i := if x == [] then 10 else 16, 2 + |x|;
    FirstCharacter(s, n, base);
    SpelledParts(x, s, semi, rest);
    ReadsNumber(text, i, s, n, base);
    NumberEnd(text, i + |s|, n, base, semi, rest);
    assert Reference(t, text) == (Encode(FixRune(n)), i + |s| + if semi then 1 else 0);
    OneReference(t, text);
    Meaning(n);
  }

  lemma SpelledParts(x: seq<Byte>, s: seq<Byte>, semi: bool, rest: seq<Byte>)
    requires s != [] && (x == [] || x == [120] || x == [88]) && (semi || x != [] || |s| >= 2)
    ensures var text, i := Spelled(x, s, semi, rest), 2 + |x|;
            && |text| > 3 && text[0] == 38 && text[1] == 35 && text[2] == (if x == [] then s[0] else x[0])
            && i + |s| + (if semi then 1 else 0) <= |text|
            && text[i..i + |s|] == s && text[i + |s|..] == (if semi then [59] else []) + rest
            && text[i + |s| + if semi then 1 else 0..] == rest
  {
    hide Spells;
    var text, end := Spelled(x, s, semi, rest), if semi then [59] else [];
    FourPieces([38, 35] + x, s, end, rest);
    assert text == [38, 35] + x + s + end + rest;
  }

  lemma FourPieces(head: seq<Byte>, s: seq<Byte>, end: seq<Byte>, rest: seq<Byte>)
    ensures var text, i := head + s + end + rest, |head|;
            && text[..i] == head && text[i..i + |s|] == s && text[i + |s|..] == end + rest && text[i + |s| + |end|..] == rest
  {
    assert head + s + end + rest == head + s + (end + rest);
  }

  /** The first character of a number is a digit, so none of x and X in decimal. */
  lemma {:induction false} FirstCharacter(s: seq<Byte>, n: nat, base: nat)
    requires (base == 10 || base == 16) && Spells(s, n, base)
    ensures s != [] && (base == 10 ==> s[0] != 120 && s[0] != 88)
    decreases |s|
  {
    if |s| > 1 { FirstCharacter(s[..|s| - 1], n / base, base); }
  }

  lemma OneReference(t: Tables, text: seq<Byte>)
    requires Narrow(t) && text != [] && text[0] == 38
    ensures 1 <= Reference(t, text).1 <= |text|
    ensures Unescaped(t, text) == Reference(t, text).0 + Unescaped(t, text[Reference(t, text).1..])
  {
    hide Narrow, Reference;
    ReferenceShrinks(t, text);
  }

  /** A single decimal digit without a semicolon is no reference: "&#" stays, and so does what follows. */
  lemma LoneDigit(t: Tables, d: Byte, rest: seq<Byte>)
    requires Narrow(t) && 48 <= d <= 57 && Ends(10, rest)
    ensures Unescaped(t, [38, 35, d] + rest) == [38, 35, d] + Unescaped(t, rest)
  {
    hide Narrow, Unescaped, Html.Digits;
    var text := [38, 35, d] + rest;
    assert text[3..] == [] + rest;
    OneDigit(d, d - 48, 10, 0);
    DigitOnce(text, d);
    NumberEnd(text, 3, d - 48, 10, false, rest);
    assert Reference(t, text) == (text[..1], 1);
    OneReference(t, text);
    assert text[1..][..2] == [35, d] && text[1..][2..] == rest;
    Plain(t, text[1..], 2);
    assert [38] + ([35, d] + Unescaped(t, rest)) == [38, 35, d] + Unescaped(t, rest);
  }

  lemma DigitOnce(text: seq<Byte>, d: Byte)
    requires |text| >= 3 && text[2] == d && 48 <= d <= 57
    ensures Html.Digits(text, 2, false, 0) == Html.Digits(text, 3, false, d - 48)
  {
  }

  // ---- named references ----

  predicate Letter(c: Byte) { 97 <= c <= 122 || 65 <= c <= 90 || 48 <= c <= 57 }

  predicate Letters(s: seq<Byte>) { forall i :: 0 <= i < |s| ==> Letter(s[i]) }

  predicate IsEntity(t: Tables, name: seq<Byte>) { name in t.entity && t.entity[name] != 0 }

  predicate IsEntity2(t: Tables, name: seq<Byte>) { name in t.entity2 && t.entity2[name].0 != 0 }

  /** The name behind an ampersand: a run of letters and digits that ends there, with its semicolon if any. */
  predicate NameThere(letters: seq<Byte>, semi: bool, rest: seq<Byte>) {
    letters != [] && Letters(letters) && (semi || rest == [] || (!Letter(rest[0]) && rest[0] != 59))
  }

  function Name(letters: seq<Byte>, semi: bool): seq<Byte> {
    letters + if semi then [59] else []
  }

  lemma {:induction false} NameRuns(s: seq<Byte>, i: nat, e: nat)
    requires i <= e <= |s| && Letters(s[i..e]) && (e == |s| || !Letter(s[e]))
    ensures NameEnd(s, i) == if e < |s| && s[e] == 59 then e + 1 else e
    decreases e - i
  {
    if i < e {
      assert s[i] == s[i..e][0] && s[i + 1..e] == s[i..e][1..];
      NameRuns(s, i + 1, e);
    }
  }

  lemma NameFound(letters: seq<Byte>, semi: bool, rest: seq<Byte>)
    requires NameThere(letters, semi, rest)
    ensures var s, e := [38] + Name(letters, semi) + rest, 1 + |Name(letters, semi)|;
            && NameEnd(s, 1) == e && s[1..e] == Name(letters, semi) && s[e..] == rest && s[0] == 38 && s[1] != 35
            && s[..e] == [38] + Name(letters, semi)
  {
    var s, k := [38] + Name(letters, semi) + rest, 1 + |letters|;
    assert s[1..k] == letters && s[1] == letters[0];
    assert semi ==> s[k] == 59;
    assert !semi && rest != [] ==> s[k] == rest[0];
    NameRuns(s, 1, k);
  }

  /** A name that is listed, with one code point or with two, stands for them. */
  lemma NamedReference(t: Tables, letters: seq<Byte>, semi: bool, rest: seq<Byte>)
    requires Narrow(t) && NameThere(letters, semi, rest)
    ensures var name := Name(letters, semi); var text := [38] + name + rest;
            && (IsEntity(t, name) ==> Unescaped(t, text) == Encode(t.entity[name]) + Unescaped(t, rest))
            && (!IsEntity(t, name) && IsEntity2(t, name) ==>
                  Unescaped(t, text) == Encode(t.entity2[name].0) + Encode(t.entity2[name].1) + Unescaped(t, rest))
  {
    hide Narrow, Encode, NameEnd, Unescaped, PrefixEntity;
    NameFound(letters, semi, rest);
    var text := [38] + Name(letters, semi) + rest;
    NamedCases(t, text);
    OneReference(t, text);
  }

  /** j is the length of the longest proper prefix of 2 to 6 characters that is an entity on its own. */
  ghost predicate LongestPrefix(t: Tables, name: seq<Byte>, j: nat) {
    && 2 <= j <= 6 && j < |name| && IsEntity(t, name[..j])
    && forall k :: j < k <= 6 && k < |name| ==> !IsEntity(t, name[..k])
  }

  lemma {:induction false} PrefixFound(t: Tables, name: seq<Byte>, j: nat)
    requires j < |name| && j <= 6 && forall k :: j < k <= 6 && k < |name| ==> !IsEntity(t, name[..k])
    ensures PrefixEntity(t, name, j) > 0 ==> LongestPrefix(t, name, PrefixEntity(t, name, j))
    ensures PrefixEntity(t, name, j) == 0 ==> forall k :: 2 <= k <= 6 && k < |name| ==> !IsEntity(t, name[..k])
  {
    if j > 1 && !IsEntity(t, name[..j]) { PrefixFound(t, name, j - 1); }
  }

  /** A name that is not listed: its longest listed prefix of 2 to 6 characters counts and the rest is text;
      without one, the name stays as it is. */
  lemma UnlistedName(t: Tables, letters: seq<Byte>, semi: bool, rest: seq<Byte>)
    requires Narrow(t) && NameThere(letters, semi, rest)
    requires !IsEntity(t, Name(letters, semi)) && !IsEntity2(t, Name(letters, semi))
    ensures var name := Name(letters, semi); var text := [38] + name + rest;
            && (forall j: nat :: LongestPrefix(t, name, j) ==>
                  Unescaped(t, text) == Encode(t.entity[name[..j]]) + Unescaped(t, name[j..] + rest))
            && ((forall j: nat :: 2 <= j <= 6 && j < |name| ==> !IsEntity(t, name[..j])) ==>
                  Unescaped(t, text) == [38] + name + Unescaped(t, rest))
  {
    hide Narrow, Encode, NameEnd, Unescaped, PrefixEntity, IsEntity;
    NameFound(letters, semi, rest);
    var name := Name(letters, semi);
    var text := [38] + name + rest;
    NoName(t, name);
    var most := Min(|name| - 1, 6);
    PrefixFound(t, name, most);
    var p := PrefixEntity(t, name, most);
    NamedCases(t, text);
    OneReference(t, text);
    if p > 0 {
      EntityValue(t, name[..p]);
      assert text[p + 1..] == name[p..] + rest;
    }
    forall j: nat | LongestPrefix(t, name, j)
      ensures p == j
    {
    }
  }

  lemma NoName(t: Tables, name: seq<Byte>)
    requires !IsEntity(t, name) && !IsEntity2(t, name)
    ensures Lookup(t, name) == 0 && Lookup2(t, name).0 == 0
  {
  }

  lemma EntityValue(t: Tables, name: seq<Byte>)
    requires IsEntity(t, name)
    ensures name in t.entity && Lookup(t, name) == t.entity[name] != 0
  {
  }

  /** An ampersand before anything but a number sign, a letter or a digit is text. */
  lemma LoneAmpersand(t: Tables, rest: seq<Byte>)
    requires Narrow(t) && (rest == [] || (!Letter(rest[0]) && rest[0] != 35 && rest[0] != 59))
    ensures Unescaped(t, [38] + rest) == [38] + Unescaped(t, rest)
  {
    hide Narrow, Encode, Unescaped, PrefixEntity;
    var text := [38] + rest;
    assert text[1..] == rest;
    if rest != [] {
      assert text[1] == rest[0];
      NamedCases(t, text);
    }
    OneReference(t, text);
  }

  // ---- escaping ----

  /** The five replacements, in their characters; every other byte is left alone. */
  lemma Replacements(c: Byte)
    ensures EscapeString([38]) == [38, 97, 109, 112, 59] && EscapeString([39]) == [38, 35, 51, 57, 59]
    ensures EscapeString([60]) == [38, 108, 116, 59] && EscapeString([62]) == [38, 103, 116, 59]
    ensures EscapeString([34]) == [38, 35, 51, 52, 59]
    ensures c != 38 && c != 39 && c != 60 && c != 62 && c != 34 ==> EscapeString([c]) == [c]
  {
    forall b: Byte
      ensures EscapeString([b]) == EscapeByte(b)
    {
      assert [b][1..] == [];
    }
  }

  lemma {:induction false} EscapeParts(a: seq<Byte>, b: seq<Byte>)
    ensures EscapeString(a + b) == EscapeString(a) + EscapeString(b)
    decreases |a|
  {
    hide EscapeByte;
    if a == [] {
      assert a + b == b;
    } else {
      EscapeParts(a[1..], b);
      assert (a + b)[1..] == a[1..] + b;
      var first, more, last := EscapeByte(a[0]), EscapeString(a[1..]), EscapeString(b);
      assert first + (more + last) == first + more + last;
    }
  }

  /** No quote, apostrophe or angle bracket survives. */
  lemma {:induction false} EscapeSafe(s: seq<Byte>)
    ensures forall c :: c in EscapeString(s) ==> c != 39 && c != 60 && c != 62 && c != 34
  {
    if s != [] { EscapeSafe(s[1..]); }
  }

  // ---- the in-place rewrite itself ----

  /** UnescapeString on a text that is one numeric reference. */
  method UnescapeNumber(t: Tables, x: seq<Byte>, s: seq<Byte>, n: nat) returns (out: seq<Byte>)
    requires Narrow(t) && (x == [] || x == [120] || x == [88]) && Spells(s, n, if x == [] then 10 else 16)
    requires 0 < n && ValidRune(n) && !(0x80 <= n <= 0x9F)
    ensures out == Encode(n)
  {
    NumericReference(t, x, s, n, true, []);
    EmptyText(t, []);
    out := UnescapeString(t, Spelled(x, s, true, []));
  }
}
