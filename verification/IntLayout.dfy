/** What fmtInteger prints, byte by byte, with the characters written out (fmt/format.go). */
module IntLayouts {
  import opened Basics
  import opened Utf8
  import opened IntFormat

  /** An int64 or a uint64. */
  predicate Fits(v: int, isSigned: bool) {
    if isSigned then -0x8000_0000_0000_0000 <= v < 0x8000_0000_0000_0000 else 0 <= v < 0x1_0000_0000_0000_0000
  }

  /** The 64 bits the caller hands over for v. */
  function Bits(v: int, isSigned: bool): (u: Words.Word)
    requires Fits(v, isSigned)
  {
    if v < 0 then v + 0x1_0000_0000_0000_0000 else v
  }

  /** '0'..'9' and 'a'..'f' or 'A'..'F' */
  function Character(d: nat, upper: bool): Byte
    requires d < 16
  {
    if d < 10 then 48 + d else if upper then 55 + d else 87 + d
  }

  /** s writes n in the given base, perhaps with zeros in front. */
  predicate Spells(s: seq<Byte>, n: nat, base: nat, upper: bool)
    requires 2 <= base <= 16
  {
    && s != [] && s[|s| - 1] == Character(n % base, upper)
    && (if |s| == 1 then n < base else Spells(s[..|s| - 1], n / base, base, upper))
  }

  predicate Spaces(s: seq<Byte>) {
    forall i :: 0 <= i < |s| ==> s[i] == 32
  }

  /** Padding, sign, prefix, digits, padding. */
  datatype Parts = Parts(left: seq<Byte>, sign: seq<Byte>, prefix: seq<Byte>, num: seq<Byte>, right: seq<Byte>)

  function Joined(p: Parts): seq<Byte> {
    p.left + p.sign + p.prefix + p.num + p.right
  }

  function Output(f: Flags, v: int, isSigned: bool, base: nat, verbO: bool, upper: bool): seq<Byte>
    requires 2 <= base <= 16 && Fits(v, isSigned)
  {
    Printed(f, Bits(v, isSigned), base, isSigned, verbO, if upper then UDIGITS else LDIGITS)
  }

  /** '-' for a negative value; '+' or ' ' only when the flags ask for it. */
  predicate SignIs(f: Flags, v: int, sign: seq<Byte>) {
    sign == if v < 0 then [45] else if f.plus then [43] else if f.space then [32] else []
  }

  /** 0o for %O; then 0b, 0x or 0X for %#, and a 0 before an octal number that has none. */
  predicate PrefixIs(f: Flags, base: nat, verbO: bool, upper: bool, num: seq<Byte>, prefix: seq<Byte>)
    requires num != []
  {
    prefix == (if verbO then [48, 111] else [])
              + if !f.sharp || base == 10 then []
                else if base == 2 then [48, 98]
                else if base == 16 then (if upper then [48, 88] else [48, 120])
                else if num[0] == 48 then [] else [48]
  }

  /** The digits of n: as many as asked for, and no needless zero in front. */
  predicate DigitsAre(f: Flags, v: int, base: nat, upper: bool, num: seq<Byte>)
    requires 2 <= base <= 16
  {
    var least := if f.precPresent then f.prec
                 else if f.zero && !f.minus && f.widPresent then f.wid - (if v < 0 || f.plus || f.space then 1 else 0)
                 else 0;
    && Spells(num, if v < 0 then -v else v, base, upper)
    && |num| >= least && (|num| > least && |num| > 1 ==> num[0] != 48)
  }

  /** Spaces to the right under the minus flag, to the left otherwise, up to the width. */
  predicate PaddingIs(f: Flags, p: Parts) {
    && Spaces(p.left) && Spaces(p.right) && (if f.minus then p.left == [] else p.right == [])
    && var text := |p.sign| + |p.prefix| + |p.num|;
       |p.left| + |p.right| == if f.widPresent && f.wid > text then f.wid - text else 0
  }

  /** Every int64 and every uint64 under all flags: the output part by part. */
  lemma Layout(f: Flags, v: int, isSigned: bool, base: nat, verbO: bool, upper: bool) returns (p: Parts)
    requires Fits(v, isSigned) && (base == 2 || base == 8 || base == 10 || base == 16) && (verbO ==> base == 8)
    requires !(f.precPresent && f.prec == 0 && v == 0)
    ensures Output(f, v, isSigned, base, verbO, upper) == Joined(p)
    ensures p.num != [] && SignIs(f, v, p.sign) && PrefixIs(f, base, verbO, upper, p.num, p.prefix)
    ensures DigitsAre(f, v, base, upper, p.num) && PaddingIs(f, p)
  {
    hide Numeral, Repeat, Text, DigitString, Padded, Sign, Prefix, DigitsAre, SignIs, PrefixIs, PaddingIs;
    var u, digits := Bits(v, isSigned), if upper then UDIGITS else LDIGITS;
    var num := DigitString(f, u, base, isSigned, digits);
    DigitsOf(f, v, isSigned, base, upper);
    SignOf(f, v);
    PrefixOf(f, base, verbO, upper, num);
    p := Arranged(f, Sign(f, v < 0), Prefix(f, base, verbO, digits, num), num);
    TextOf(f, v, isSigned, base, verbO, upper);
  }

  lemma SignOf(f: Flags, v: int)
    ensures SignIs(f, v, Sign(f, v < 0))
  {
  }

  lemma PrefixOf(f: Flags, base: nat, verbO: bool, upper: bool, num: seq<Byte>)
    requires num != [] && (base == 2 || base == 8 || base == 10 || base == 16)
    ensures PrefixIs(f, base, verbO, upper, num, Prefix(f, base, verbO, if upper then UDIGITS else LDIGITS, num))
  {
  }

  lemma TextOf(f: Flags, v: int, isSigned: bool, base: nat, verbO: bool, upper: bool)
    requires Fits(v, isSigned) && Callable(base, verbO, LDIGITS)
    ensures var u, digits := Bits(v, isSigned), if upper then UDIGITS else LDIGITS;
            var num := DigitString(f, u, base, isSigned, digits);
            var text := Sign(f, v < 0) + Prefix(f, base, verbO, digits, num) + num;
            Text(f, u, base, isSigned, verbO, digits) == text && |DecodeAll(text)| == |text|
  {
    hide DigitString, Sign, Prefix, DecodeAll;
    TextAscii(f, Bits(v, isSigned), base, isSigned, verbO, if upper then UDIGITS else LDIGITS);
  }

  lemma Arranged(f: Flags, sign: seq<Byte>, prefix: seq<Byte>, num: seq<Byte>) returns (p: Parts)
    ensures p.sign == sign && p.prefix == prefix && p.num == num && PaddingIs(f, p)
    ensures var text := sign + prefix + num; |DecodeAll(text)| == |text| ==> Padded(f, text) == Joined(p)
  {
    hide DecodeAll;
    var text := sign + prefix + num;
    var fill := if f.widPresent then Repeat(SPACE, f.wid - |text|) else [];
    p := if f.minus then Parts([], sign, prefix, num, fill) else Parts(fill, sign, prefix, num, []);
    assert f.minus ==> Joined(p) == text + fill;
    assert !f.minus ==> Joined(p) == fill + text;
  }

  /** 0 with precision 0: no digit, no sign and no prefix, whatever the flags; only the width in spaces. */
  lemma ZeroPrecision(f: Flags, isSigned: bool, base: nat, verbO: bool, upper: bool)
    requires 2 <= base <= 16 && f.precPresent && f.prec == 0
    ensures var s := Output(f, 0, isSigned, base, verbO, upper); Spaces(s) && |s| == f.wid
  {
  }

  lemma DigitsOf(f: Flags, v: int, isSigned: bool, base: nat, upper: bool)
    requires 2 <= base <= 16 && Fits(v, isSigned)
    ensures DigitsAre(f, v, base, upper,
                      DigitString(f, Bits(v, isSigned), base, isSigned, if upper then UDIGITS else LDIGITS))
  {
    hide Numeral, Spells;
    var digits := if upper then UDIGITS else LDIGITS;
    var n: nat := if v < 0 then -v else v;
    var num := Numeral(n, base, digits);
    assert Magnitude(Bits(v, isSigned), isSigned) == n;
    var k := MinDigits(f, v < 0) - |num|;
    NumeralSpells(n, base, upper);
    ZerosSpell(k, num, n, base, upper);
  }

  lemma {:induction false} NumeralSpells(n: nat, base: nat, upper: bool)
    requires 2 <= base <= 16
    ensures var s := Numeral(n, base, if upper then UDIGITS else LDIGITS);
            Spells(s, n, base, upper) && (|s| > 1 ==> s[0] != 48)
  {
    hide Numeral, Spells;
    var digits := if upper then UDIGITS else LDIGITS;
    NumeralCases(n, base, digits);
    TableCharacter(n % base, upper);
    var s := Numeral(n, base, digits);
    if n >= base {
      NumeralSpells(n / base, base, upper);
      var high := Numeral(n / base, base, digits);
      assert s[..|s| - 1] == high;
      OneMore(high, n, base, upper);
      LeadingDigit(n / base, base, upper);
    } else {
      OneOnly(n, base, upper);
    }
  }

  lemma TableCharacter(d: nat, upper: bool)
    requires d < 16
    ensures (if upper then UDIGITS else LDIGITS)[d] == Character(d, upper) && (d > 0 ==> Character(d, upper) != 48)
  {
  }

  lemma OneOnly(n: nat, base: nat, upper: bool)
    requires 2 <= base <= 16 && n < base
    ensures n % base == n && Spells([Character(n, upper)], n, base, upper)
  {
  }

  lemma OneMore(high: seq<Byte>, n: nat, base: nat, upper: bool)
    requires 2 <= base <= 16 && Spells(high, n / base, base, upper)
    ensures Spells(high + [Character(n % base, upper)], n, base, upper)
  {
    assert (high + [Character(n % base, upper)])[..|high|] == high;
  }

  /** A positive number does not begin with 0. */
  lemma {:induction false} LeadingDigit(n: nat, base: nat, upper: bool)
    requires 2 <= base <= 16 && n > 0
    ensures Numeral(n, base, if upper then UDIGITS else LDIGITS)[0] != 48
    decreases n
  {
    var digits := if upper then UDIGITS else LDIGITS;
    NumeralCases(n, base, digits);
    if n >= base {
      Quotient(n, base);
      LeadingDigit(n / base, base, upper);
    } else {
      TableCharacter(n, upper);
    }
  }

  lemma Quotient(n: nat, base: nat)
    requires 2 <= base <= n
    ensures 0 < n / base < n
  {
    Pow2s.DivMod(n, base);
  }

  /** Zeros in front do not change what is spelled. */
  lemma {:induction false} ZerosSpell(k: int, s: seq<Byte>, n: nat, base: nat, upper: bool)
    requires 2 <= base <= 16 && Spells(s, n, base, upper)
    ensures Spells(Repeat(ZERO, k) + s, n, base, upper)
    decreases |s|
  {
    hide Character;
    var z, high := Repeat(ZERO, k), s[..|s| - 1];
    assert s == high + [s[|s| - 1]] && z + s == z + high + [s[|s| - 1]];
    if |s| > 1 {
      ZerosSpell(k, high, n / base, base, upper);
      OneMore(z + high, n, base, upper);
    } else if z == [] {
      assert z + s == s;
    } else {
      ZerosOnly(z, base, upper);
      OneOnly(n, base, upper);
      NoneHigher(n, base);
      OneMore(z, n, base, upper);
      assert z + s == z + [s[0]];
    }
  }

  lemma NoneHigher(n: nat, base: nat)
    requires n < base
    ensures n / base == 0
  {
  }

  lemma {:induction false} ZerosOnly(z: seq<Byte>, base: nat, upper: bool)
    requires 2 <= base <= 16 && forall i :: 0 <= i < |z| ==> z[i] == 48
    ensures z != [] ==> Spells(z, 0, base, upper)
  {
    if z != [] {
      ZerosOnly(z[..|z| - 1], base, upper);
    }
  }

  /** Without flags, width and precision a value that is not negative prints its digits and nothing else. */
  lemma PlainOutput(f: Flags, v: nat, isSigned: bool, base: nat, upper: bool)
    requires Fits(v, isSigned) && (base == 2 || base == 8 || base == 10 || base == 16)
    requires !f.widPresent && !f.precPresent && !f.plus && !f.space && !f.sharp
    ensures var s := Output(f, v, isSigned, base, false, upper);
            Spells(s, v, base, upper) && (|s| > 1 ==> s[0] != 48)
  {
    hide Spells, Output;
    var p := Layout(f, v, isSigned, base, false, upper);
    assert Joined(p) == p.num;
  }
}
