/** Integer formatting in package fmt (fmt/format.go): digits written from right to left into a fixed
    buffer, then precision, prefix, sign and padding. */
module IntFormat {
  import opened Basics
  import opened Pow2s
  import opened Utf8
  import opened Words

  const ZERO: Byte := 48
  const SPACE: Byte := 32
  const PLUS: Byte := 43
  const MINUS: Byte := 45
  const INTBUF: nat := 68

  /** ldigits and udigits: "0123456789abcdefx" and "0123456789ABCDEFX". */
  const LDIGITS: seq<Byte> := [48, 49, 50, 51, 52, 53, 54, 55, 56, 57, 97, 98, 99, 100, 101, 102, 120]
  const UDIGITS: seq<Byte> := [48, 49, 50, 51, 52, 53, 54, 55, 56, 57, 65, 66, 67, 68, 69, 70, 88]

  /** fmtFlags, wid and prec. */
  datatype Flags = Flags(widPresent: bool, precPresent: bool, minus: bool, plus: bool, sharp: bool, space: bool,
                         zero: bool, wid: nat, prec: nat)

  /** What the callers in print.go pass: a base, the verb 'O' only with base 8, one of the digit tables. */
  predicate Callable(base: nat, verbO: bool, digits: seq<Byte>) {
    (base == 2 || base == 8 || base == 10 || base == 16) && (verbO ==> base == 8) && (digits == LDIGITS || digits == UDIGITS)
  }

  // ---- what is printed ----

  /** The number the word stands for. */
  function Value(u: Word, isSigned: bool): int {
    if isSigned && u >= 0x8000_0000_0000_0000 then u - WORD else u
  }

  function Magnitude(u: Word, isSigned: bool): nat {
    var v := Value(u, isSigned);
    if v < 0 then -v else v
  }

  /** n in positional notation, at least one digit, no leading zeros. */
  function Numeral(n: nat, base: nat, digits: seq<Byte>): (s: seq<Byte>)
    requires 2 <= base <= 16 && |digits| == 17
    ensures s != []
  {
    if n < base then [digits[n]] else Numeral(n / base, base, digits) + [digits[n % base]]
  }

  function Repeat(c: Byte, n: int): (s: seq<Byte>)
    ensures |s| == if n < 0 then 0 else n
    ensures forall i :: 0 <= i < |s| ==> s[i] == c
    decreases if n < 0 then 0 else n
  {
    if n <= 0 then [] else [c] + Repeat(c, n - 1)
  }

  /** Least number of digits asked for, by precision or by zero padding. */
  function MinDigits(f: Flags, negative: bool): int {
    if f.precPresent then f.prec
    else if f.zero && !f.minus && f.widPresent then f.wid - (if negative || f.plus || f.space then 1 else 0)
    else 0
  }

  function DigitString(f: Flags, u: Word, base: nat, isSigned: bool, digits: seq<Byte>): (s: seq<Byte>)
    requires 2 <= base <= 16 && |digits| == 17
    ensures s != []
  {
    var num := Numeral(Magnitude(u, isSigned), base, digits);
    Repeat(ZERO, MinDigits(f, Value(u, isSigned) < 0) - |num|) + num
  }

  /** 0b, 0, 0x or 0X for %# */
  function BasePrefix(f: Flags, base: nat, digits: seq<Byte>, num: seq<Byte>): seq<Byte>
    requires |digits| == 17 && num != []
  {
    if !f.sharp then []
    else if base == 2 then [ZERO, 98]
    else if base == 8 then (if num[0] != ZERO then [ZERO] else [])
    else if base == 16 then [ZERO, digits[16]] else []
  }

  /** ... and 0o for %O. */
  function Prefix(f: Flags, base: nat, verbO: bool, digits: seq<Byte>, num: seq<Byte>): seq<Byte>
    requires |digits| == 17 && num != []
  {
    (if verbO then [ZERO, 111] else []) + BasePrefix(f, base, digits, num)
  }

  function Sign(f: Flags, negative: bool): seq<Byte> {
    if negative then [MINUS] else if f.plus then [PLUS] else if f.space then [SPACE] else []
  }

  /** The digit-free case. */
  predicate Blank(f: Flags, u: Word) { f.precPresent && f.prec == 0 && u == 0 }

  function Text(f: Flags, u: Word, base: nat, isSigned: bool, verbO: bool, digits: seq<Byte>): seq<Byte>
    requires 2 <= base <= 16 && |digits| == 17
  {
    var num := DigitString(f, u, base, isSigned, digits);
    Sign(f, Value(u, isSigned) < 0) + Prefix(f, base, verbO, digits, num) + num
  }

  /** pad: spaces up to the width, left or right. */
  function Padded(f: Flags, text: seq<Byte>): seq<Byte> {
    if !f.widPresent || f.wid == 0 then text
    else
      var fill := Repeat(SPACE, f.wid - |DecodeAll(text)|);
      if f.minus then text + fill else fill + text
  }

  function Printed(f: Flags, u: Word, base: nat, isSigned: bool, verbO: bool, digits: seq<Byte>): seq<Byte>
    requires 2 <= base <= 16 && |digits| == 17
  {
    if Blank(f, u) then Repeat(SPACE, f.wid) else Padded(f, Text(f, u, base, isSigned, verbO, digits))
  }

  // ---- the formatter ----

  class Fmt {
    var out: seq<Byte>
    var f: Flags
    const intbuf: array<Byte>

    constructor (flags: Flags)
      ensures out == [] && f == flags && intbuf.Length == INTBUF && fresh(intbuf)
    {
      out, f := [], flags;
      intbuf := new Byte[INTBUF](_ => 0);
    }

    method WritePadding(n: int)
      modifies this`out
      ensures out == old(out) + Repeat(if f.zero && !f.minus then ZERO else SPACE, n)
    {
      if n <= 0 {
        return;
      }
      var padByte := SPACE;
      if f.zero && !f.minus {
        padByte := ZERO;
      }
      var padding := new Byte[n](_ => padByte);
      AllSame(padding[..], padByte);
      out := out + padding[..];
    }

    method Pad(b: seq<Byte>)
      requires !f.zero
      modifies this`out
      ensures out == old(out) + Padded(f, b)
    {
      if !f.widPresent || f.wid == 0 {
        out := out + b;
        return;
      }
      var width := f.wid - |DecodeAll(b)|;
      if !f.minus {
        WritePadding(width);
        out := out + b;
      } else {
        out := out + b;
        WritePadding(width);
      }
    }

    /** The 68 bytes of intbuf, or a bigger buffer when width or precision may ask for it. */
    method ChooseBuffer() returns (buf: array<Byte>)
      requires intbuf.Length == INTBUF
      ensures buf == intbuf || fresh(buf)
      ensures buf.Length >= INTBUF && (f.widPresent || f.precPresent ==> buf.Length >= 3 + f.wid + f.prec)
    {
      buf := intbuf;
      if f.widPresent || f.precPresent {
        var width := 3 + f.wid + f.prec;
        if width > buf.Length {
          buf := new Byte[width](_ => 0);
        }
      }
    }

    /** The digit-free case: only padding, with spaces. */
    method PrintNothing()
      modifies this`out, this`f
      ensures f == old(f) && out == old(out) + Repeat(SPACE, f.wid)
    {
      var oldZero := f.zero;
      f := f.(zero := false);
      WritePadding(f.wid);
      f := f.(zero := oldZero);
    }

    /** The text, padded with spaces whatever the zero flag says. */
    method PadSpaces(text: seq<Byte>)
      modifies this`out, this`f
      ensures f == old(f) && out == old(out) + Padded(f, text)
    {
      SamePadding(f, text);
      var oldZero := f.zero;
      f := f.(zero := false);
      Pad(text);
      f := f.(zero := oldZero);
    }

    /** fmtInteger: never writes outside its buffer, and appends exactly what is to be printed. */
    method FmtInteger(u0: Word, base: nat, isSigned: bool, verbO: bool, digits: seq<Byte>)
      requires Callable(base, verbO, digits) && intbuf.Length == INTBUF
      modifies this`out, this`f, intbuf
      ensures f == old(f) && out == old(out) + Printed(f, u0, base, isSigned, verbO, digits)
    {
      hide Numeral, Repeat, Padded, Text, MinDigits;
      var negative := isSigned && u0 >= 0x8000_0000_0000_0000;
      var u := u0;
      if negative {
        u := SubW(0, u);
      }
      var buf := ChooseBuffer();
      var prec: int := 0;
      if f.precPresent {
        prec := f.prec;
        if prec == 0 && u == 0 {
          PrintNothing();
          return;
        }
      } else if f.zero && !f.minus && f.widPresent {
        prec := f.wid;
        if negative || f.plus || f.space {
          prec := prec - 1;
        }
      }
      Precision(f, negative, prec);
      var i := PutText(buf, f, u, base, verbO, digits, prec, negative, u0, isSigned);
      PadSpaces(buf[i..]);
    }
  }

  lemma Precision(f: Flags, negative: bool, prec: int)
    requires if f.precPresent then prec == f.prec
             else if f.zero && !f.minus && f.widPresent then prec == f.wid - (if negative || f.plus || f.space then 1 else 0)
             else prec == 0
    ensures prec == MinDigits(f, negative)
  {
  }

  lemma SamePadding(f: Flags, text: seq<Byte>)
    ensures Padded(f.(zero := false), text) == Padded(f, text)
  {
  }

  lemma {:induction false} AllSame(s: seq<Byte>, c: Byte)
    requires forall i :: 0 <= i < |s| ==> s[i] == c
    ensures s == Repeat(c, |s|)
  {
    if s != [] {
      AllSame(s[1..], c);
    }
  }

  // ---- writing from right to left ----

  /** i--; buf[i] = c */
  method Push(buf: array<Byte>, i0: nat, c: Byte) returns (i: nat)
    requires 0 < i0 <= buf.Length
    modifies buf
    ensures i == i0 - 1 && buf[i..] == [c] + old(buf[i0..])
  {
    i := i0 - 1;
    buf[i] := c;
  }

  lemma {:induction false} NumeralLength(n: nat, base: nat, digits: seq<Byte>, k: nat)
    requires 2 <= base <= 16 && |digits| == 17 && k >= 1 && n < Pow2(k)
    ensures |Numeral(n, base, digits)| <= k
    decreases k
  {
    if n >= base {
      assert k > 1;
      HalfOrLess(n, base, Pow2(k - 1));
      NumeralLength(n / base, base, digits, k - 1);
    }
  }

  lemma HalfOrLess(n: nat, base: nat, p: nat)
    requires base >= 2 && n < 2 * p
    ensures n / base < p
  {
    DivMod(n, base);
    MulMono(2, base, n / base);
  }

  /** The part of num left of `tail` is the numeral of u. */
  ghost predicate Left(num: seq<Byte>, u: nat, base: nat, digits: seq<Byte>, tail: seq<Byte>)
    requires 2 <= base <= 16 && |digits| == 17
  {
    num == Numeral(u, base, digits) + tail
  }

  /** One digit moves from the number to the buffer. */
  lemma NextDigit(num: seq<Byte>, u: nat, base: nat, digits: seq<Byte>, tail: seq<Byte>)
    requires 2 <= base <= 16 && |digits| == 17 && u >= base && Left(num, u, base, digits, tail)
    ensures Left(num, u / base, base, digits, [digits[u % base]] + tail) && |tail| + 2 <= |num|
  {
    var q := Numeral(u / base, base, digits);
    assert q + [digits[u % base]] + tail == q + ([digits[u % base]] + tail);
  }

  lemma DigitChar(d: nat, digits: seq<Byte>)
    requires d < 10 && (digits == LDIGITS || digits == UDIGITS)
    ensures digits[d] == ZERO + d
  {
  }

  lemma Word64(u: Word, base: nat, digits: seq<Byte>)
    requires 2 <= base <= 16 && |digits| == 17
    ensures |Numeral(u, base, digits)| <= 64
  {
    Pow2Values();
    NumeralLength(u, base, digits, 64);
  }

  lemma Masked(u: Word, k: nat)
    ensures And(u, Pow2(k) - 1) == u % Pow2(k) && Shr(u, k) == u / Pow2(k)
    ensures Pow2(1) == 2 && Pow2(3) == 8 && Pow2(4) == 16
  {
    AndMask(u, k);
    Pow2Small();
    assert Pow2(4) == 2 * Pow2(3);
  }

  /** The digits of u0 but the leading one, which is left in u: one loop for each base. */
  method PutDigits(buf: array<Byte>, u0: Word, base: nat, digits: seq<Byte>) returns (u: Word, i: nat)
    requires Callable(base, false, digits) && buf.Length >= 64
    modifies buf
    ensures u < base && 0 < i <= buf.Length && buf.Length - i < 64
    ensures Numeral(u0, base, digits) == [digits[u]] + buf[i..]
  {
    hide Numeral, Left;
    Word64(u0, base, digits);
    StartLeft(u0, base, digits);
    ghost var num := Numeral(u0, base, digits);
    assert buf[buf.Length..] == [];
    if base == 10 {
      u, i := LowDecimal(buf, u0, digits, num);
    } else if base == 16 {
      u, i := LowHex(buf, u0, digits, num);
    } else if base == 8 {
      u, i := LowOctal(buf, u0, digits, num);
    } else {
      u, i := LowBinary(buf, u0, digits, num);
    }
    LastDigit(num, u, base, digits, buf[i..]);
  }

  lemma StartLeft(u: nat, base: nat, digits: seq<Byte>)
    requires 2 <= base <= 16 && |digits| == 17
    ensures Left(Numeral(u, base, digits), u, base, digits, [])
  {
  }

  lemma LastDigit(num: seq<Byte>, u: nat, base: nat, digits: seq<Byte>, tail: seq<Byte>)
    requires 2 <= base <= 16 && |digits| == 17 && u < base && Left(num, u, base, digits, tail)
    ensures num == [digits[u]] + tail
  {
  }

  method LowDecimal(buf: array<Byte>, u0: Word, digits: seq<Byte>, ghost num: seq<Byte>) returns (u: Word, i: nat)
    requires (digits == LDIGITS || digits == UDIGITS) && buf.Length >= |num| && Left(num, u0, 10, digits, [])
    modifies buf
    ensures u < 10 && i <= buf.Length && Left(num, u, 10, digits, buf[i..])
  {
    hide Numeral, Left;
    u, i := u0, buf.Length;
    assert buf[i..] == [];
    while u >= 10
      invariant i <= buf.Length && Left(num, u, 10, digits, buf[i..])
    {
      NextDigit(num, u, 10, digits, buf[i..]);
      DigitChar(u % 10, digits);
      var next := u / 10;
      i := Push(buf, i, ZERO + u - next * 10);
      u := next;
    }
  }

  method LowHex(buf: array<Byte>, u0: Word, digits: seq<Byte>, ghost num: seq<Byte>) returns (u: Word, i: nat)
    requires (digits == LDIGITS || digits == UDIGITS) && buf.Length >= |num| && Left(num, u0, 16, digits, [])
    modifies buf
    ensures u < 16 && i <= buf.Length && Left(num, u, 16, digits, buf[i..])
  {
    hide Numeral, Left, And;
    u, i := u0, buf.Length;
    assert buf[i..] == [];
    while u >= 16
      invariant i <= buf.Length && Left(num, u, 16, digits, buf[i..])
    {
      NextDigit(num, u, 16, digits, buf[i..]);
      Masked(u, 4);
      i := Push(buf, i, digits[And(u, 0xF)]);
      u := Shr(u, 4);
    }
  }

  method LowOctal(buf: array<Byte>, u0: Word, digits: seq<Byte>, ghost num: seq<Byte>) returns (u: Word, i: nat)
    requires (digits == LDIGITS || digits == UDIGITS) && buf.Length >= |num| && Left(num, u0, 8, digits, [])
    modifies buf
    ensures u < 8 && i <= buf.Length && Left(num, u, 8, digits, buf[i..])
  {
    hide Numeral, Left, And;
    u, i := u0, buf.Length;
    assert buf[i..] == [];
    while u >= 8
      invariant i <= buf.Length && Left(num, u, 8, digits, buf[i..])
    {
      NextDigit(num, u, 8, digits, buf[i..]);
      Masked(u, 3);
      DigitChar(u % 8, digits);
      i := Push(buf, i, ZERO + And(u, 7));
      u := Shr(u, 3);
    }
  }

  method LowBinary(buf: array<Byte>, u0: Word, digits: seq<Byte>, ghost num: seq<Byte>) returns (u: Word, i: nat)
    requires (digits == LDIGITS || digits == UDIGITS) && buf.Length >= |num| && Left(num, u0, 2, digits, [])
    modifies buf
    ensures u < 2 && i <= buf.Length && Left(num, u, 2, digits, buf[i..])
  {
    hide Numeral, Left, And;
    u, i := u0, buf.Length;
    assert buf[i..] == [];
    while u >= 2
      invariant i <= buf.Length && Left(num, u, 2, digits, buf[i..])
    {
      NextDigit(num, u, 2, digits, buf[i..]);
      Masked(u, 1);
      DigitChar(u % 2, digits);
      i := Push(buf, i, ZERO + And(u, 1));
      u := Shr(u, 1);
    }
  }

  /** Zeros in front until the precision is reached. */
  method PutZeros(buf: array<Byte>, i0: nat, prec: int) returns (i: nat)
    requires i0 <= buf.Length && prec <= buf.Length
    modifies buf
    ensures i <= i0 && buf[i..] == Repeat(ZERO, prec - (buf.Length - i0)) + old(buf[i0..])
  {
    hide Repeat;
    i := i0;
    ghost var tail := buf[i0..];
    NoZeros(prec - (buf.Length - i0), tail);
    while i > 0 && prec > buf.Length - i
      invariant i <= i0 && buf[i..] == Repeat(ZERO, i0 - i) + tail
      invariant i < i0 ==> prec >= buf.Length - i
    {
      OneZero(i0 - i, tail);
      i := Push(buf, i, ZERO);
    }
  }

  lemma NoZeros(k: int, tail: seq<Byte>)
    ensures k <= 0 ==> Repeat(ZERO, k) + tail == tail
    ensures Repeat(ZERO, 0) + tail == tail
  {
  }

  lemma OneZero(k: nat, tail: seq<Byte>)
    ensures [ZERO] + (Repeat(ZERO, k) + tail) == Repeat(ZERO, k + 1) + tail
  {
  }

  /** Digits, leading zeros, prefix and sign, from right to left. */
  method PutText(buf: array<Byte>, f: Flags, u: Word, base: nat, verbO: bool, digits: seq<Byte>, prec: int, negative: bool,
                 ghost u0: Word, ghost isSigned: bool) returns (i: nat)
    requires Callable(base, verbO, digits) && buf.Length >= INTBUF && buf.Length >= 3 + prec
    requires u == Magnitude(u0, isSigned) && (negative <==> Value(u0, isSigned) < 0) && prec == MinDigits(f, negative)
    modifies buf
    ensures i <= buf.Length && buf[i..] == Text(f, u0, base, isSigned, verbO, digits)
  {
    hide Numeral, Repeat, Prefix, BasePrefix, Sign, MinDigits, Magnitude, Value;
    var lead;
    lead, i := PutDigits(buf, u, base, digits);
    i := Push(buf, i, digits[lead]);
    i := PutZeros(buf, i, prec);
    ghost var num := DigitString(f, u0, base, isSigned, digits);
    assert buf[i..] == num;
    i := PutBase(buf, i, f, base, digits);
    i := PutO(buf, i, verbO);
    ghost var prefix := Prefix(f, base, verbO, digits, num);
    PrefixParts(f, base, verbO, digits, num);
    i := PutSign(buf, i, f, negative);
    assert Sign(f, negative) + (prefix + num) == Sign(f, negative) + prefix + num;
  }

  lemma PrefixParts(f: Flags, base: nat, verbO: bool, digits: seq<Byte>, num: seq<Byte>)
    requires |digits| == 17 && num != []
    ensures Prefix(f, base, verbO, digits, num) + num
            == (if verbO then [ZERO, 111] else []) + (BasePrefix(f, base, digits, num) + num)
  {
  }

  /** 0b, 0, 0x */
  method PutBase(buf: array<Byte>, i0: nat, f: Flags, base: nat, digits: seq<Byte>) returns (i: nat)
    requires |digits| == 17 && 3 <= i0 < buf.Length && (base == 8 && buf[i0] != ZERO ==> i0 >= 4)
    modifies buf
    ensures i <= i0 && i >= (if base == 8 then 3 else 1)
    ensures buf[i..] == BasePrefix(f, base, digits, old(buf[i0..])) + old(buf[i0..])
  {
    i := i0;
    if f.sharp {
      if base == 2 {
        i := Push(buf, i, 98);
        i := Push(buf, i, ZERO);
      } else if base == 8 {
        if buf[i] != ZERO {
          i := Push(buf, i, ZERO);
        }
      } else if base == 16 {
        i := Push(buf, i, digits[16]);
        i := Push(buf, i, ZERO);
      }
    }
  }

  /** 0o */
  method PutO(buf: array<Byte>, i0: nat, verbO: bool) returns (i: nat)
    requires i0 <= buf.Length && (verbO ==> i0 >= 3) && i0 >= 1
    modifies buf
    ensures 1 <= i <= i0 && buf[i..] == (if verbO then [ZERO, 111] else []) + old(buf[i0..])
  {
    i := i0;
    if verbO {
      i := Push(buf, i, 111);
      i := Push(buf, i, ZERO);
    }
  }

  method PutSign(buf: array<Byte>, i0: nat, f: Flags, negative: bool) returns (i: nat)
    requires 1 <= i0 <= buf.Length
    modifies buf
    ensures i <= i0 && buf[i..] == Sign(f, negative) + old(buf[i0..])
  {
    i := i0;
    if negative {
      i := Push(buf, i, MINUS);
    } else if f.plus {
      i := Push(buf, i, PLUS);
    } else if f.space {
      i := Push(buf, i, SPACE);
    }
  }

  // ---- reading it back ----

  /** The value of a digit character; -1 for anything else. */
  function DigitValue(c: Byte): int {
    if 48 <= c <= 57 then c - 48 else if 97 <= c <= 102 then c - 87 else if 65 <= c <= 70 then c - 55 else -1
  }

  function SkipSpaces(s: seq<Byte>): seq<Byte> {
    if s != [] && s[0] == SPACE then SkipSpaces(s[1..]) else s
  }

  function Append(acc: nat, base: nat, d: nat): nat {
    assert acc * base >= 0;
    acc * base + d
  }

  /** Digits from left to right, up to the first other character. */
  function Scan(s: seq<Byte>, base: nat, acc: nat): nat {
    if s == [] || DigitValue(s[0]) < 0 then acc else Scan(s[1..], base, Append(acc, base, DigitValue(s[0])))
  }

  /** An integer after spaces and a sign, with `skip` characters of prefix in front of its digits. */
  function ReadInt(s: seq<Byte>, base: nat, skip: nat): int {
    var t := SkipSpaces(s);
    var negative := t != [] && t[0] == MINUS;
    var unsigned := if negative || (t != [] && t[0] == PLUS) then t[1..] else t;
    var n: int := Scan(if skip <= |unsigned| then unsigned[skip..] else [], base, 0);
    if negative then -n else n
  }

  /** Characters of prefix that are not digits of the number: 0o, 0b, 0x. */
  function PrefixLength(f: Flags, base: nat, verbO: bool): nat {
    (if verbO then 2 else 0) + (if f.sharp && (base == 2 || base == 16) then 2 else 0)
  }

  predicate AllDigits(s: seq<Byte>) {
    forall i :: 0 <= i < |s| ==> DigitValue(s[i]) >= 0
  }

  /** Digits, one byte each. */
  predicate Plain(s: seq<Byte>) {
    AllDigits(s) && forall i :: 0 <= i < |s| ==> s[i] < RUNE_SELF
  }

  lemma {:induction false} ScanMore(s: seq<Byte>, rest: seq<Byte>, base: nat, acc: nat)
    requires AllDigits(s)
    ensures Scan(s + rest, base, acc) == Scan(rest, base, Scan(s, base, acc))
    decreases |s|
  {
    if s == [] {
      assert s + rest == rest;
    } else {
      var next := Append(acc, base, DigitValue(s[0]));
      ScanMore(s[1..], rest, base, next);
      assert (s + rest)[1..] == s[1..] + rest;
    }
  }

  /** digits[d] is the one-byte character of d. */
  predicate Table(digits: seq<Byte>) {
    |digits| == 17 && forall d :: 0 <= d < 16 ==> DigitValue(digits[d]) == d && digits[d] < RUNE_SELF
  }

  lemma TwoTables()
    ensures Table(LDIGITS) && Table(UDIGITS)
  {
  }

  lemma ScanOne(c: Byte, base: nat, acc: nat)
    requires DigitValue(c) >= 0
    ensures Scan([c], base, acc) == Append(acc, base, DigitValue(c))
  {
    assert [c][1..] == [];
  }

  /** Scanning a numeral gives the number: the digits are those of n, in the right order. */
  lemma {:induction false} ScanNumeral(n: nat, base: nat, digits: seq<Byte>)
    requires 2 <= base <= 16 && Table(digits)
    ensures Plain(Numeral(n, base, digits)) && Scan(Numeral(n, base, digits), base, 0) == n
  {
    hide Scan, DigitValue, Numeral;
    NumeralCases(n, base, digits);
    var c := digits[n % base];
    if n >= base {
      var high := Numeral(n / base, base, digits);
      ScanNumeral(n / base, base, digits);
      ScanMore(high, [c], base, 0);
      ScanOne(c, base, n / base);
    } else {
      ScanOne(c, base, 0);
    }
  }

  lemma NumeralCases(n: nat, base: nat, digits: seq<Byte>)
    requires 2 <= base <= 16 && |digits| == 17
    ensures n < base ==> n % base == n && Numeral(n, base, digits) == [digits[n % base]]
    ensures n >= base ==> 0 <= n / base < n && Append(n / base, base, n % base) == n
                          && Numeral(n, base, digits) == Numeral(n / base, base, digits) + [digits[n % base]]
  {
    DivMod(n, base);
    Smaller(n, base);
  }

  lemma Smaller(n: nat, base: nat)
    requires base >= 2
    ensures n >= base ==> 0 <= n / base < n
    ensures n < base ==> n % base == n
  {
    DivMod(n, base);
    if n >= base { MulMono(2, base, n / base); }
  }

  lemma {:induction false} ScanZeros(k: int, base: nat)
    ensures Plain(Repeat(ZERO, k)) && Scan(Repeat(ZERO, k), base, 0) == 0
    decreases if k < 0 then 0 else k
  {
    if k > 0 {
      ScanZeros(k - 1, base);
      assert Repeat(ZERO, k)[1..] == Repeat(ZERO, k - 1);
      assert Append(0, base, 0) == 0;
    }
  }

  lemma ScanStop(rest: seq<Byte>, base: nat, acc: nat)
    requires rest == [] || DigitValue(rest[0]) < 0
    ensures Scan(rest, base, acc) == acc
  {
  }

  /** Zeros, a numeral, and anything that is not a digit. */
  lemma ScanParts(zeros: seq<Byte>, num: seq<Byte>, rest: seq<Byte>, base: nat, n: nat)
    requires Plain(zeros) && Scan(zeros, base, 0) == 0 && Plain(num) && Scan(num, base, 0) == n
    requires rest == [] || DigitValue(rest[0]) < 0
    ensures Scan(zeros + num + rest, base, 0) == n
  {
    hide Scan;
    ScanMore(num, rest, base, 0);
    ScanMore(zeros, num + rest, base, 0);
    ScanStop(rest, base, n);
    assert zeros + num + rest == zeros + (num + rest);
  }

  /** The digits as printed are digits and stand for the magnitude. */
  lemma DigitStringValue(f: Flags, u: Word, base: nat, isSigned: bool, digits: seq<Byte>)
    requires 2 <= base <= 16 && (digits == LDIGITS || digits == UDIGITS)
    ensures var s := DigitString(f, u, base, isSigned, digits);
            Plain(s) && Scan(s, base, 0) == Magnitude(u, isSigned) && |s| >= MinDigits(f, Value(u, isSigned) < 0)
  {
    hide Scan, Numeral, MinDigits, Magnitude, Value, Repeat;
    var n := Magnitude(u, isSigned);
    var num := Numeral(n, base, digits);
    var k := MinDigits(f, Value(u, isSigned) < 0) - |num|;
    TwoTables();
    ScanNumeral(n, base, digits);
    ScanZeros(k, base);
    ScanParts(Repeat(ZERO, k), num, [], base, n);
    assert Repeat(ZERO, k) + num + [] == Repeat(ZERO, k) + num;
  }

  lemma {:induction false} SkipRepeat(k: int, s: seq<Byte>)
    ensures SkipSpaces(Repeat(SPACE, k) + s) == SkipSpaces(s)
    decreases if k < 0 then 0 else k
  {
    if k <= 0 {
      assert Repeat(SPACE, k) + s == s;
    } else {
      SkipRepeat(k - 1, s);
      assert (Repeat(SPACE, k) + s)[1..] == Repeat(SPACE, k - 1) + s;
    }
  }

  /** What stands behind sign and prefix: the digits, perhaps with the 0 that marks octal. */
  lemma PrefixSkipped(f: Flags, base: nat, verbO: bool, digits: seq<Byte>, num: seq<Byte>)
    requires Callable(base, verbO, digits) && num != [] && Plain(num)
    ensures var prefix, skip := Prefix(f, base, verbO, digits, num), PrefixLength(f, base, verbO);
            && skip <= |prefix| && (prefix[skip..] == [] || prefix[skip..] == [ZERO])
            && DigitValue((prefix + num)[0]) >= 0
  {
  }

  lemma ReadSigned(sign: seq<Byte>, body: seq<Byte>, base: nat, skip: nat)
    requires sign == [] || sign == [MINUS] || sign == [PLUS] || sign == [SPACE]
    requires body != [] && DigitValue(body[0]) >= 0 && skip <= |body|
    ensures var n: int := Scan(body[skip..], base, 0);
            ReadInt(sign + body, base, skip) == if sign == [MINUS] then -n else n
  {
    hide Scan;
    assert (sign + body)[|sign|..] == body;
    assert SkipSpaces(body) == body;
    if sign == [SPACE] { assert SkipSpaces(sign + body) == SkipSpaces(body); }
  }

  /** The text, with anything but a digit behind it, reads as the value. */
  lemma ReadText(f: Flags, u: Word, base: nat, isSigned: bool, verbO: bool, digits: seq<Byte>, rest: seq<Byte>)
    requires Callable(base, verbO, digits) && (rest == [] || DigitValue(rest[0]) < 0)
    ensures ReadInt(Text(f, u, base, isSigned, verbO, digits) + rest, base, PrefixLength(f, base, verbO)) == Value(u, isSigned)
  {
    hide Scan, DigitString, MinDigits, Prefix, PrefixLength, ReadInt, Plain, DigitValue, Sign, Magnitude, Value;
    SignShape(f, u, isSigned);
    var num := DigitString(f, u, base, isSigned, digits);
    DigitStringValue(f, u, base, isSigned, digits);
    var sign := Sign(f, Value(u, isSigned) < 0);
    var prefix, skip := Prefix(f, base, verbO, digits, num), PrefixLength(f, base, verbO);
    PrefixSkipped(f, base, verbO, digits, num);
    var body := prefix + num + rest;
    assert body[0] == (prefix + num)[0];
    DropFront(prefix, num, rest, skip);
    ZeroOrNone(prefix[skip..], base);
    ScanParts(prefix[skip..], num, rest, base, Magnitude(u, isSigned));
    ReadSigned(sign, body, base, skip);
    assert sign + prefix + num + rest == sign + body;
  }

  lemma DropFront(prefix: seq<Byte>, num: seq<Byte>, rest: seq<Byte>, skip: nat)
    requires skip <= |prefix|
    ensures (prefix + num + rest)[skip..] == prefix[skip..] + num + rest
  {
  }

  lemma SignShape(f: Flags, u: Word, isSigned: bool)
    ensures var sign := Sign(f, Value(u, isSigned) < 0);
            && (sign == [] || sign == [MINUS] || sign == [PLUS] || sign == [SPACE])
            && Value(u, isSigned) == if sign == [MINUS] then 0 - Magnitude(u, isSigned) else Magnitude(u, isSigned)
  {
  }

  lemma ZeroOrNone(extra: seq<Byte>, base: nat)
    requires extra == [] || extra == [ZERO]
    ensures Plain(extra) && Scan(extra, base, 0) == 0
  {
    if extra == [ZERO] { ScanOne(ZERO, base, 0); }
  }

  /** Whatever the flags, width and precision: reading the output gives the value back, including the
      most negative one, except in the one digit-free case, where the value is 0. */
  lemma ReadBack(f: Flags, u: Word, base: nat, isSigned: bool, verbO: bool, digits: seq<Byte>)
    requires Callable(base, verbO, digits)
    ensures Blank(f, u) ==> Value(u, isSigned) == 0 && ReadInt(Printed(f, u, base, isSigned, verbO, digits), base, 0) == 0
    ensures !Blank(f, u) ==>
              ReadInt(Printed(f, u, base, isSigned, verbO, digits), base, PrefixLength(f, base, verbO)) == Value(u, isSigned)
  {
    hide Text, Scan;
    var text := Text(f, u, base, isSigned, verbO, digits);
    if Blank(f, u) {
      SkipRepeat(f.wid, []);
      assert Repeat(SPACE, f.wid) + [] == Repeat(SPACE, f.wid);
      ScanNothing(base);
    } else {
      var fill := Repeat(SPACE, f.wid - |DecodeAll(text)|);
      ReadText(f, u, base, isSigned, verbO, digits, []);
      assert text + [] == text;
      ReadText(f, u, base, isSigned, verbO, digits, fill);
      SkipRepeat(f.wid - |DecodeAll(text)|, text);
    }
  }

  lemma ScanNothing(base: nat)
    ensures Scan([], base, 0) == 0
  {
  }

  lemma {:induction false} AsciiRunes(s: seq<Byte>)
    requires forall i :: 0 <= i < |s| ==> s[i] < RUNE_SELF
    ensures |DecodeAll(s)| == |s|
  {
    if s != [] {
      AsciiRunes(s[1..]);
      assert Size(s) == 1;
    }
  }

  lemma TextAscii(f: Flags, u: Word, base: nat, isSigned: bool, verbO: bool, digits: seq<Byte>)
    requires Callable(base, verbO, digits)
    ensures var s := Text(f, u, base, isSigned, verbO, digits); |DecodeAll(s)| == |s|
  {
    hide DigitString, DecodeAll, Scan, MinDigits;
    DigitStringValue(f, u, base, isSigned, digits);
    var sign, num := Sign(f, Value(u, isSigned) < 0), DigitString(f, u, base, isSigned, digits);
    var prefix := Prefix(f, base, verbO, digits, num);
    assert forall i :: 0 <= i < |prefix| ==> prefix[i] < RUNE_SELF;
    AsciiRunes(sign + prefix + num);
  }

  /** The output is as wide as asked for, or as long as sign, prefix and digits need, and there are as many
      digits as asked for. */
  lemma Width(f: Flags, u: Word, base: nat, isSigned: bool, verbO: bool, digits: seq<Byte>)
    requires Callable(base, verbO, digits)
    ensures var text := if Blank(f, u) then [] else Text(f, u, base, isSigned, verbO, digits);
            var out := Printed(f, u, base, isSigned, verbO, digits);
            && |out| >= |text|
            && (f.widPresent || Blank(f, u) ==> |out| == if |text| < f.wid then f.wid else |text|)
    ensures |DigitString(f, u, base, isSigned, digits)| >= MinDigits(f, Value(u, isSigned) < 0)
  {
    hide DigitString, DecodeAll, Text, MinDigits, Scan;
    TextAscii(f, u, base, isSigned, verbO, digits);
    DigitStringValue(f, u, base, isSigned, digits);
  }
}
