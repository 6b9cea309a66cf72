/** UTF-8 as in section 4 of RFC 3629, with Go's treatment of errors (unicode/utf8/utf8.go): an invalid
    sequence decodes as U+FFFD and uses up one byte. */
module Utf8 {
  import opened Basics
  import opened Pow2s

  const RUNE_ERROR: int := 0xFFFD
  const RUNE_SELF: int := 0x80

  predicate ValidRune(r: int) {
    0 <= r < 0xD800 || 0xDFFF < r <= 0x10FFFF
  }

  predicate Continuation(b: Byte) { 0x80 <= b <= 0xBF }

  /** RuneStart: not a continuation byte. */
  predicate RuneStart(b: Byte) { !Continuation(b) }

  /** Length announced by a first byte; 0 when no sequence starts with it. */
  function Announced(b: Byte): (n: nat)
    ensures n <= 4
  {
    if b < 0x80 then 1 else if b < 0xC2 then 0 else if b < 0xE0 then 2 else if b < 0xF0 then 3
    else if b < 0xF5 then 4 else 0
  }

  /** The range of the second byte excludes overlong forms, surrogates and values above U+10FFFF. */
  predicate SecondOk(b0: Byte, b1: Byte) {
    (if b0 == 0xE0 then 0xA0 else if b0 == 0xF0 then 0x90 else 0x80) <= b1
    && b1 <= (if b0 == 0xED then 0x9F else if b0 == 0xF4 then 0x8F else 0xBF)
  }

  /** p starts with a well-formed sequence. */
  predicate WellFormed(p: seq<Byte>) {
    && p != [] && Announced(p[0]) >= 1 && Announced(p[0]) <= |p|
    && (Announced(p[0]) >= 2 ==> SecondOk(p[0], p[1]))
    && (Announced(p[0]) >= 3 ==> Continuation(p[2]))
    && (Announced(p[0]) >= 4 ==> Continuation(p[3]))
  }

  /** Number of bytes DecodeRune uses: 0 only for no input. */
  function Size(p: seq<Byte>): (n: nat)
    ensures n <= |p| && (p != [] ==> 1 <= n <= 4)
  {
    if p == [] then 0 else if WellFormed(p) then Announced(p[0]) else 1
  }

  /** The payload bits of two, three and four bytes. */
  function Rune2(b0: int, b1: int): int { b0 % 0x20 * 0x40 + b1 % 0x40 }

  function Rune3(b0: int, b1: int, b2: int): int { b0 % 0x10 * 0x1000 + b1 % 0x40 * 0x40 + b2 % 0x40 }

  function Rune4(b0: int, b1: int, b2: int, b3: int): int {
    b0 % 0x08 * 0x40000 + b1 % 0x40 * 0x1000 + b2 % 0x40 * 0x40 + b3 % 0x40
  }

  function Rune(p: seq<Byte>): (r: int)
    ensures ValidRune(r)
  {
    if !WellFormed(p) then RUNE_ERROR
    else match Announced(p[0])
      case 1 => p[0]
      case 2 => Unpack2(p[0], p[1]); Rune2(p[0], p[1])
      case 3 => Unpack3(p[0], p[1], p[2]); Rune3(p[0], p[1], p[2])
      case _ => Unpack4(p[0], p[1], p[2], p[3]); Rune4(p[0], p[1], p[2], p[3])
  }

  /** Whether p holds a full rune, valid or not: more bytes would not change how it decodes. */
  predicate FullRune(p: seq<Byte>) {
    p != [] &&
    (|p| >= Announced(p[0])
     || (|p| > 1 && !SecondOk(p[0], p[1]))
     || (|p| > 2 && !Continuation(p[2])))
  }

  function RuneLen(r: int): int {
    if r < 0 then -1 else if r < 0x80 then 1 else if r < 0x800 then 2
    else if 0xD800 <= r <= 0xDFFF then -1 else if r < 0x10000 then 3 else if r <= 0x10FFFF then 4 else -1
  }

  /** Encodes a rune; anything that is not a Unicode scalar value becomes U+FFFD. */
  function Encode(r: int): (p: seq<Byte>)
    ensures 1 <= |p| <= 4
  {
    if 0 <= r < 0x80 then [r]
    else if 0 <= r < 0x800 then [0xC0 + r / 0x40, 0x80 + r % 0x40]
    else if 0 <= r < 0xD800 || 0xDFFF < r < 0x10000 then
      [0xE0 + r / 0x1000, 0x80 + r / 0x40 % 0x40, 0x80 + r % 0x40]
    else if 0x10000 <= r <= 0x10FFFF then
      [0xF0 + r / 0x40000, 0x80 + r / 0x1000 % 0x40, 0x80 + r / 0x40 % 0x40, 0x80 + r % 0x40]
    else [0xEF, 0xBF, 0xBD]
  }

  lemma Pack2(r: int)
    requires 0x80 <= r < 0x800
    ensures 0xC2 <= 0xC0 + r / 0x40 < 0xE0 && Rune2(0xC0 + r / 0x40, 0x80 + r % 0x40) == r
  {
  }

  lemma Pack3(r: int)
    requires 0x800 <= r < 0xD800 || 0xDFFF < r < 0x10000
    ensures var b0, b1, b2 := 0xE0 + r / 0x1000, 0x80 + r / 0x40 % 0x40, 0x80 + r % 0x40;
            0xE0 <= b0 < 0xF0 && SecondOk(b0, b1) && Rune3(b0, b1, b2) == r
  {
    var a, b, c, d := DigitsOf(r);
    Digits(r, a, b, c, d);
    LowDigits(0, b, c, d);
  }

  /** The base-64 digits of a number below 2^21. */
  lemma Digits(r: int, a: int, b: int, c: int, d: int)
    requires r == a * 0x40000 + b * 0x1000 + c * 0x40 + d
    requires 0 <= a && 0 <= b < 0x40 && 0 <= c < 0x40 && 0 <= d < 0x40
    ensures r / 0x40000 == a && r / 0x1000 % 0x40 == b && r / 0x40 % 0x40 == c && r % 0x40 == d
  {
    DivUnique(r, 0x40000, a, b * 0x1000 + c * 0x40 + d);
    DivUnique(r, 0x1000, a * 0x40 + b, c * 0x40 + d);
    DivUnique(a * 0x40 + b, 0x40, a, b);
    DivUnique(r, 0x40, a * 0x1000 + b * 0x40 + c, d);
    DivUnique(a * 0x1000 + b * 0x40 + c, 0x40, a * 0x40 + b, c);
  }

  lemma DigitsOf(r: int) returns (a: int, b: int, c: int, d: int)
    requires 0 <= r
    ensures r == a * 0x40000 + b * 0x1000 + c * 0x40 + d
    ensures 0 <= a && 0 <= b < 0x40 && 0 <= c < 0x40 && 0 <= d < 0x40
  {
    var q, q' := r / 0x40, r / 0x40 / 0x40;
    DivMod(r, 0x40);
    DivMod(q, 0x40);
    DivMod(q', 0x40);
    d, c, b, a := r % 0x40, q % 0x40, q' % 0x40, q' / 0x40;
  }

  lemma Pack4(r: int)
    requires 0x10000 <= r <= 0x10FFFF
    ensures var b0, b1, b2, b3 := 0xF0 + r / 0x40000, 0x80 + r / 0x1000 % 0x40, 0x80 + r / 0x40 % 0x40, 0x80 + r % 0x40;
            0xF0 <= b0 < 0xF5 && SecondOk(b0, b1) && Rune4(b0, b1, b2, b3) == r
  {
    var a, b, c, d := DigitsOf(r);
    Digits(r, a, b, c, d);
    LowDigits(a, b, c, d);
  }

  /** What masking a byte's marker bits leaves. */
  lemma LowDigits(a: int, b: int, c: int, d: int)
    requires 0 <= a < 8 && 0 <= b < 0x40 && 0 <= c < 0x40 && 0 <= d < 0x40
    ensures (0xF0 + a) % 0x08 == a && (0x80 + b) % 0x40 == b && (0x80 + c) % 0x40 == c && (0x80 + d) % 0x40 == d
    ensures b < 0x10 ==> (0xE0 + b) % 0x10 == b
  {
  }

  /** Decoding an encoding gives the rune back, whatever follows. */
  lemma DecodeEncode(r: int, rest: seq<Byte>)
    requires ValidRune(r)
    ensures WellFormed(Encode(r) + rest) && Rune(Encode(r) + rest) == r && Size(Encode(r) + rest) == |Encode(r)|
    ensures |Encode(r)| == RuneLen(r)
  {
    hide Rune2, Rune3, Rune4, SecondOk;
    if r < 0x80 {
    } else if r < 0x800 {
      Pack2(r);
      SecondPlain(0xC0 + r / 0x40, 0x80 + r % 0x40);
    } else if r < 0x10000 {
      Pack3(r);
    } else {
      Pack4(r);
    }
  }

  lemma SecondPlain(b0: Byte, b1: Byte)
    requires 0xC2 <= b0 < 0xE0
    ensures SecondOk(b0, b1) <==> Continuation(b1)
  {
  }

  lemma Unpack2(b0: int, b1: int)
    requires 0xC2 <= b0 < 0xE0 && 0x80 <= b1 <= 0xBF
    ensures var r := Rune2(b0, b1); 0x80 <= r < 0x800 && b0 == 0xC0 + r / 0x40 && b1 == 0x80 + r % 0x40
  {
  }

  lemma Unpack3(b0: Byte, b1: Byte, b2: Byte)
    requires 0xE0 <= b0 < 0xF0 && SecondOk(b0, b1) && Continuation(b2)
    ensures var r := Rune3(b0, b1, b2);
            (0x800 <= r < 0xD800 || 0xDFFF < r < 0x10000)
            && b0 == 0xE0 + r / 0x1000 && b1 == 0x80 + r / 0x40 % 0x40 && b2 == 0x80 + r % 0x40
  {
    LowDigits(0, b0 - 0xE0, b1 - 0x80, b2 - 0x80);
    Digits(Rune3(b0, b1, b2), 0, b0 - 0xE0, b1 - 0x80, b2 - 0x80);
  }

  lemma Unpack4(b0: Byte, b1: Byte, b2: Byte, b3: Byte)
    requires 0xF0 <= b0 < 0xF5 && SecondOk(b0, b1) && Continuation(b2) && Continuation(b3)
    ensures var r := Rune4(b0, b1, b2, b3);
            0x10000 <= r <= 0x10FFFF
            && b0 == 0xF0 + r / 0x40000 && b1 == 0x80 + r / 0x1000 % 0x40
            && b2 == 0x80 + r / 0x40 % 0x40 && b3 == 0x80 + r % 0x40
  {
    LowDigits(b0 - 0xF0, b1 - 0x80, b2 - 0x80, b3 - 0x80);
    Digits(Rune4(b0, b1, b2, b3), b0 - 0xF0, b1 - 0x80, b2 - 0x80, b3 - 0x80);
  }

  /** A well-formed sequence is the encoding of the rune it decodes to. */
  lemma EncodeDecode(p: seq<Byte>)
    requires WellFormed(p)
    ensures Encode(Rune(p)) == p[..Size(p)]
  {
    hide Rune2, Rune3, Rune4, SecondOk;
    match Announced(p[0])
    case 1 =>
    case 2 => SecondPlain(p[0], p[1]); Unpack2(p[0], p[1]);
    case 3 => Unpack3(p[0], p[1], p[2]);
    case _ => Unpack4(p[0], p[1], p[2], p[3]);
  }

  /** The payload bits of a sequence, as in the table in section 3 of RFC 3629. */
  predicate Payload2(r: int, b0: int, b1: int) {
    0xC2 <= b0 <= 0xDF && 0x80 <= b1 <= 0xBF && r == (b0 - 0xC0) * 0x40 + (b1 - 0x80)
  }

  predicate Payload3(r: int, b0: int, b1: int, b2: int) {
    && 0xE0 <= b0 <= 0xEF && 0x80 <= b1 <= 0xBF && 0x80 <= b2 <= 0xBF
    && r == (b0 - 0xE0) * 0x1000 + (b1 - 0x80) * 0x40 + (b2 - 0x80)
  }

  predicate Payload4(r: int, b0: int, b1: int, b2: int, b3: int) {
    && 0xF0 <= b0 <= 0xF4 && 0x80 <= b1 <= 0xBF && 0x80 <= b2 <= 0xBF && 0x80 <= b3 <= 0xBF
    && r == (b0 - 0xF0) * 0x4_0000 + (b1 - 0x80) * 0x1000 + (b2 - 0x80) * 0x40 + (b3 - 0x80)
  }

  /** The bytes of every rune; one that is no Unicode scalar value is written as U+FFFD. */
  lemma EncodingOf(r: int)
    ensures r < 0 || 0xD800 <= r <= 0xDFFF || r > 0x10FFFF ==> Encode(r) == [0xEF, 0xBF, 0xBD] && RuneLen(r) == -1
    ensures 0 <= r <= 0x7F ==> Encode(r) == [r]
    ensures 0x80 <= r <= 0x7FF ==> var p := Encode(r); |p| == 2 && Payload2(r, p[0], p[1])
    ensures 0x800 <= r <= 0xFFFF && !(0xD800 <= r <= 0xDFFF) ==>
              var p := Encode(r); |p| == 3 && Payload3(r, p[0], p[1], p[2])
    ensures 0x1_0000 <= r <= 0x10_FFFF ==> var p := Encode(r); |p| == 4 && Payload4(r, p[0], p[1], p[2], p[3])
  {
    if r >= 0 {
      var a, b, c, d := DigitsOf(r);
      Digits(r, a, b, c, d);
      DivUnique(r, 0x1000, a * 0x40 + b, c * 0x40 + d);
      DivUnique(r, 0x40, a * 0x1000 + b * 0x40 + c, d);
    }
  }

  /** A sequence is well formed exactly when it begins with the encoding of a scalar value; any other byte is
      decoded alone, as U+FFFD. */
  lemma WellFormedIff(p: seq<Byte>)
    ensures WellFormed(p) <==> exists r :: ValidRune(r) && Encode(r) <= p
    ensures p != [] && !WellFormed(p) ==> Rune(p) == 0xFFFD && Size(p) == 1
  {
    hide Encode;
    if WellFormed(p) {
      EncodeDecode(p);
    }
    forall r | ValidRune(r) && Encode(r) <= p
      ensures WellFormed(p)
    {
      DecodeEncode(r, p[|Encode(r)|..]);
      assert p == Encode(r) + p[|Encode(r)|..];
    }
  }

  /** What decodes after any rune was encoded: the rune itself, or U+FFFD for what is no scalar value. */
  lemma DecodeAny(r: int, rest: seq<Byte>)
    ensures Rune(Encode(r) + rest) == (if ValidRune(r) then r else 0xFFFD) && Size(Encode(r) + rest) == |Encode(r)|
  {
    hide Encode, WellFormed;
    EncodingOf(r);
    EncodingOf(0xFFFD);
    DecodeEncode(if ValidRune(r) then r else 0xFFFD, rest);
    NoScalar(r);
  }

  lemma NoScalar(r: int)
    ensures !ValidRune(r) ==> Encode(r) == Encode(0xFFFD)
  {
  }

  /** Once a rune is full, what follows does not matter. */
  lemma FullDecides(p: seq<Byte>, rest: seq<Byte>)
    requires FullRune(p)
    ensures Size(p + rest) == Size(p) && Rune(p + rest) == Rune(p)
  {
  }

  /** An incomplete rune is a leading byte followed by continuation bytes. */
  lemma Incomplete(p: seq<Byte>)
    requires p != [] && !FullRune(p)
    ensures |p| <= 3 && p[0] >= 0xC2
    ensures forall i :: 1 <= i < |p| ==> Continuation(p[i])
    ensures Size(p) == 1 && Rune(p) == RUNE_ERROR
  {
  }

  /** The runes of a byte string. */
  function DecodeAll(p: seq<Byte>): seq<int> {
    if p == [] then [] else [Rune(p)] + DecodeAll(p[Size(p)..])
  }

  /** Encoding all runes of a string and decoding again gives the runes. */
  function EncodeAll(rs: seq<int>): seq<Byte> {
    if rs == [] then [] else Encode(rs[0]) + EncodeAll(rs[1..])
  }

  lemma {:induction false} DecodeAllEncodeAll(rs: seq<int>)
    requires forall r :: r in rs ==> ValidRune(r)
    ensures DecodeAll(EncodeAll(rs)) == rs
  {
    if rs != [] {
      DecodeAllEncodeAll(rs[1..]);
      DecodeEncode(rs[0], EncodeAll(rs[1..]));
      var p := EncodeAll(rs);
      assert p[|Encode(rs[0])|..] == EncodeAll(rs[1..]);
    }
  }
}
