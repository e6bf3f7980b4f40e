/** Decoding of `\uXXXX` escapes (cJSON.c, parse_hex4 and utf16_literal_to_utf8) against the
    UTF-8 definition in section 3 of RFC 3629 and surrogate decoding in section 2.2 of RFC 2781. */
module Unicode {
  import opened Bytes
  import opened Bits

  // ---------------------------------------------------------------- UTF-8, independently of the code

  predicate IsTrail(b: byte) { 0x80 <= b < 0xC0 }

  /** Six more bits of a code point, from a trail byte. */
  function Bits6(high: int, trail: byte): int { high * 64 + (trail - 0x80) }

  /** Section 3 of RFC 3629: `bs` is the UTF-8 encoding of the scalar value `cp`. Each length is
      allowed only for the range that needs it, and surrogate code points are never encoded. */
  predicate IsUtf8(bs: seq<byte>, cp: nat) {
    match |bs|
    case 1 => cp < 0x80 && bs[0] == cp
    case 2 => 0x80 <= cp < 0x800 && 0xC0 <= bs[0] < 0xE0 && IsTrail(bs[1])
      && cp == Bits6(bs[0] - 0xC0, bs[1])
    case 3 => 0x800 <= cp < 0x10000 && !(0xD800 <= cp <= 0xDFFF) && 0xE0 <= bs[0] < 0xF0 && IsTrail(bs[1]) &&
      IsTrail(bs[2])
      && cp == Bits6(Bits6(bs[0] - 0xE0, bs[1]), bs[2])
    case 4 => 0x10000 <= cp <= 0x10FFFF && 0xF0 <= bs[0] < 0xF8 && IsTrail(bs[1]) && IsTrail(bs[2]) && IsTrail(bs[3])
      && cp == Bits6(Bits6(Bits6(bs[0] - 0xF0, bs[1]), bs[2]), bs[3])
    case _ => false
  }

  /** A scalar value has one encoding, and an encoding stands for one scalar value. */
  lemma Utf8Unique(a: seq<byte>, b: seq<byte>, x: nat, y: nat)
    requires IsUtf8(a, x) && IsUtf8(b, y)
    ensures x == y <==> a == b
  {
    if x == y {
      LengthByRange(a, x);
      LengthByRange(b, y);
      SameBytes(a, b, x);
    }
  }

  lemma LengthByRange(a: seq<byte>, x: nat)
    requires IsUtf8(a, x)
    ensures |a| == if x < 0x80 then 1 else if x < 0x800 then 2 else if x < 0x10000 then 3 else 4
  {
  }

  lemma SameBytes(a: seq<byte>, b: seq<byte>, x: nat)
    requires IsUtf8(a, x) && IsUtf8(b, x) && |a| == |b|
    ensures a == b
  {
    hide Bits6;
    match |a|
    case 2 =>
      Bits6Unique(a[0] - 0xC0, a[1], b[0] - 0xC0, b[1]);
    case 3 =>
      Bits6Unique(Bits6(a[0] - 0xE0, a[1]), a[2], Bits6(b[0] - 0xE0, b[1]), b[2]);
      Bits6Unique(a[0] - 0xE0, a[1], b[0] - 0xE0, b[1]);
    case 4 =>
      Bits6Unique(Bits6(Bits6(a[0] - 0xF0, a[1]), a[2]), a[3], Bits6(Bits6(b[0] - 0xF0, b[1]), b[2]), b[3]);
      Bits6Unique(Bits6(a[0] - 0xF0, a[1]), a[2], Bits6(b[0] - 0xF0, b[1]), b[2]);
      Bits6Unique(a[0] - 0xF0, a[1], b[0] - 0xF0, b[1]);
    case _ =>
  }

  lemma Bits6Unique(h: int, t: byte, h': int, t': byte)
    requires IsTrail(t) && IsTrail(t') && Bits6(h, t) == Bits6(h', t')
    ensures h == h' && t == t'
  {
  }

  // ---------------------------------------------------------------- hexadecimal

  /** The value of a hexadecimal digit, or none. */
  function HexDigit(b: byte): (r: int)
    ensures -1 <= r < 16
  {
    if 48 <= b <= 57 then b - 48
    else if 65 <= b <= 70 then b - 65 + 10
    else if 97 <= b <= 102 then b - 97 + 10
    else -1
  }

  predicate AllHex(s: seq<byte>)
    requires |s| >= 4
  {
    HexDigit(s[0]) >= 0 && HexDigit(s[1]) >= 0 && HexDigit(s[2]) >= 0 && HexDigit(s[3]) >= 0
  }

  /** What four digits denote; a malformed group counts as 0, which the caller cannot tell from `0000`. */
  function Hex4(s: seq<byte>): (r: nat)
    requires |s| >= 4
    ensures r < 0x10000
  {
    if AllHex(s) then ((HexDigit(s[0]) * 16 + HexDigit(s[1])) * 16 + HexDigit(s[2])) * 16 + HexDigit(s[3]) else 0
  }

  method ParseHex4(input: seq<byte>) returns (h: nat)
    requires |input| >= 4
    ensures h == Hex4(input)
  {
    h := 0;
    var i := 0;
    while i < 4
      invariant 0 <= i <= 4
      invariant forall k :: 0 <= k < i ==> HexDigit(input[k]) >= 0
      invariant i == 0 ==> h == 0
      invariant i == 1 ==> h == HexDigit(input[0]) * 16
      invariant i == 2 ==> h == (HexDigit(input[0]) * 16 + HexDigit(input[1])) * 16
      invariant i == 3 ==> h == ((HexDigit(input[0]) * 16 + HexDigit(input[1])) * 16 + HexDigit(input[2])) * 16
      invariant i == 4 ==> h == Hex4(input)
    {
      if 48 <= input[i] <= 57 {
        h := h + (input[i] - 48);
      } else if 65 <= input[i] <= 70 {
        h := h + (10 + input[i] - 65);
      } else if 97 <= input[i] <= 102 {
        h := h + (10 + input[i] - 97);
      } else {
        return 0;
      }
      if i < 3 {
        ShlMul(h, 4);
        assert Pow2(4) == 16;
        h := Shl(h, 4);
      }
      i := i + 1;
    }
  }

  // ---------------------------------------------------------------- the literal

  /** The code point written by a `\uXXXX` literal or surrogate pair at the start of `s`
      together with the number of bytes it occupies; None when it is refused. */
  datatype Literal = Refused | Literal(codepoint: nat, length: nat)

  predicate HighSurrogate(c: nat) { 0xD800 <= c <= 0xDBFF }

  predicate LowSurrogate(c: nat) { 0xDC00 <= c <= 0xDFFF }

  /** Section 2.2 of RFC 2781. */
  function PairValue(high: nat, low: nat): nat
    requires HighSurrogate(high) && LowSurrogate(low)
  {
    0x10000 + (high - 0xD800) * 0x400 + (low - 0xDC00)
  }

  function ReadLiteral(s: seq<byte>): (r: Literal)
    ensures r.Literal? ==> (r.length == 6 || r.length == 12) && r.length <= |s|
  {
    if |s| < 6 then Refused else
    var first := Hex4(s[2..]);
    if LowSurrogate(first) then Refused
    else if HighSurrogate(first) then
      if |s| < 12 || s[6] != BACKSLASH || s[7] != LOWER_U then Refused else
      var second := Hex4(s[8..]);
      if LowSurrogate(second) then Literal(PairValue(first, second), 12) else Refused
    else Literal(first, 6)
  }

  /** The bytes emitted for a code point: lead byte by range, then six bits a byte. */
  function Utf8(cp: nat): (bs: seq<byte>)
    requires cp <= 0x10FFFF
    ensures |bs| == if cp < 0x80 then 1 else if cp < 0x800 then 2 else if cp < 0x10000 then 3 else 4
  {
    if cp < 0x80 then [cp]
    else if cp < 0x800 then [0xC0 + cp / 64, 0x80 + cp % 64]
    else if cp < 0x10000 then [0xE0 + cp / 4096, 0x80 + cp / 64 % 64, 0x80 + cp % 64]
    else [0xF0 + cp / 262144, 0x80 + cp / 4096 % 64, 0x80 + cp / 64 % 64, 0x80 + cp % 64]
  }

  /** Every accepted literal stands for a Unicode scalar value: no lone surrogate, nothing beyond
      0x10FFFF (so the code's last branch is dead), and it is emitted as that value's UTF-8. */
  lemma LiteralIsScalar(s: seq<byte>)
    requires ReadLiteral(s).Literal?
    ensures ReadLiteral(s).codepoint <= 0x10FFFF
    ensures IsUtf8(Utf8(ReadLiteral(s).codepoint), ReadLiteral(s).codepoint)
    ensures ReadLiteral(s).length == 12 <==> ReadLiteral(s).codepoint >= 0x10000
  {
    Utf8Correct(ReadLiteral(s).codepoint);
  }

  lemma Utf8Correct(cp: nat)
    requires cp <= 0x10FFFF && !(0xD800 <= cp <= 0xDFFF)
    ensures IsUtf8(Utf8(cp), cp)
  {
    assert cp / 4096 == cp / 64 / 64;
    assert cp / 262144 == cp / 64 / 64 / 64;
  }

  /** Surrogate pairs correspond one to one to 0x10000..0x10FFFF. */
  lemma PairsOneToOne(high: nat, low: nat, high': nat, low': nat)
    requires HighSurrogate(high) && LowSurrogate(low) && HighSurrogate(high') && LowSurrogate(low')
    ensures 0x10000 <= PairValue(high, low) <= 0x10FFFF
    ensures PairValue(high, low) == PairValue(high', low') <==> high == high' && low == low'
  {
  }

  lemma PairsOnto(cp: nat) returns (high: nat, low: nat)
    requires 0x10000 <= cp <= 0x10FFFF
    ensures HighSurrogate(high) && LowSurrogate(low) && PairValue(high, low) == cp
  {
    high := 0xD800 + (cp - 0x10000) / 0x400;
    low := 0xDC00 + (cp - 0x10000) % 0x400;
  }

  // ---------------------------------------------------------------- the code's bit operations

  lemma OrDisjoint(a: nat, b: nat, k: nat)
    requires Shr(a, k) == 0 && Low(b, k) == 0
    ensures Or(a, b) == a + b
  {
    OrSplit(a, b, k);
    ShrLow(a, k);
    ShrLow(b, k);
  }

  lemma ShrLowSmall(a: nat, k: nat)
    requires a < Pow2(k)
    ensures Shr(a, k) == 0 && Low(a, k) == a
  {
    ShrLow(a, k);
    DivModUnique(a, Pow2(k), 0, a);
  }

  /** A mask of the form 2^k - 1 leaves a number of at most k bits alone. */
  lemma MaskKeeps(a: nat, k: nat, p: nat, mask: nat)
    requires p == Pow2(k) && mask == p - 1 && a < p
    ensures And(a, mask) == a
  {
    AndMask(a, k);
    DivModUnique(a, p, 0, a);
  }

  /** Setting bit 7 and clearing bit 6 of a number whose bits from 6 up are y. */
  lemma SetBit(y: nat)
    ensures And(Or(y, 2), 2) == 2
  {
    OrStep(y, 2);
    OrStep(y / 2, 1);
    AndStep(Or(y, 2), 2);
    AndStep(Or(y, 2) / 2, 1);
  }

  /** The marks, cut at the places where the code point's bits begin. */
  lemma Marks()
    ensures Low(0x80, 6) == 0 && Shr(0x80, 6) == 2
    ensures Low(0xBF, 6) == 0x3F && Shr(0xBF, 6) == 2
    ensures Low(0xC0, 5) == 0 && Low(0xE0, 4) == 0 && Low(0xF0, 3) == 0
  {
  }

  lemma OrMark(c: nat, mark: nat)
    requires Low(mark, 6) == 0 && Shr(mark, 6) == 2
    ensures Shr(Or(c, mark), 6) == Or(Shr(c, 6), 2) && Low(Or(c, mark), 6) == Low(c, 6)
  {
    var x := Or(c, mark);
    Pow2Values();
    OrSplit(c, mark, 6);
    ShrLow(c, 6);
    assert Or(Low(c, 6), 0) == Low(c, 6);
    ShrLow(x, 6);
    DivModUnique(x, 64, Or(Shr(c, 6), 2), Low(c, 6));
  }

  /** `(c | 0x80) & 0xBF` is a trail byte carrying the six low bits of c. */
  lemma TrailByte(c: nat, mark: nat, mask: nat)
    requires mark == 0x80 && mask == 0xBF
    ensures And(Or(c, mark), mask) == 0x80 + c % 64
  {
    assert Low(mark, 6) == 0 && Shr(mark, 6) == 2 && Low(mask, 6) == 0x3F && Shr(mask, 6) == 2 by {
      Marks();
    }
    OrMark(c, mark);
    AndSplit(Or(c, mark), mask, 6);
    SetBit(Shr(c, 6));
    TrailLow(c, 0x3F);
  }

  lemma TrailLow(c: nat, mask: nat)
    requires mask == 0x3F
    ensures And(Low(c, 6), mask) == c % 64 && Pow2(6) == 64
  {
    var k, p := PowerOf(mask);
    ShrLow(c, k);
    MaskKeeps(Low(c, k), k, p, mask);
  }

  lemma PowerOf(mask: nat) returns (k: nat, p: nat)
    requires mask == 0x3F || mask == 0x7F || mask == 0xFF || mask == 0x3FF
    ensures p == Pow2(k) == mask + 1
    ensures k == if mask == 0x3F then 6 else if mask == 0x7F then 7 else if mask == 0xFF then 8 else 10
  {
    Pow2Values();
    k := if mask == 0x3F then 6 else if mask == 0x7F then 7 else if mask == 0xFF then 8 else 10;
    p := mask + 1;
  }

  /** `(c | mark) & 0xFF` is the lead byte when c fits in the bits the mark leaves free. */
  lemma LeadByte(c: nat, mark: nat, mask: nat)
    requires (mark == 0xC0 && c < 0x20) || (mark == 0xE0 && c < 0x10) || (mark == 0xF0 && c < 0x08)
    requires mask == 0xFF
    ensures And(Or(c, mark), mask) == mark + c
  {
    LeadOr(c, mark);
    var k, p := PowerOf(mask);
    MaskKeeps(mark + c, k, p, mask);
  }

  lemma LeadOr(c: nat, mark: nat)
    requires (mark == 0xC0 && c < 0x20) || (mark == 0xE0 && c < 0x10) || (mark == 0xF0 && c < 0x08)
    ensures Or(c, mark) == mark + c
  {
    var k: nat :| c < Pow2(k) && Low(mark, k) == 0 by {
      Pow2Values();
      Marks();
      if mark == 0xC0 {
        assert c < Pow2(5) && Low(mark, 5) == 0;
      } else if mark == 0xE0 {
        assert c < Pow2(4) && Low(mark, 4) == 0;
      } else {
        assert c < Pow2(3) && Low(mark, 3) == 0;
      }
    }
    ShrLowSmall(c, k);
    OrDisjoint(c, mark, k);
  }

  /** `(a << 10) | b` places two ten-bit fields side by side. */
  lemma PairFields(a: nat, b: nat)
    requires a < 0x400 && b < 0x400
    ensures Or(Shl(a, 10), b) == a * 0x400 + b
  {
    Pow2Values();
    ShlMul(a, 10);
    ShrLow(a * 1024, 10);
    DivModUnique(a * 1024, 1024, a, 0);
    ShrLowSmall(b, 10);
    OrSplit(a * 1024, b, 10);
  }

  /** `c & 0x3FF` drops the surrogate marker. */
  lemma SurrogateField(c: nat, mask: nat)
    requires HighSurrogate(c) || LowSurrogate(c)
    requires mask == 0x3FF
    ensures And(c, mask) == if HighSurrogate(c) then c - 0xD800 else c - 0xDC00
  {
    hide And, Low, Shr, Pow2;
    var k, p := PowerOf(mask);
    AndMask(c, k);
  }

  /** Converts the literal at `input[0..]` and appends it to `output` at `at`.
      `input` runs to the end of the string literal. Returns 0 on refusal. */
  method Utf16LiteralToUtf8(input: seq<byte>, output: array<byte>, at: nat) returns (sequenceLength: nat, end: nat)
    requires ReadLiteral(input).Literal? ==>
      ReadLiteral(input).codepoint <= 0x10FFFF && at + |Utf8(ReadLiteral(input).codepoint)| <= output.Length
    modifies output
    ensures ReadLiteral(input).Refused? ==> sequenceLength == 0 && end == at && output[..] == old(output[..])
    ensures ReadLiteral(input).Literal? ==>
      && sequenceLength == ReadLiteral(input).length
      && end == at + |Utf8(ReadLiteral(input).codepoint)| <= output.Length
      && output[..end] == old(output[..at]) + Utf8(ReadLiteral(input).codepoint)
      && output[end..] == old(output[end..])
  {
    hide Hex4, Utf8, And, Or, Shl;
    sequenceLength, end := 0, at;
    if |input| < 6 {
      return;
    }
    var firstCode := ParseHex4(input[2..]);
    if 0xDC00 <= firstCode <= 0xDFFF {
      return;
    }
    var codepoint: nat;
    if 0xD800 <= firstCode <= 0xDBFF {
      if |input| - 6 < 6 {
        return;
      }
      if input[6] != BACKSLASH || input[7] != LOWER_U {
        return;
      }
      var secondCode := ParseHex4(input[8..]);
      if secondCode < 0xDC00 || secondCode > 0xDFFF {
        return;
      }
      SurrogateField(firstCode, 0x3FF);
      SurrogateField(secondCode, 0x3FF);
      PairFields(firstCode - 0xD800, secondCode - 0xDC00);
      sequenceLength := 12;
      codepoint := 0x10000 + Or(Shl(And(firstCode, 0x3FF), 10), And(secondCode, 0x3FF));
    } else {
      sequenceLength := 6;
      codepoint := firstCode;
    }
    assert ReadLiteral(input) == Literal(codepoint, sequenceLength);
    end := EncodeUtf8(codepoint, output, at);
    assert output[..end] == output[..at] + output[at..end];
  }

  method EncodeUtf8(cp: nat, output: array<byte>, at: nat) returns (end: nat)
    requires cp <= 0x10FFFF && at + |Utf8(cp)| <= output.Length
    modifies output
    ensures end == at + |Utf8(cp)|
    ensures output[at..end] == Utf8(cp)
    ensures output[..at] == old(output[..at]) && output[end..] == old(output[end..])
  {
    hide And, Or, Shr, Utf8;
    SixBitsZero(cp);
    var length: nat, mark: nat := 1, 0;
    if cp < 0x80 {
    } else if cp < 0x800 {
      length, mark := 2, 0xC0;
    } else if cp < 0x10000 {
      length, mark := 3, 0xE0;
    } else {
      length, mark := 4, 0xF0;
    }
    end := at + length;
    var codepoint := cp;
    var position := length - 1;
    while position > 0
      invariant 0 <= position < length == |Utf8(cp)|
      invariant codepoint == SixBitsDown(cp, length - 1 - position)
      invariant forall k :: position < k < length ==> output[at..end][k] == Utf8(cp)[k]
      invariant forall k :: 0 <= k < output.Length && !(at <= k < end) ==> output[k] == old(output[k])
    {
      Utf8At(cp, position);
      output[at + position] := TrailByteOf(codepoint);
      codepoint := ShiftSix(codepoint);
      position := position - 1;
    }
    Utf8At(cp, 0);
    output[at] := LeadByteOf(codepoint, length, mark);
  }

  /** The i-th byte of an encoding carries the bits from 6 * (length - 1 - i) up. */
  lemma Utf8At(cp: nat, i: nat)
    requires cp <= 0x10FFFF && i < |Utf8(cp)|
    ensures var bits := SixBitsDown(cp, |Utf8(cp)| - 1 - i);
      if i > 0 then Utf8(cp)[i] == 0x80 + bits % 64
      else match |Utf8(cp)|
           case 1 => bits < 0x80 && Utf8(cp)[0] == bits
           case 2 => bits < 0x20 && Utf8(cp)[0] == 0xC0 + bits
           case 3 => bits < 0x10 && Utf8(cp)[0] == 0xE0 + bits
           case _ => bits < 0x08 && Utf8(cp)[0] == 0xF0 + bits
  {
    Ladder(cp);
  }

  function TrailByteOf(c: nat): (b: byte)
    ensures b == 0x80 + c % 64
  {
    TrailByte(c, 0x80, 0xBF);
    And(Or(c, 0x80), 0xBF)
  }

  function LeadByteOf(c: nat, length: nat, mark: nat): (b: byte)
    requires length > 1 ==> (mark == 0xC0 && c < 0x20) || (mark == 0xE0 && c < 0x10) || (mark == 0xF0 && c < 0x08)
    requires length <= 1 ==> mark == 0 && c < 0x80
    ensures b == mark + c
  {
    if length > 1 then
      LeadByte(c, mark, 0xFF);
      And(Or(c, mark), 0xFF)
    else
      AsciiByte(c, 0x7F);
      And(c, 0x7F)
  }

  lemma AsciiByte(c: nat, mask: nat)
    requires c < 0x80 && mask == 0x7F
    ensures And(c, mask) == c
  {
    var k, p := PowerOf(mask);
    MaskKeeps(c, k, p, mask);
  }

  function ShiftSix(c: nat): (r: nat)
    ensures r == c / 64
  {
    Pow2Values();
    ShrLow(c, 6);
    Shr(c, 6)
  }

  lemma SixBitsZero(cp: nat)
    ensures SixBitsDown(cp, 0) == cp
  {
  }

  function SixBitsDown(cp: nat, n: nat): nat {
    if n == 0 then cp else SixBitsDown(cp, n - 1) / 64
  }

  lemma Ladder(cp: nat)
    ensures SixBitsDown(cp, 0) == cp
    ensures SixBitsDown(cp, 1) == cp / 64
    ensures SixBitsDown(cp, 2) == cp / 4096
    ensures SixBitsDown(cp, 3) == cp / 262144
  {
    assert SixBitsDown(cp, 1) == cp / 64;
    assert SixBitsDown(cp, 2) == cp / 64 / 64;
    assert SixBitsDown(cp, 3) == cp / 64 / 64 / 64;
  }
}
