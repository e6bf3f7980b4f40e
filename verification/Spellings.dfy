/** What the characters of a string literal stand for, by tables of their own (section 7 of RFC 8259), and that
    parse_string and print_string_ptr follow these tables (cJSON.c:612-1018). */
module Spellings {
  import opened Bytes
  import opened Json
  import opened Sequences
  import opened Unicode
  import opened StringSpec
  import opened StringParser

  // ---------------------------------------------------------------- hexadecimal digits

  /** The character is the hexadecimal digit v, upper or lower case. */
  predicate HexChar(b: byte, v: nat) {
    (v < 10 && b == 48 + v) || (10 <= v < 16 && (b == 55 + v || b == 87 + v))
  }

  /** The four characters spell n, the most significant digit first. */
  predicate Spells4(d: seq<byte>, n: nat) {
    && |d| == 4 && n < 0x10000
    && HexChar(d[0], n / 4096) && HexChar(d[1], n / 256 % 16) && HexChar(d[2], n / 16 % 16) && HexChar(d[3], n % 16)
  }

  lemma DigitOf(b: byte, v: nat)
    requires HexChar(b, v)
    ensures HexDigit(b) == v
  {
  }

  lemma DigitIs(b: byte)
    requires HexDigit(b) >= 0
    ensures HexChar(b, HexDigit(b))
  {
  }

  lemma FourDigits(n: nat)
    ensures ((n / 4096 * 16 + n / 256 % 16) * 16 + n / 16 % 16) * 16 + n % 16 == n
  {
    assert n == n / 16 * 16 + n % 16;
    assert n / 16 == n / 16 / 16 * 16 + n / 16 % 16;
    assert n / 16 / 16 == n / 256;
    assert n / 256 == n / 256 / 16 * 16 + n / 256 % 16;
    assert n / 256 / 16 == n / 4096;
  }

  lemma Hex4Spelled(d: seq<byte>, n: nat, rest: seq<byte>)
    requires Spells4(d, n)
    ensures AllHex(d + rest) && Hex4(d + rest) == n
  {
    hide HexChar, HexDigit;
    DigitOf(d[0], n / 4096);
    DigitOf(d[1], n / 256 % 16);
    DigitOf(d[2], n / 16 % 16);
    DigitOf(d[3], n % 16);
    FourDigits(n);
  }

  lemma FourLong(d: seq<byte>, n: nat)
    requires Spells4(d, n)
    ensures |d| == 4
  {
  }

  lemma DigitsSpell(d: seq<byte>, rest: seq<byte>)
    requires |d| == 4 && AllHex(d + rest)
    ensures Spells4(d, Hex4(d + rest))
  {
    hide HexChar, HexDigit;
    DigitIs(d[0]);
    DigitIs(d[1]);
    DigitIs(d[2]);
    DigitIs(d[3]);
    Positions(HexDigit(d[0]), HexDigit(d[1]), HexDigit(d[2]), HexDigit(d[3]));
  }

  lemma Positions(a: nat, b: nat, c: nat, d: nat)
    requires a < 16 && b < 16 && c < 16 && d < 16
    ensures var n := ((a * 16 + b) * 16 + c) * 16 + d;
      n / 4096 == a && n / 256 % 16 == b && n / 16 % 16 == c && n % 16 == d
  {
    var n := ((a * 16 + b) * 16 + c) * 16 + d;
    assert n / 16 == (a * 16 + b) * 16 + c;
    assert n / 256 == a * 16 + b;
  }

  // ---------------------------------------------------------------- the literals with four digits

  /** The six characters of a code point below 0x10000 that is no surrogate. */
  lemma UnitRead(d: seq<byte>, cp: nat, rest: seq<byte>)
    requires Spells4(d, cp) && !(0xD800 <= cp <= 0xDFFF)
    ensures ReadLiteral([BACKSLASH, LOWER_U] + d + rest) == Literal(cp, 6)
  {
    hide Spells4, Hex4, AllHex;
    FourLong(d, cp);
    Behind(d, rest);
    Hex4Spelled(d, cp, rest);
  }

  lemma Behind(d: seq<byte>, rest: seq<byte>)
    ensures ([BACKSLASH, LOWER_U] + d + rest)[2..] == d + rest
  {
  }

  /** The twelve characters of a code point from 0x10000 on: its high ten bits, then its low ten bits. */
  lemma PairRead(d: seq<byte>, e: seq<byte>, cp: nat, rest: seq<byte>)
    requires 0x10000 <= cp <= 0x10FFFF
    requires Spells4(d, 0xD800 + (cp - 0x10000) / 0x400) && Spells4(e, 0xDC00 + (cp - 0x10000) % 0x400)
    ensures ReadLiteral([BACKSLASH, LOWER_U] + d + ([BACKSLASH, LOWER_U] + e + rest)) == Literal(cp, 12)
  {
    hide Hex4, AllHex, HexChar;
    var more := [BACKSLASH, LOWER_U] + e + rest;
    var s := [BACKSLASH, LOWER_U] + d + more;
    Behind(d, more);
    Behind(e, rest);
    Hex4Spelled(d, 0xD800 + (cp - 0x10000) / 0x400, more);
    Hex4Spelled(e, 0xDC00 + (cp - 0x10000) % 0x400, rest);
    assert s[6..] == more && s[8..] == more[2..];
    assert s[6] == more[0] && s[7] == more[1];
  }

  /** A low surrogate alone is refused, and so is a high one that no low one follows. */
  lemma LoneSurrogate(d: seq<byte>, c: nat, rest: seq<byte>)
    requires Spells4(d, c) && 0xD800 <= c <= 0xDFFF
    requires c < 0xDC00 ==> forall e: seq<byte>, low: nat, more: seq<byte> ::
      Spells4(e, low) && 0xDC00 <= low <= 0xDFFF ==> rest != [BACKSLASH, LOWER_U] + e + more
    ensures ReadLiteral([BACKSLASH, LOWER_U] + d + rest) == Refused
  {
    hide Hex4, AllHex, HexChar;
    var s := [BACKSLASH, LOWER_U] + d + rest;
    Behind(d, rest);
    Hex4Spelled(d, c, rest);
    if c < 0xDC00 && |s| >= 12 && s[6] == BACKSLASH && s[7] == LOWER_U && LowSurrogate(Hex4(s[8..])) {
      var e, more := rest[2..6], rest[6..];
      assert s[8..] == e + more && rest == [BACKSLASH, LOWER_U] + e + more;
      NonzeroDigits(e + more);
      DigitsSpell(e, more);
    }
  }

  lemma NonzeroDigits(s: seq<byte>)
    requires |s| >= 4 && Hex4(s) != 0
    ensures AllHex(s)
  {
  }

  /** Four characters that are not all digits count as the code point 0. */
  lemma NoDigits(d: seq<byte>, rest: seq<byte>)
    requires |d| == 4 && forall n: nat :: !Spells4(d, n)
    ensures ReadLiteral([BACKSLASH, LOWER_U] + d + rest) == Literal(0, 6)
  {
    hide Spells4, HexDigit;
    Behind(d, rest);
    if AllHex(d + rest) { DigitsSpell(d, rest); }
  }

  // ---------------------------------------------------------------- the two-byte escapes

  /** " \ / b f n r t, and the bytes they stand for. */
  const LETTERS: seq<byte> := [34, 92, 47, 98, 102, 110, 114, 116]
  const MEANT: seq<byte> := [34, 92, 47, 8, 12, 10, 13, 9]

  lemma EscapeTable(c: byte)
    ensures forall i :: 0 <= i < 8 ==> SimpleEscape(LETTERS[i]) == MEANT[i]
    ensures c !in LETTERS ==> SimpleEscape(c) == -1
  {
    if c !in LETTERS {
      assert LETTERS[0] == 34 && LETTERS[1] == 92 && LETTERS[2] == 47 && LETTERS[3] == 98;
      assert LETTERS[4] == 102 && LETTERS[5] == 110 && LETTERS[6] == 114 && LETTERS[7] == 116;
    }
  }

  // ---------------------------------------------------------------- whole literals

  /** One character of a literal, as it is spelled. */
  datatype Glyph =
    | Plain(b: byte)
    | Short(i: nat)
    | Unit(digits: seq<byte>, cp: nat, utf8: seq<byte>)
    | Pair(high: seq<byte>, low: seq<byte>, cp: nat, utf8: seq<byte>)

  predicate Proper(g: Glyph) {
    match g
    case Plain(b) => b != QUOTE && b != BACKSLASH
    case Short(i) => i < 8
    case Unit(d, cp, utf8) => Spells4(d, cp) && !(0xD800 <= cp <= 0xDFFF) && IsUtf8(utf8, cp)
    case Pair(d, e, cp, utf8) =>
      && 0x10000 <= cp <= 0x10FFFF && IsUtf8(utf8, cp)
      && Spells4(d, 0xD800 + (cp - 0x10000) / 0x400) && Spells4(e, 0xDC00 + (cp - 0x10000) % 0x400)
  }

  function Spelling(g: Glyph): (s: seq<byte>)
    requires Proper(g)
    ensures s != []
  {
    match g
    case Plain(b) => [b]
    case Short(i) => [BACKSLASH, LETTERS[i]]
    case Unit(d, _, _) => [BACKSLASH, LOWER_U] + d
    case Pair(d, e, _, _) => [BACKSLASH, LOWER_U] + d + ([BACKSLASH, LOWER_U] + e)
  }

  function Meaning(g: Glyph): seq<byte>
    requires Proper(g)
  {
    match g
    case Plain(b) => [b]
    case Short(i) => [MEANT[i]]
    case Unit(_, _, utf8) => utf8
    case Pair(_, _, _, utf8) => utf8
  }

  predicate AllProper(gs: seq<Glyph>) {
    forall i :: 0 <= i < |gs| ==> Proper(gs[i])
  }

  function SpellAll(gs: seq<Glyph>): seq<byte>
    requires AllProper(gs)
  {
    if gs == [] then [] else Spelling(gs[0]) + SpellAll(gs[1..])
  }

  function MeanAll(gs: seq<Glyph>): seq<byte>
    requires AllProper(gs)
  {
    if gs == [] then [] else Meaning(gs[0]) + MeanAll(gs[1..])
  }

  /** The scan for the closing quote passes over four digits. */
  lemma ScanDigits(d: seq<byte>, n: nat, t: seq<byte>)
    requires Spells4(d, n) && ScanLength(t) >= 0
    ensures ScanLength([BACKSLASH, LOWER_U] + d + t) == 6 + ScanLength(t)
  {
    ScanPlain(d, t);
    ScanEscape(LOWER_U, d + t);
    Assoc3([BACKSLASH, LOWER_U], d, t);
  }

  lemma UnescapeLiteral(t: seq<byte>, n: nat, cp: nat, length: nat, utf8: seq<byte>)
    requires n < |t| && t[0] == BACKSLASH && n > 1 && t[1] == LOWER_U && IsUtf8(utf8, cp)
    requires ReadLiteral(t[..n]) == Literal(cp, length)
    ensures length <= n && Unescape(t, n) == Prepend(utf8, Unescape(t[length..], n - length))
  {
    hide Unescape, ReadLiteral, Utf8, IsUtf8;
    LiteralIsScalar(t[..n]);
    Utf8Unique(utf8, Utf8(cp), cp, cp);
    UnescapeOnce(t, n);
  }

  lemma UnescapeOnce(t: seq<byte>, n: nat)
    requires n < |t| && t[0] == BACKSLASH && n > 1 && t[1] == LOWER_U && ReadLiteral(t[..n]).Literal?
    ensures var l := ReadLiteral(t[..n]);
      l.codepoint <= 0x10FFFF && l.length <= n &&
      Unescape(t, n) == Prepend(Utf8(l.codepoint), Unescape(t[l.length..], n - l.length))
  {
    hide ReadLiteral, Utf8;
    LiteralIsScalar(t[..n]);
  }

  /** A character in front of anything: the scan passes over it, and it is read as what it means. */
  ghost predicate InFront(sp: seq<byte>, meaning: seq<byte>, t: seq<byte>, n: nat)
    requires n < |t|
  {
    ScanLength(sp + t) == |sp| + n && Unescape(sp + t, |sp| + n) == Prepend(meaning, Unescape(t, n))
  }

  lemma GlyphReads(g: Glyph, t: seq<byte>, n: nat)
    requires Proper(g) && ScanLength(t) == n
    ensures InFront(Spelling(g), Meaning(g), t, n)
  {
    hide InFront, ScanLength, Spells4, IsUtf8;
    match g
    case Plain(b) => PlainGlyph(b, t, n);
    case Short(i) => ShortGlyph(i, t, n);
    case Unit(d, cp, utf8) => UnitGlyph(d, cp, utf8, t, n);
    case Pair(d, e, cp, utf8) => PairGlyph(d, e, cp, utf8, t, n);
  }

  lemma PlainGlyph(b: byte, t: seq<byte>, n: nat)
    requires b != QUOTE && b != BACKSLASH && ScanLength(t) == n
    ensures InFront([b], [b], t, n)
  {
    ScanPlain([b], t);
    assert ([b] + t)[1..] == t;
  }

  lemma ShortGlyph(i: nat, t: seq<byte>, n: nat)
    requires i < 8 && ScanLength(t) == n
    ensures InFront([BACKSLASH, LETTERS[i]], [MEANT[i]], t, n)
  {
    hide ReadLiteral, SimpleEscape, ScanLength;
    EscapeTable(0);
    ScanEscape(LETTERS[i], t);
    assert ([BACKSLASH, LETTERS[i]] + t)[2..] == t;
    NotU(i);
  }

  lemma NotU(i: nat)
    requires i < 8
    ensures LETTERS[i] != LOWER_U && MEANT[i] >= 0
  {
  }

  lemma UnitGlyph(d: seq<byte>, cp: nat, utf8: seq<byte>, t: seq<byte>, n: nat)
    requires Spells4(d, cp) && !(0xD800 <= cp <= 0xDFFF) && IsUtf8(utf8, cp) && ScanLength(t) == n
    ensures InFront([BACKSLASH, LOWER_U] + d, utf8, t, n)
  {
    hide ReadLiteral, Unescape, ScanLength, Spells4, IsUtf8;
    FourLong(d, cp);
    var u := [BACKSLASH, LOWER_U] + d + t;
    ScanDigits(d, cp, t);
    UnitRead(d, cp, t[..n]);
    assert u[..6 + n] == [BACKSLASH, LOWER_U] + d + t[..n] && u[6..] == t;
    UnescapeLiteral(u, 6 + n, cp, 6, utf8);
  }

  lemma PairGlyph(d: seq<byte>, e: seq<byte>, cp: nat, utf8: seq<byte>, t: seq<byte>, n: nat)
    requires 0x10000 <= cp <= 0x10FFFF && IsUtf8(utf8, cp) && ScanLength(t) == n
    requires Spells4(d, 0xD800 + (cp - 0x10000) / 0x400) && Spells4(e, 0xDC00 + (cp - 0x10000) % 0x400)
    ensures InFront([BACKSLASH, LOWER_U] + d + ([BACKSLASH, LOWER_U] + e), utf8, t, n)
  {
    hide ReadLiteral, Unescape, ScanLength, Spells4, IsUtf8;
    var h, l := 0xD800 + (cp - 0x10000) / 0x400, 0xDC00 + (cp - 0x10000) % 0x400;
    FourLong(d, h);
    FourLong(e, l);
    var more := [BACKSLASH, LOWER_U] + e + t;
    var u := [BACKSLASH, LOWER_U] + d + ([BACKSLASH, LOWER_U] + e) + t;
    assert u == [BACKSLASH, LOWER_U] + d + more;
    ScanDigits(e, l, t);
    ScanDigits(d, h, more);
    PairRead(d, e, cp, t[..n]);
    assert u[..12 + n] == [BACKSLASH, LOWER_U] + d + ([BACKSLASH, LOWER_U] + e + t[..n]) && u[12..] == t;
    UnescapeLiteral(u, 12 + n, cp, 12, utf8);
  }

  /** Characters in front of anything are read as what they mean, one by one. */
  lemma {:induction false} GlyphsRead(gs: seq<Glyph>, t: seq<byte>, n: nat)
    requires AllProper(gs) && ScanLength(t) == n
    ensures InFront(SpellAll(gs), MeanAll(gs), t, n)
  {
    hide Proper, Spelling, Meaning, ScanLength, Unescape;
    if gs == [] {
      assert [] + t == t;
      NothingInFront(t, n);
    } else {
      GlyphsRead(gs[1..], t, n);
      GlyphReads(gs[0], SpellAll(gs[1..]) + t, |SpellAll(gs[1..])| + n);
      Assoc3(Spelling(gs[0]), SpellAll(gs[1..]), t);
      PrependTwice(Meaning(gs[0]), MeanAll(gs[1..]), Unescape(t, n));
    }
  }

  lemma NothingInFront(t: seq<byte>, n: nat)
    requires ScanLength(t) == n
    ensures Prepend([], Unescape(t, n)) == Unescape(t, n)
  {
    hide Unescape;
    if Unescape(t, n).Good? { assert [] + Unescape(t, n).text == Unescape(t, n).text; }
  }

  lemma PrependTwice(a: seq<byte>, b: seq<byte>, r: Unescaped)
    ensures Prepend(a, Prepend(b, r)) == Prepend(a + b, r)
  {
    if r.Good? { Assoc3(a, b, r.text); }
  }

  lemma EmptyLiteral(rest: seq<byte>)
    ensures ScanLength([QUOTE] + rest) == 0 && Unescape([QUOTE] + rest, 0) == Unescaped.Good([])
  {
  }

  /** parse_string on any literal of well-formed characters: their meaning, up to the first NUL. */
  lemma LiteralMeans(gs: seq<Glyph>, rest: seq<byte>)
    requires AllProper(gs) && Terminated(rest)
    ensures var s := [QUOTE] + SpellAll(gs) + [QUOTE] + rest;
      Terminated(s) && ParseString(s) == Ok(CString(MeanAll(gs)), rest)
  {
    hide Unescape, ScanLength, SpellAll, MeanAll, AllProper;
    var s := [QUOTE] + SpellAll(gs) + [QUOTE] + rest;
    EmptyLiteral(rest);
    GlyphsRead(gs, [QUOTE] + rest, 0);
    assert s[1..] == SpellAll(gs) + ([QUOTE] + rest);
    assert s[|SpellAll(gs)| + 2..] == rest;
    assert s[|s| - 1] == rest[|rest| - 1];
    assert MeanAll(gs) + [] == MeanAll(gs);
  }

  // ---------------------------------------------------------------- what the first pass counts

  /** How many escapes there are; a surrogate pair is two. */
  function Escapes(gs: seq<Glyph>): nat {
    if gs == [] then 0
    else (if gs[0].Plain? then 0 else if gs[0].Pair? then 2 else 1) + Escapes(gs[1..])
  }

  lemma {:induction false} ScanShift(a: seq<byte>, b: seq<byte>, k: nat)
    requires k <= |b| && !ScanTo(a + b, |a|).escaped
    ensures ScanTo(a + b, |a| + k) == Scan(ScanTo(b, k).escaped, ScanTo(a + b, |a|).skips + ScanTo(b, k).skips)
  {
    if k > 0 { ScanShift(a, b, k - 1); }
  }

  lemma {:induction false} ScanPrefix(a: seq<byte>, b: seq<byte>, k: nat)
    requires k <= |a|
    ensures ScanTo(a + b, k) == ScanTo(a, k)
  {
    if k > 0 { ScanPrefix(a, b, k - 1); }
  }

  lemma {:induction false} NoBackslash(t: seq<byte>, k: nat)
    requires k <= |t| && forall i :: 0 <= i < k ==> t[i] != BACKSLASH
    ensures ScanTo(t, k) == Scan(false, 0)
  {
    if k > 0 { NoBackslash(t, k - 1); }
  }

  lemma EscapeSkips(b: byte, d: seq<byte>)
    requires forall i :: 0 <= i < |d| ==> d[i] != BACKSLASH
    ensures ScanTo([BACKSLASH, b] + d, 2 + |d|) == Scan(false, 1)
  {
    var a, t := [BACKSLASH, b], [BACKSLASH, b] + d;
    assert ScanTo(t, 0) == Scan(false, 0);
    assert ScanTo(t, 1) == Scan(true, 1);
    assert ScanTo(t, 2) == Scan(false, 1);
    NoBackslash(d, |d|);
    ScanShift(a, d, |d|);
  }

  lemma PlainDigits(d: seq<byte>, n: nat)
    requires Spells4(d, n)
    ensures forall i :: 0 <= i < |d| ==> d[i] != BACKSLASH
  {
  }

  lemma GlyphSkips(g: Glyph)
    requires Proper(g)
    ensures ScanTo(Spelling(g), |Spelling(g)|) == Scan(false, Escapes([g]))
  {
    hide Spells4, ScanTo, IsUtf8;
    assert [g][1..] == [] && Escapes([]) == 0;
    match g
    case Plain(b) => NoBackslash([b], 1);
    case Short(i) =>
      EscapeSkips(LETTERS[i], []);
      assert [BACKSLASH, LETTERS[i]] + [] == Spelling(g);
    case Unit(d, cp, _) =>
      PlainDigits(d, cp);
      EscapeSkips(LOWER_U, d);
    case Pair(d, e, cp, _) =>
      PlainDigits(d, 0xD800 + (cp - 0x10000) / 0x400);
      PlainDigits(e, 0xDC00 + (cp - 0x10000) % 0x400);
      EscapeSkips(LOWER_U, d);
      EscapeSkips(LOWER_U, e);
      var a, b := [BACKSLASH, LOWER_U] + d, [BACKSLASH, LOWER_U] + e;
      ScanPrefix(a, b, |a|);
      ScanShift(a, b, |b|);
  }

  /** The first pass counts the escapes, and so what is reserved is two bytes more than the literal without one
      byte for each. */
  lemma {:induction false} RowSkips(gs: seq<Glyph>, t: seq<byte>)
    requires AllProper(gs)
    ensures var n := |SpellAll(gs)|;
      ScanTo(SpellAll(gs) + t, n) == Scan(false, Escapes(gs)) && Reserved(SpellAll(gs) + t, n) == n - Escapes(gs) + 2
  {
    hide ScanTo, Proper, Spelling;
    if gs == [] {
      NoBackslash(SpellAll(gs) + t, 0);
    } else {
      var a, b := Spelling(gs[0]), SpellAll(gs[1..]) + t;
      RowSkips(gs[1..], t);
      GlyphSkips(gs[0]);
      ScanPrefix(a, b, |a|);
      ScanShift(a, b, |SpellAll(gs[1..])|);
      Assoc3(a, SpellAll(gs[1..]), t);
      OneEscape(gs);
    }
  }

  lemma OneEscape(gs: seq<Glyph>)
    requires gs != []
    ensures Escapes(gs) == Escapes([gs[0]]) + Escapes(gs[1..])
  {
    assert [gs[0]][1..] == [] && Escapes([]) == 0;
  }

  // ---------------------------------------------------------------- literals that are refused

  /** A backslash that starts no escape. */
  predicate BadEscape(u: seq<byte>, n: nat)
    requires n < |u|
  {
    n > 1 && u[0] == BACKSLASH && u[1] !in LETTERS && (u[1] == LOWER_U ==> ReadLiteral(u[..n]) == Refused)
  }

  /** A literal that is closed fails at its first bad escape; one that is not, behind its opening quote. */
  lemma LiteralFails(gs: seq<Glyph>, u: seq<byte>)
    requires AllProper(gs) && Terminated(u)
    ensures var s := [QUOTE] + (SpellAll(gs) + u);
      && Terminated(s)
      && (ScanLength(u) >= 0 && BadEscape(u, ScanLength(u)) ==> ParseString(s) == Fail(u))
      && (ScanLength(SpellAll(gs) + u) < 0 ==> ParseString(s) == Fail(SpellAll(gs) + u))
  {
    hide Unescape, ScanLength, SpellAll, MeanAll, AllProper;
    var s := [QUOTE] + (SpellAll(gs) + u);
    assert s[1..] == SpellAll(gs) + u && s[|s| - 1] == u[|u| - 1];
    var n := ScanLength(u);
    if n >= 0 && BadEscape(u, n) {
      GlyphsRead(gs, u, n);
      BadIsBad(u, n);
    }
  }

  lemma BadIsBad(u: seq<byte>, n: nat)
    requires n < |u| && BadEscape(u, n)
    ensures Unescape(u, n) == Bad(u)
  {
    hide ReadLiteral;
    EscapeTable(u[1]);
  }

  // ---------------------------------------------------------------- what is written

  /** print_string_ptr: a byte stands for itself unless it is a quote, a backslash or a control character; those
      with a letter are written with it, the others with four digits in lower case. */
  lemma PrintedForm(b: byte)
    ensures EscapeByte(b) == [b] <==> b >= 32 && b != 34 && b != 92
    ensures forall i :: 0 <= i < 8 && i != 2 ==> EscapeByte(MEANT[i]) == [92, LETTERS[i]]
    ensures b < 32 && b !in MEANT ==>
      var e := EscapeByte(b);
      |e| == 6 && e[..2] == [92, 117] && Spells4(e[2..], b) && forall k :: 2 <= k < 6 ==> !(65 <= e[k] <= 90)
  {
    WithLetter();
    if b < 32 && b !in MEANT {
      NoLetter(b);
      var e := EscapeByte(b);
      assert e[2..] == [48, 48, HexLower(b / 16), HexLower(b % 16)];
      HexLowerIs(b / 16);
      HexLowerIs(b % 16);
    }
  }

  lemma WithLetter()
    ensures forall i :: 0 <= i < 8 && i != 2 ==> EscapeByte(MEANT[i]) == [92, LETTERS[i]]
  {
  }

  lemma NoLetter(b: byte)
    requires b < 32 && b !in MEANT
    ensures EscapeLetter(b) < 0
  {
    assert MEANT[3] == 8 && MEANT[4] == 12 && MEANT[5] == 10 && MEANT[6] == 13 && MEANT[7] == 9;
  }

  lemma HexLowerIs(v: nat)
    requires v < 16
    ensures HexChar(HexLower(v), v) && !(65 <= HexLower(v) <= 90)
  {
  }
}
