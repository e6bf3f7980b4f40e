/** String literals as pure functions: what parse_string accepts and returns, and what
    print_string_ptr writes (cJSON.c:769-1018; section 7 of RFC 8259). */
module StringSpec {
  import opened Bytes
  import opened Json
  import opened Sequences
  import opened Unicode

  // ---------------------------------------------------------------- reading

  /** First pass: the number of bytes before the closing quote, when a backslash hides the byte
      that follows it. `t` starts after the opening quote; -1 when the text ends first. */
  function ScanLength(t: seq<byte>): (n: int)
    ensures -1 <= n < |t| || (n == -1 && t == [])
    ensures n >= 0 ==> t[n] == QUOTE
  {
    if t == [] then -1
    else if t[0] == QUOTE then 0
    else
      var step := if t[0] == BACKSLASH then 2 else 1;
      if |t| < step then -1 else
      var n := ScanLength(t[step..]);
      if n < 0 then -1 else step + n
  }

  /** Second pass over the same bytes: the text, or where it went wrong. */
  datatype Unescaped = Good(text: seq<byte>) | Bad(at: seq<byte>)

  function Prepend(p: seq<byte>, r: Unescaped): Unescaped {
    if r.Good? then Good(p + r.text) else r
  }

  /** The byte a two-byte escape stands for, or -1. */
  function SimpleEscape(c: byte): (b: int)
    ensures -1 <= b < 256
  {
    if c == LOWER_B then BACKSPACE
    else if c == LOWER_F then FORM_FEED
    else if c == LOWER_N then NEWLINE
    else if c == LOWER_R then CARRIAGE_RETURN
    else if c == LOWER_T then TAB
    else if c == QUOTE || c == BACKSLASH || c == SLASH then c
    else -1
  }

  /** `n` bytes of `u` are left before the closing quote at `u[n]`; an escape read out of step with
      the first pass can step over that quote, leaving n == -1. */
  function Unescape(u: seq<byte>, n: int): (r: Unescaped)
    requires -1 <= n < |u|
    decreases n
  {
    if n <= 0 then Good([])
    else if u[0] != BACKSLASH then Prepend([u[0]], Unescape(u[1..], n - 1))
    else if u[1] == LOWER_U then
      var literal := ReadLiteral(u[..n]);
      if literal.Refused? then Bad(u) else
      LiteralIsScalar(u[..n]);
      Prepend(Utf8(literal.codepoint), Unescape(u[literal.length..], n - literal.length))
    else if SimpleEscape(u[1]) >= 0 then Prepend([SimpleEscape(u[1])], Unescape(u[2..], n - 2))
    else Bad(u)
  }

  /** parse_string at the front of `s`. The stored value is a C string, so it ends at the first NUL
      that the text itself produces. */
  function ParseString(s: seq<byte>): (r: Parse<seq<byte>>)
    requires Terminated(s)
    ensures r.Ok? ==> Terminated(r.rest) && |r.rest| < |s| && NulFree(r.value)
  {
    if s[0] != QUOTE then Fail(s[1..]) else
    var n := ScanLength(s[1..]);
    if n < 0 then Fail(s[1..]) else
    match Unescape(s[1..], n)
    case Bad(at) => Fail(at)
    case Good(text) => Ok(CString(text), s[n + 2..])
  }

  // ---------------------------------------------------------------- writing

  function HexLower(d: int): (b: byte)
    requires 0 <= d < 16
    ensures HexDigit(b) == d
  {
    if d < 10 then DIGIT_ZERO + d else 97 + (d - 10)
  }

  /** The one-letter escapes. */
  function EscapeLetter(b: byte): (c: int)
    ensures -1 <= c < 256
    ensures c >= 0 ==> SimpleEscape(c) == b && c != LOWER_U
  {
    if b == QUOTE then QUOTE
    else if b == BACKSLASH then BACKSLASH
    else if b == BACKSPACE then LOWER_B
    else if b == FORM_FEED then LOWER_F
    else if b == NEWLINE then LOWER_N
    else if b == CARRIAGE_RETURN then LOWER_R
    else if b == TAB then LOWER_T
    else -1
  }

  function EscapeByte(b: byte): (e: seq<byte>)
    ensures 1 <= |e| <= 6
  {
    if EscapeLetter(b) >= 0 then [BACKSLASH, EscapeLetter(b)]
    else if b < 32 then [BACKSLASH, LOWER_U, DIGIT_ZERO, DIGIT_ZERO, HexLower(b / 16), HexLower(b % 16)]
    else [b]
  }

  function Escape(s: seq<byte>): seq<byte> {
    if s == [] then [] else EscapeByte(s[0]) + Escape(s[1..])
  }

  lemma EscapeEmpty()
    ensures Escape([]) == []
  {
  }

  lemma {:induction false} EscapeConcat(a: seq<byte>, b: seq<byte>)
    ensures Escape(a + b) == Escape(a) + Escape(b)
  {
    hide EscapeByte;
    if a == [] {
      assert a + b == b;
    } else {
      EscapeConcat(a[1..], b);
      assert (a + b)[1..] == a[1..] + b;
      Assoc3(EscapeByte(a[0]), Escape(a[1..]), Escape(b));
    }
  }

  /** One more byte of input adds its escape. */
  lemma EscapeGrows(s: seq<byte>, i: nat)
    requires i < |s|
    ensures Escape(s[..i + 1]) == Escape(s[..i]) + EscapeByte(s[i])
  {
    hide EscapeByte;
    EscapeConcat(s[..i], [s[i]]);
    assert s[..i + 1] == s[..i] + [s[i]];
    assert Escape([s[i]]) == EscapeByte(s[i]) + Escape([]);
  }

  lemma EscapeMonotone(s: seq<byte>, i: nat)
    requires i <= |s|
    ensures |Escape(s[..i])| <= |Escape(s)|
  {
    EscapeConcat(s[..i], s[i..]);
    assert s == s[..i] + s[i..];
  }

  lemma {:induction false} EscapeLonger(s: seq<byte>)
    ensures |Escape(s)| >= |s|
  {
    if s != [] { EscapeLonger(s[1..]); }
  }

  /** Only a text without anything to escape keeps its length, and then it is copied as it is. */
  lemma {:induction false} NoEscapes(s: seq<byte>)
    requires |Escape(s)| == |s|
    ensures Escape(s) == s
  {
    if s != [] {
      EscapeLonger(s[1..]);
      NoEscapes(s[1..]);
    }
  }

  lemma EscapeByteNulFree(b: byte)
    requires b != NUL
    ensures NulFree(EscapeByte(b))
  {
  }

  lemma {:induction false} EscapeNulFree(s: seq<byte>)
    requires NulFree(s)
    ensures NulFree(Escape(s))
  {
    if s != [] {
      EscapeByteNulFree(s[0]);
      EscapeNulFree(s[1..]);
    }
  }

  function Quoted(s: seq<byte>): seq<byte> { [QUOTE] + Escape(s) + [QUOTE] }

  lemma QuotedNulFree(s: seq<byte>)
    requires NulFree(s)
    ensures NulFree(Quoted(s))
  {
    EscapeNulFree(s);
  }

  // ---------------------------------------------------------------- round trip

  lemma {:induction false} ScanPlain(p: seq<byte>, t: seq<byte>)
    requires forall i :: 0 <= i < |p| ==> p[i] != QUOTE && p[i] != BACKSLASH
    requires ScanLength(t) >= 0
    ensures ScanLength(p + t) == |p| + ScanLength(t)
  {
    if p == [] {
      assert p + t == t;
    } else {
      ScanPlain(p[1..], t);
      assert (p + t)[1..] == p[1..] + t;
    }
  }

  lemma ScanEscape(b: byte, t: seq<byte>)
    requires ScanLength(t) >= 0
    ensures ScanLength([BACKSLASH, b] + t) == 2 + ScanLength(t)
  {
    assert ([BACKSLASH, b] + t)[2..] == t;
  }

  /** One escaped byte in front of anything is read back as that byte. */
  lemma EscapeByteReads(b: byte, t: seq<byte>, n: nat)
    requires b != NUL && ScanLength(t) == n
    ensures var e := EscapeByte(b);
      && ScanLength(e + t) == |e| + n
      && Unescape(e + t, |e| + n) == Prepend([b], Unescape(t, n))
  {
    hide ScanLength, Unescape;
    if EscapeLetter(b) >= 0 {
      LetterReads(b, t, n);
    } else if b < 32 {
      ControlReads(b, t, n);
    } else {
      PlainReads(b, t, n);
    }
  }

  lemma LetterReads(b: byte, t: seq<byte>, n: nat)
    requires EscapeLetter(b) >= 0 && ScanLength(t) == n
    ensures var r := [BACKSLASH, EscapeLetter(b)] + t;
      ScanLength(r) == 2 + n && Unescape(r, 2 + n) == Prepend([b], Unescape(t, n))
  {
    hide ScanLength, EscapeLetter, ReadLiteral;
    ScanEscape(EscapeLetter(b), t);
    assert ([BACKSLASH, EscapeLetter(b)] + t)[2..] == t;
  }

  lemma PlainReads(b: byte, t: seq<byte>, n: nat)
    requires EscapeLetter(b) < 0 && b != NUL && ScanLength(t) == n
    ensures ScanLength([b] + t) == 1 + n && Unescape([b] + t, 1 + n) == Prepend([b], Unescape(t, n))
  {
    ScanPlain([b], t);
    assert ([b] + t)[1..] == t;
  }

  lemma ControlReads(b: byte, t: seq<byte>, n: nat)
    requires 0 < b < 32 && EscapeLetter(b) < 0 && ScanLength(t) == n
    ensures ScanLength(EscapeByte(b) + t) == 6 + n
    ensures Unescape(EscapeByte(b) + t, 6 + n) == Prepend([b], Unescape(t, n))
  {
    var e := EscapeByte(b);
    assert e + t == [BACKSLASH, LOWER_U] + (e[2..] + t);
    ScanPlain(e[2..], t);
    ScanEscape(LOWER_U, e[2..] + t);
    ControlLiteral(b, (e + t)[..6 + n]);
    assert (e + t)[6..] == t;
  }

  lemma ControlLiteral(b: byte, w: seq<byte>)
    requires 0 < b < 32 && EscapeLetter(b) < 0
    requires EscapeByte(b) <= w
    ensures ReadLiteral(w) == Literal(b, 6) && Utf8(b) == [b]
  {
    var e := EscapeByte(b);
    assert w[2..][..4] == e[2..];
    assert w[2..][0] == e[2] && w[2..][1] == e[3] && w[2..][2] == e[4] && w[2..][3] == e[5];
    assert HexDigit(DIGIT_ZERO) == 0;
  }

  /** Both passes agree that the literal whose inside starts `t` is n bytes long and means `s`. */
  predicate ReadsAs(t: seq<byte>, n: nat, s: seq<byte>) {
    ScanLength(t) == n && Unescape(t, n) == Good(s)
  }

  lemma ReadsAsStep(b: byte, t: seq<byte>, n: nat, s: seq<byte>)
    requires b != NUL && ReadsAs(t, n, s)
    ensures ReadsAs(EscapeByte(b) + t, |EscapeByte(b)| + n, [b] + s)
  {
    EscapeByteReads(b, t, n);
  }

  lemma EmptyReads(rest: seq<byte>)
    ensures ReadsAs(Escape([]) + [QUOTE] + rest, 0, [])
  {
    assert Escape([]) + [QUOTE] + rest == [QUOTE] + rest;
  }

  /** The escaped text reads back whole, whatever follows its closing quote. */
  lemma {:induction false} EscapeReads(s: seq<byte>, rest: seq<byte>)
    requires NulFree(s)
    ensures ReadsAs(Escape(s) + [QUOTE] + rest, |Escape(s)|, s)
  {
    hide ReadsAs, EscapeByte;
    if s == [] {
      EmptyReads(rest);
    } else {
      EscapeReads(s[1..], rest);
      var t := Escape(s[1..]) + [QUOTE] + rest;
      ReadsAsStep(s[0], t, |Escape(s[1..])|, s[1..]);
      Assoc4(EscapeByte(s[0]), Escape(s[1..]), [QUOTE], rest);
      HeadTail(s);
    }
  }

  /** parse_string undoes print_string_ptr. */
  lemma QuotedParses(s: seq<byte>, rest: seq<byte>)
    requires NulFree(s) && Terminated(rest)
    ensures ParseString(Quoted(s) + rest) == Ok(s, rest)
  {
    var whole := Quoted(s) + rest;
    assert whole[1..] == Escape(s) + [QUOTE] + rest;
    EscapeReads(s, rest);
    CStringOfNulFree(s);
    assert whole[|Escape(s)| + 2..] == rest;
  }
}
