/** cJSON_Minify byte by byte, from any place it can stand in, and the conditions under which it keeps what
    the parser reads as string literals. minify_string takes a quote behind a backslash for an escaped one, even
    when the backslash is itself escaped, so the two need not agree where a literal ends. */
module MinifyModes {
  import opened Bytes
  import opened Sequences
  import opened Unicode
  import opened StringSpec
  import opened Minify

  // ---------------------------------------------------------------- minifying byte by byte

  /** Where cJSON_Minify stands in front of a byte: outside literals, inside one, or inside one and behind
      a backslash. */
  datatype Mode = Out | In | Esc

  function Next(m: Mode, b: byte): Mode {
    if m == Out then (if b == QUOTE then In else Out)
    else if b == BACKSLASH then Esc
    else if b == QUOTE && m == In then Out
    else In
  }

  /** A byte that cJSON_Minify drops there, or takes for the start of a comment. */
  predicate Dropped(m: Mode, b: byte) { m == Out && (IsBlank(b) || b == SLASH) }

  /** What is left of the text when it is minified from there on. */
  function MinRest(m: Mode, t: seq<byte>): (r: seq<byte>)
    ensures |r| <= |t|
    decreases |t|
  {
    if m == Out then Minified(t)
    else if t == [] then []
    else [t[0]] + MinRest(Next(m, t[0]), t[1..])
  }

  /** A literal is copied, and minifying goes on outside. */
  lemma {:induction false} CopyThenOut(t: seq<byte>)
    ensures MinRest(In, t) == t[..CopyLength(t)] + Minified(t[CopyLength(t)..])
  {
    hide Minified;
    if t == [] {
    } else if t[0] == QUOTE {
      assert t[..1] == [QUOTE];
    } else {
      var k := if t[0] == BACKSLASH && |t| > 1 && t[1] == QUOTE then 2 else 1;
      CopyThenOut(t[k..]);
      var n := CopyLength(t[k..]);
      assert t[k..][n..] == t[k + n..] && t[..k] + t[k..][..n] == t[..k + n];
      Assoc3(t[..k], t[k..][..n], Minified(t[k + n..]));
      BehindBackslash(t);
    }
  }

  lemma CopyStep(m: Mode, t: seq<byte>)
    requires m != Out && t != []
    ensures MinRest(m, t) == [t[0]] + MinRest(Next(m, t[0]), t[1..])
  {
  }

  /** Behind a backslash only a quote is treated differently. */
  lemma EscAsIn(t: seq<byte>)
    requires t == [] || t[0] != QUOTE
    ensures MinRest(Esc, t) == MinRest(In, t)
  {
  }

  lemma BehindBackslash(t: seq<byte>)
    requires t != [] && t[0] != QUOTE
    ensures var k := if t[0] == BACKSLASH && |t| > 1 && t[1] == QUOTE then 2 else 1;
      MinRest(In, t) == t[..k] + MinRest(In, t[k..])
  {
    hide MinRest;
    CopyStep(In, t);
    assert t[..1] == [t[0]];
    if t[0] == BACKSLASH {
      if |t| > 1 && t[1] == QUOTE {
        CopyStep(Esc, t[1..]);
        assert t[..2] == [t[0]] + [t[1]] && t[1..][1..] == t[2..];
        Assoc3([t[0]], [t[1]], MinRest(In, t[2..]));
      } else {
        EscAsIn(t[1..]);
      }
    }
  }

  /** A byte that is not dropped is kept. */
  lemma StepKept(m: Mode, t: seq<byte>)
    requires t != [] && !Dropped(m, t[0])
    ensures MinRest(m, t) == [t[0]] + MinRest(Next(m, t[0]), t[1..])
  {
    hide CopyLength;
    if m == Out {
      assert t[..1] == [t[0]];
      if t[0] == QUOTE {
        CopyThenOut(t[1..]);
        var n := CopyLength(t[1..]);
        assert t[1 + n..] == t[1..][n..] && t[..1 + n] == [QUOTE] + t[1..][..n];
        Assoc3([QUOTE], t[1..][..n], Minified(t[1 + n..]));
      }
    }
  }

  /** cJSON_Minify behind the bytes of u. */
  function Advance(m: Mode, u: seq<byte>): Mode
    decreases |u|
  {
    if u == [] then m else Advance(Next(m, u[0]), u[1..])
  }

  /** It keeps all of them. */
  predicate AllKept(m: Mode, u: seq<byte>)
    decreases |u|
  {
    u == [] || (!Dropped(m, u[0]) && AllKept(Next(m, u[0]), u[1..]))
  }

  lemma {:induction false} FirstDropped(m: Mode, u: seq<byte>) returns (k: nat)
    requires !AllKept(m, u)
    ensures k < |u| && AllKept(m, u[..k]) && Dropped(Advance(m, u[..k]), u[k])
    decreases |u|
  {
    if Dropped(m, u[0]) {
      k := 0;
    } else {
      var j := FirstDropped(Next(m, u[0]), u[1..]);
      k := j + 1;
      assert u[..k][0] == u[0] && u[..k][1..] == u[1..][..j];
    }
  }

  // ---------------------------------------------------------------- buffers

  /** A buffer whose only NUL is its last byte. */
  ghost predicate CText(s: seq<byte>) {
    Terminated(s) && NulFree(s[..|s| - 1])
  }

  /** The buffer after minification from there on. */
  function MinText(s: seq<byte>, m: Mode): (r: seq<byte>)
    requires Terminated(s)
    ensures Terminated(r)
  {
    MinRest(m, s[..|s| - 1]) + [NUL]
  }

  lemma CTextFirst(s: seq<byte>)
    requires CText(s)
    ensures s[0] == NUL <==> |s| == 1
  {
    if |s| > 1 { assert s[..|s| - 1][0] == s[0]; }
  }

  lemma CTextTail(s: seq<byte>, k: nat)
    requires CText(s) && k < |s|
    ensures CText(s[k..]) && s[k..][..|s| - k - 1] == s[..|s| - 1][k..]
  {
    var t := s[..|s| - 1][k..];
    assert s[k..][..|s| - k - 1] == t;
    forall i | 0 <= i < |t| ensures t[i] != NUL {
      assert t[i] == s[..|s| - 1][k + i];
    }
  }

  lemma KeptByte(s: seq<byte>, m: Mode)
    requires CText(s) && s[0] != NUL && !Dropped(m, s[0])
    ensures |s| > 1 && CText(s[1..]) && MinText(s, m) == [s[0]] + MinText(s[1..], Next(m, s[0]))
  {
    hide MinRest;
    CTextFirst(s);
    CTextTail(s, 1);
    StepKept(m, s[..|s| - 1]);
  }

  lemma BlankByte(s: seq<byte>)
    requires CText(s) && IsBlank(s[0])
    ensures |s| > 1 && CText(s[1..]) && MinText(s, Out) == MinText(s[1..], Out)
  {
    CTextFirst(s);
    CTextTail(s, 1);
  }

  lemma {:induction false} RestRun(m: Mode, t: seq<byte>, k: nat)
    requires k <= |t| && AllKept(m, t[..k])
    ensures MinRest(m, t) == t[..k] + MinRest(Advance(m, t[..k]), t[k..])
    decreases k
  {
    hide MinRest;
    if k == 0 {
      assert t[0..] == t && t[..0] == [];
    } else {
      var n := Next(m, t[0]);
      assert t[..k][0] == t[0] && t[..k][1..] == t[1..][..k - 1];
      StepKept(m, t);
      RestRun(n, t[1..], k - 1);
      assert t[1..][k - 1..] == t[k..];
      assert t[..k] == [t[0]] + t[1..][..k - 1];
      Assoc3([t[0]], t[1..][..k - 1], MinRest(Advance(n, t[1..][..k - 1]), t[k..]));
    }
  }

  lemma KeptRun(s: seq<byte>, m: Mode, k: nat)
    requires CText(s) && k < |s| && AllKept(m, s[..k])
    ensures CText(s[k..]) && MinText(s, m) == s[..k] + MinText(s[k..], Advance(m, s[..k]))
  {
    hide MinRest, AllKept, Advance;
    var t := s[..|s| - 1];
    TakeTake(s, |s| - 1, k);
    RestRun(m, t, k);
    CTextTail(s, k);
    Assoc3(s[..k], MinRest(Advance(m, s[..k]), t[k..]), [NUL]);
  }

  lemma MinEnd(m: Mode)
    ensures MinText([NUL], m) == [NUL]
  {
    assert [NUL][..0] == [];
  }

  // ---------------------------------------------------------------- the conditions

  /** cJSON_Minify, started in mode m, keeps every byte of the literals the parser reads. */
  predicate Harmless(s: seq<byte>, m: Mode)
    decreases |s|
  {
    if s == [] then true
    else if s[0] == QUOTE then
      var n := ScanLength(s[1..]);
      n < 0 || (AllKept(m, s[..n + 2]) && Harmless(s[n + 2..], Advance(m, s[..n + 2])))
    else Harmless(s[1..], Next(m, s[0]))
  }

  lemma HarmlessByte(s: seq<byte>, m: Mode)
    requires s != [] && s[0] != QUOTE
    ensures Harmless(s, m) <==> Harmless(s[1..], Next(m, s[0]))
  {
    hide ScanLength, AllKept, Advance;
  }

  lemma HarmlessLiteral(s: seq<byte>, m: Mode)
    requires s != [] && s[0] == QUOTE && ScanLength(s[1..]) >= 0
    ensures var n := ScanLength(s[1..]) + 2;
      Harmless(s, m) <==> AllKept(m, s[..n]) && Harmless(s[n..], Advance(m, s[..n]))
  {
    hide ScanLength, AllKept, Advance;
  }

  /** Reading the text as the parser does, no string literal has a backslash as its last byte. */
  predicate NoTrailingBackslash(s: seq<byte>)
    decreases |s|
  {
    if s == [] then true
    else if s[0] == QUOTE then
      var n := ScanLength(s[1..]);
      n < 0 || ((n == 0 || s[n] != BACKSLASH) && NoTrailingBackslash(s[n + 2..]))
    else NoTrailingBackslash(s[1..])
  }

  /** The parser and cJSON_Minify agree on the end of a literal that does not end in a backslash. */
  lemma {:induction false} SameEnd(t: seq<byte>, m: Mode)
    requires ScanLength(t) >= 0 && (ScanLength(t) == 0 || t[ScanLength(t) - 1] != BACKSLASH)
    requires m == In || (m == Esc && ScanLength(t) > 0)
    ensures var u := t[..ScanLength(t) + 1]; AllKept(m, u) && Advance(m, u) == Out
    decreases |t|
  {
    hide AllKept, Advance, ScanLength;
    var n := ScanLength(t);
    var u := t[..n + 1];
    assert u[0] == t[0];
    OneByte(m, u);
    if t[0] == QUOTE {
      AtQuote(t);
      assert u[1..] == [];
      NoBytes(Out);
      return;
    }
    ScanStep(t);
    if t[0] == BACKSLASH {
      assert u[1] == t[1] && u[1..][0] == t[1];
      assert u[1..][1..] == u[2..];
      DropTake(t, 2, n + 1);
      OneByte(Esc, u[1..]);
      SameEnd(t[2..], Next(Esc, t[1]));
    } else {
      DropTake(t, 1, n + 1);
      SameEnd(t[1..], In);
    }
  }

  lemma ScanStep(t: seq<byte>)
    requires t != [] && t[0] != QUOTE && ScanLength(t) >= 0
    ensures var j := if t[0] == BACKSLASH then 2 else 1;
      j <= |t| && ScanLength(t[j..]) >= 0 && ScanLength(t) == j + ScanLength(t[j..])
  {
  }

  lemma NotClosed(u: seq<byte>)
    requires 0 < ScanLength(u)
    ensures u[0] != QUOTE
  {
  }

  lemma AtQuote(t: seq<byte>)
    requires t != [] && t[0] == QUOTE
    ensures ScanLength(t) == 0
  {
  }

  lemma OneByte(m: Mode, u: seq<byte>)
    requires u != []
    ensures AllKept(m, u) <==> !Dropped(m, u[0]) && AllKept(Next(m, u[0]), u[1..])
    ensures Advance(m, u) == Advance(Next(m, u[0]), u[1..])
  {
  }

  lemma NoBytes(m: Mode)
    ensures AllKept(m, []) && Advance(m, []) == m
  {
  }

  /** So only a literal that ends in an escaped backslash can do harm. */
  lemma {:induction false} OnlyTrailingBackslashes(s: seq<byte>)
    requires NoTrailingBackslash(s)
    ensures Harmless(s, Out)
    decreases |s|
  {
    hide ScanLength;
    if s == [] {
    } else if s[0] != QUOTE {
      OnlyTrailingBackslashes(s[1..]);
    } else if ScanLength(s[1..]) >= 0 {
      var n := ScanLength(s[1..]);
      SameEnd(s[1..], In);
      assert s[..n + 2][0] == QUOTE && s[..n + 2][1..] == s[1..][..n + 1];
      OnlyTrailingBackslashes(s[n + 2..]);
    }
  }

  /** The letters of the two-byte escapes, without the slash. */
  predicate ShortEscape(b: byte) {
    b == QUOTE || b == BACKSLASH || b == LOWER_B || b == LOWER_F || b == LOWER_N || b == LOWER_R || b == LOWER_T
  }

  /** One byte or escape of a literal: its length, and the bytes it stands for. */
  datatype Piece = Piece(length: nat, bytes: seq<byte>) | NoPiece

  /** The piece that t begins with, unless it is an escape that stands for a NUL, a space or a slash. */
  function FirstPiece(t: seq<byte>): (p: Piece)
    requires t != []
    ensures p.Piece? ==> 0 < p.length <= |t|
  {
    if t[0] != BACKSLASH then Piece(1, [t[0]])
    else if |t| < 2 then NoPiece
    else if t[1] == LOWER_U then
      var literal := ReadLiteral(t);
      if literal.Refused? then NoPiece
      else if literal.codepoint == NUL || literal.codepoint == SPACE || literal.codepoint == SLASH then NoPiece
      else
        LiteralIsScalar(t);
        Piece(literal.length, Utf8(literal.codepoint))
    else if ShortEscape(t[1]) then Piece(2, [SimpleEscape(t[1])])
    else NoPiece
  }

  /** The text is a row of such pieces: outside literals single bytes, inside them bytes and escapes. */
  predicate Spelled(t: seq<byte>) {
    t == [] || var p := FirstPiece(t); p.Piece? && Spelled(t[p.length..])
  }

  /** No literal the parser reads holds a control character, as section 7 of RFC 8259 demands. */
  predicate NoControls(s: seq<byte>)
    decreases |s|
  {
    if s == [] then true
    else if s[0] == QUOTE then
      var n := ScanLength(s[1..]);
      n < 0 || ((forall i :: 0 <= i < n + 2 ==> s[i] >= SPACE) && NoControls(s[n + 2..]))
    else NoControls(s[1..])
  }

  /** A blank or a slash in a literal has no other spelling. */
  ghost predicate OneSpelling(s: seq<byte>) { Spelled(s) && NoControls(s) }
}
