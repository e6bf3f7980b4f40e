/** A literal of which cJSON_Minify drops a blank or a slash is read as a different string, if it is read at all. */
module MinifyLiterals {
  import opened Bytes
  import opened Sequences
  import opened Unicode
  import opened StringSpec
  import opened Minify
  import opened MinifyModes

  // ---------------------------------------------------------------- pieces

  /** A byte that may stand in an escape. */
  predicate Inner(b: byte) {
    b == LOWER_U || HexDigit(b) >= 0 || ShortEscape(b)
  }

  /** Four digits do not count as 0 only when they are digits. */
  lemma DigitsInner(t: seq<byte>)
    requires |t| >= 4 && Hex4(t) != 0
    ensures forall i :: 0 <= i < 4 ==> HexDigit(t[i]) >= 0
  {
  }

  lemma Hex4IsLocal(t: seq<byte>, u: seq<byte>)
    requires |t| >= 4 && |u| >= 4 && u[..4] == t[..4]
    ensures Hex4(u) == Hex4(t)
  {
    assert u[0] == u[..4][0] && u[1] == u[..4][1] && u[2] == u[..4][2] && u[3] == u[..4][3];
  }

  /** An accepted literal does not depend on what follows it. */
  lemma LiteralIsLocal(t: seq<byte>, u: seq<byte>)
    requires ReadLiteral(t).Literal? && ReadLiteral(t).length <= |u|
    requires u[..ReadLiteral(t).length] == t[..ReadLiteral(t).length]
    ensures ReadLiteral(u) == ReadLiteral(t)
  {
    hide Hex4;
    var j := ReadLiteral(t).length;
    assert u[2..][..4] == u[..j][2..6] && t[2..][..4] == t[..j][2..6];
    Hex4IsLocal(t[2..], u[2..]);
    if j == 12 {
      assert u[6] == u[..j][6] && u[7] == u[..j][7];
      assert u[8..][..4] == u[..j][8..12] && t[8..][..4] == t[..j][8..12];
      Hex4IsLocal(t[8..], u[8..]);
    }
  }

  lemma PieceIsLocal(t: seq<byte>, u: seq<byte>)
    requires t != [] && FirstPiece(t).Piece? && FirstPiece(t).length <= |u|
    requires u[..FirstPiece(t).length] == t[..FirstPiece(t).length]
    ensures FirstPiece(u) == FirstPiece(t)
  {
    hide ReadLiteral, Utf8;
    var j := FirstPiece(t).length;
    assert u[0] == u[..j][0] == t[..j][0] == t[0];
    if t[0] == BACKSLASH {
      assert u[1] == u[..j][1] == t[..j][1] == t[1];
      if t[1] == LOWER_U { LiteralIsLocal(t, u); }
    }
  }

  /** The bytes of an escape. */
  lemma EscapeInner(t: seq<byte>)
    requires t != [] && t[0] == BACKSLASH && FirstPiece(t).Piece?
    ensures forall i :: 0 <= i < FirstPiece(t).length ==> Inner(t[i])
  {
    hide Utf8, Hex4;
    if t[1] == LOWER_U {
      DigitsInner(t[2..]);
      assert forall i :: 2 <= i < 6 ==> t[i] == t[2..][i - 2];
      if FirstPiece(t).length == 12 {
        DigitsInner(t[8..]);
        assert forall i :: 8 <= i < 12 ==> t[i] == t[8..][i - 8];
      }
    }
  }

  lemma PieceInner(t: seq<byte>, k: nat)
    requires t != [] && FirstPiece(t).Piece? && k < |t| && !Inner(t[k])
    ensures k == 0 || FirstPiece(t).length <= k
  {
    hide ReadLiteral, Inner;
    if t[0] == BACKSLASH { EscapeInner(t); }
  }

  /** What a piece stands for: never a blank or a slash, unless it is that byte. */
  lemma PieceBytes(t: seq<byte>)
    requires t != [] && FirstPiece(t).Piece? && t[0] != NUL
    ensures var bs := FirstPiece(t).bytes;
      NulFree(bs) && bs != [] && (t[0] != SPACE && t[0] != SLASH ==> bs[0] != SPACE && bs[0] != SLASH)
  {
    hide ReadLiteral;
    if t[0] == BACKSLASH && t[1] == LOWER_U { LiteralIsScalar(t); }
  }

  // ---------------------------------------------------------------- rows of pieces

  /** No escape is open in front of a byte that cannot stand in one. */
  lemma {:induction false} NoneOpen(t: seq<byte>, k: nat)
    requires Spelled(t) && k < |t| && !Inner(t[k])
    ensures Spelled(t[k..])
    decreases |t|
  {
    hide FirstPiece, Inner;
    if k == 0 {
      assert t[0..] == t;
    } else {
      PieceInner(t, k);
      var j := FirstPiece(t).length;
      NoneOpen(t[j..], k - j);
      assert t[j..][k - j..] == t[k..];
    }
  }

  lemma {:induction false} SpelledFront(s: seq<byte>)
    requires s != [] && s[|s| - 1] == NUL && Spelled(s)
    ensures Spelled(s[..|s| - 1])
    decreases |s|
  {
    hide FirstPiece;
    if |s| > 1 {
      PieceInner(s, |s| - 1);
      var j := FirstPiece(s).length;
      PieceIsLocal(s, s[..|s| - 1]) by { TakeFront(s, |s| - 1, j); }
      SpelledFront(s[j..]);
      assert s[..|s| - 1][j..] == s[j..][..|s| - j - 1];
    }
  }

  lemma TakeFront(s: seq<byte>, n: nat, j: nat)
    requires j <= n <= |s|
    ensures s[..n][..j] == s[..j]
  {
  }

  lemma {:induction false} LineGoesOn(t: seq<byte>, j: nat)
    requires j <= |t| && forall i :: 0 <= i < j ==> t[i] != NEWLINE
    ensures AfterLine(t) == AfterLine(t[j..])
    decreases j
  {
    if j > 0 {
      LineGoesOn(t[1..], j - 1);
      assert t[1..][j - 1..] == t[j..];
    } else {
      assert t[0..] == t;
    }
  }

  lemma {:induction false} BlockGoesOn(t: seq<byte>, j: nat)
    requires j <= |t| && forall i :: 0 <= i < j ==> t[i] != ASTERISK
    ensures AfterBlock(t) == AfterBlock(t[j..])
    decreases j
  {
    if j > 0 {
      BlockGoesOn(t[1..], j - 1);
      assert t[1..][j - 1..] == t[j..];
    } else {
      assert t[0..] == t;
    }
  }

  lemma {:induction false} SpelledAfterLine(t: seq<byte>)
    requires Spelled(t)
    ensures Spelled(AfterLine(t))
    decreases |t|
  {
    hide ReadLiteral, Utf8, Inner;
    if t != [] && t[0] != NEWLINE {
      var j := FirstPiece(t).length;
      EscapeOnLine(t);
      LineGoesOn(t, j);
      SpelledAfterLine(t[j..]);
    }
  }

  lemma EscapeOnLine(t: seq<byte>)
    requires t != [] && FirstPiece(t).Piece?
    ensures forall i :: 0 < i < FirstPiece(t).length ==> t[i] != NEWLINE && t[i] != ASTERISK
  {
    hide ReadLiteral;
    if t[0] == BACKSLASH { EscapeInner(t); }
  }

  lemma {:induction false} SpelledAfterBlock(t: seq<byte>)
    requires Spelled(t)
    ensures Spelled(AfterBlock(t))
    decreases |t|
  {
    hide ReadLiteral, Utf8, Inner;
    if t != [] {
      var j := FirstPiece(t).length;
      if t[0] != ASTERISK {
        EscapeOnLine(t);
        BlockGoesOn(t, j);
        SpelledAfterBlock(t[j..]);
      } else if |t| > 1 && t[1] == SLASH {
        assert t[1..][1..] == t[2..];
      } else {
        SpelledAfterBlock(t[1..]);
      }
    }
  }

  /** A string that starts neither with a blank nor with a slash, in whatever spelling. */
  predicate StartsOtherwise(r: seq<byte>) {
    r != [] ==> !IsBlank(r[0]) && r[0] != SLASH && FirstPiece(r).Piece?
  }

  /** Outside literals the next byte kept is no blank, no slash, and starts no escape that stands for one. */
  lemma {:induction false} NextKept(t: seq<byte>)
    requires Spelled(t)
    ensures StartsOtherwise(Minified(t))
    decreases |t|
  {
    hide AfterLine, AfterBlock, CopyLength, ReadLiteral, Utf8;
    if t == [] {
    } else if IsBlank(t[0]) {
      NextKept(t[1..]);
    } else if t[0] == SLASH {
      if |t| > 1 { assert t[2..] == t[1..][1..]; }
      if |t| > 1 && t[1] == SLASH {
        SpelledAfterLine(t[2..]);
        NextKept(AfterLine(t[2..]));
      } else if |t| > 1 && t[1] == ASTERISK {
        SpelledAfterBlock(t[2..]);
        NextKept(AfterBlock(t[2..]));
      } else {
        NextKept(t[1..]);
      }
    } else {
      PieceKept(t);
    }
  }

  /** A byte that is kept, or the escape it starts, is what the rest begins with. */
  lemma PieceKept(t: seq<byte>)
    requires t != [] && FirstPiece(t).Piece? && !IsBlank(t[0]) && t[0] != SLASH
    ensures StartsOtherwise(Minified(t))
  {
    hide Minified, FirstPiece;
    var j := FirstPiece(t).length;
    var u := t[..j];
    assert forall i :: 0 <= i < j ==> !IsBlank(t[i]) && t[i] != SLASH by {
      forall i | 0 < i < j ensures !IsBlank(t[i]) && t[i] != SLASH {
        if !Inner(t[i]) { PieceInner(t, i); }
      }
    }
    RunKept(Out, u);
    RestRun(Out, t, j);
    var r := Minified(t);
    assert r[0] == t[0] && r[..j] == u;
    PieceIsLocal(t, r);
  }

  lemma {:induction false} RunKept(m: Mode, u: seq<byte>)
    requires forall i :: 0 <= i < |u| ==> !IsBlank(u[i]) && u[i] != SLASH
    ensures AllKept(m, u)
    decreases |u|
  {
    if u != [] { RunKept(Next(m, u[0]), u[1..]); }
  }

  // ---------------------------------------------------------------- reading a piece

  /** A piece in front of place n. */
  predicate HasPiece(u: seq<byte>, n: nat) {
    n < |u| && FirstPiece(u).Piece? && FirstPiece(u).length <= n
  }

  lemma UnescapeStep(t: seq<byte>, n: nat)
    requires HasPiece(t, n)
    ensures var p := FirstPiece(t); Unescape(t, n) == Prepend(p.bytes, Unescape(t[p.length..], n - p.length))
  {
    hide ReadLiteral, Utf8;
    if t[0] == BACKSLASH && t[1] == LOWER_U {
      TakeFront(t, n, FirstPiece(t).length);
      LiteralIsLocal(t, t[..n]);
    }
  }

  lemma {:induction false} ScanRun(t: seq<byte>, k: nat)
    requires k <= |t| && ScanLength(t) >= 0 && forall i :: 0 <= i < k ==> t[i] != QUOTE && t[i] != BACKSLASH
    ensures ScanLength(t[k..]) >= 0 && ScanLength(t) == k + ScanLength(t[k..])
    decreases k
  {
    if k > 0 {
      ScanRun(t[1..], k - 1);
      assert t[1..][k - 1..] == t[k..];
    } else {
      assert t[0..] == t;
    }
  }

  /** The scan for the closing quote goes from piece to piece. */
  lemma ScanPiece(t: seq<byte>)
    requires t != [] && FirstPiece(t).Piece? && t[0] != QUOTE && ScanLength(t) >= 0
    ensures var j := FirstPiece(t).length; ScanLength(t[j..]) >= 0 && ScanLength(t) == j + ScanLength(t[j..])
  {
    hide ScanLength, Utf8, Hex4;
    ScanStep(t);
    if t[0] == BACKSLASH && t[1] == LOWER_U {
      ScanDigits(t);
      if FirstPiece(t).length == 12 {
        var u := t[6..];
        assert u[0] == BACKSLASH && u[2..] == t[8..];
        ScanStep(u);
        ScanDigits(u);
        assert u[6..] == t[12..];
      }
    }
  }

  lemma ScanDigits(t: seq<byte>)
    requires |t| >= 6 && Hex4(t[2..]) != 0 && ScanLength(t[2..]) >= 0
    ensures ScanLength(t[6..]) >= 0 && ScanLength(t[2..]) == 4 + ScanLength(t[6..])
  {
    hide ScanLength, Hex4;
    DigitsInner(t[2..]);
    ScanRun(t[2..], 4);
    assert t[2..][4..] == t[6..];
  }

  lemma {:induction false} CStringFront(p: seq<byte>, t: seq<byte>)
    requires NulFree(p)
    ensures CString(p + t) == p + CString(t)
  {
    hide CString;
    if p == [] {
      assert p + t == t;
    } else {
      CStringFront(p[1..], t);
      assert p + t == [p[0]] + (p[1..] + t) && p == [p[0]] + p[1..];
      CStringHead(p[0], p[1..] + t);
      Assoc3([p[0]], p[1..], CString(t));
    }
  }

  lemma CStringHead(b: byte, t: seq<byte>)
    requires b != NUL
    ensures CString([b] + t) == [b] + CString(t)
  {
    assert ([b] + t)[1..] == t;
  }

  /** The piece in front, then the rest. */
  lemma ReadPiece(u: seq<byte>, n: nat)
    requires HasPiece(u, n) && u[0] != NUL && Unescape(u, n).Good?
    ensures var p := FirstPiece(u); var r := Unescape(u[p.length..], n - p.length);
      r.Good? && CString(Unescape(u, n).text) == p.bytes + CString(r.text)
  {
    hide CString, Unescape, FirstPiece, NulFree;
    var p := FirstPiece(u);
    UnescapeStep(u, n);
    PieceBytes(u);
    CStringFront(p.bytes, Unescape(u[p.length..], n - p.length).text);
  }

  // ---------------------------------------------------------------- where two literals part

  /** The one literal begins with a blank or a slash, the other does not. */
  lemma FirstDiffers(u: seq<byte>, v: seq<byte>)
    requires 0 < ScanLength(u) && (u[0] == SPACE || u[0] == SLASH)
    requires StartsOtherwise(v) && ScanLength(v) >= 0
    requires Unescape(u, ScanLength(u)).Good? && Unescape(v, ScanLength(v)).Good?
    ensures CString(Unescape(u, ScanLength(u)).text) != CString(Unescape(v, ScanLength(v)).text)
  {
    hide CString, Unescape, ScanLength, StartsOtherwise;
    ReadPiece(u, ScanLength(u));
    OtherwiseRead(v);
  }

  lemma OtherwiseRead(v: seq<byte>)
    requires StartsOtherwise(v) && ScanLength(v) >= 0 && Unescape(v, ScanLength(v)).Good?
    ensures var text := CString(Unescape(v, ScanLength(v)).text); text == [] || (text[0] != SPACE && text[0] != SLASH)
  {
    hide CString, Unescape, ScanLength, FirstPiece;
    if ScanLength(v) == 0 {
      EmptyLiteral(v);
    } else {
      NotClosed(v);
      ScanPiece(v);
      if v[0] == NUL {
        NulFirst(v, ScanLength(v));
      } else {
        PieceBytes(v);
        ReadPiece(v, ScanLength(v));
      }
    }
  }

  lemma EmptyLiteral(v: seq<byte>)
    requires v != []
    ensures Unescape(v, 0) == Unescaped.Good([]) && CString([]) == []
  {
  }

  lemma NulFirst(v: seq<byte>, n: nat)
    requires 0 < n < |v| && v[0] == NUL && Unescape(v, n).Good?
    ensures CString(Unescape(v, n).text) == []
  {
  }

  /** Both begin with the same byte or the same escape. */
  lemma SamePiece(u: seq<byte>, v: seq<byte>, k: nat)
    requires 0 < k < |u| && k < |v| && v[..k] == u[..k] && NulFree(u[..k]) && Spelled(u)
    requires !Inner(u[k])
    ensures v[0] == u[0] != NUL && FirstPiece(u).Piece? && FirstPiece(v) == FirstPiece(u)
    ensures var j := FirstPiece(u).length;
      j <= k && v[j..][..k - j] == u[j..][..k - j] && NulFree(u[j..][..k - j]) && Spelled(u[j..])
  {
    hide FirstPiece, Inner;
    assert u[..k][0] == v[..k][0];
    PieceInner(u, k);
    var j := FirstPiece(u).length;
    TakeFront(u, k, j);
    TakeFront(v, k, j);
    PieceIsLocal(u, v);
    assert u[..k][j..] == u[j..][..k - j] && v[..k][j..] == v[j..][..k - j];
  }

  /** Two literals that agree up to a blank or slash of the first, where the second has something else. */
  lemma {:induction false} TextsDiffer(u: seq<byte>, v: seq<byte>, k: nat)
    requires k < ScanLength(u) && k < |v| && v[..k] == u[..k] && NulFree(u[..k]) && Spelled(u)
    requires u[k] == SPACE || u[k] == SLASH
    requires StartsOtherwise(v[k..]) && ScanLength(v) >= 0
    requires Unescape(u, ScanLength(u)).Good? && Unescape(v, ScanLength(v)).Good?
    ensures CString(Unescape(u, ScanLength(u)).text) != CString(Unescape(v, ScanLength(v)).text)
    decreases k
  {
    hide CString, Unescape, ScanLength, StartsOtherwise, Spelled, NulFree, FirstPiece;
    if k == 0 {
      assert v[0..] == v;
      FirstDiffers(u, v);
    } else {
      NotClosed(u);
      SamePiece(u, v, k);
      ScanPiece(u);
      ScanPiece(v);
      var p := FirstPiece(u);
      assert v[p.length..][k - p.length..] == v[k..];
      ReadPiece(u, ScanLength(u));
      ReadPiece(v, ScanLength(v));
      TextsDiffer(u[p.length..], v[p.length..], k - p.length);
      DifferBehind(p.bytes, CString(Unescape(u[p.length..], ScanLength(u[p.length..])).text),
                   CString(Unescape(v[p.length..], ScanLength(v[p.length..])).text));
    }
  }

  lemma DifferBehind(p: seq<byte>, x: seq<byte>, y: seq<byte>)
    requires x != y
    ensures p + x != p + y
  {
    assert (p + x)[|p|..] == x && (p + y)[|p|..] == y;
  }

  lemma BehindDropped(s: seq<byte>, k: nat)
    requires CText(s) && Spelled(s) && k < |s| && (IsBlank(s[k]) || s[k] == SLASH)
    ensures CText(s[k..]) && StartsOtherwise(MinText(s[k..], Out))
  {
    hide Minified, Spelled, NulFree, StartsOtherwise;
    CTextTail(s, k);
    NoneOpen(s, k);
    var u := s[k..];
    SpelledFront(u);
    NextKept(u[..|u| - 1]);
    OtherwiseToo(Minified(u[..|u| - 1]));
  }

  lemma OtherwiseToo(r: seq<byte>)
    requires StartsOtherwise(r)
    ensures StartsOtherwise(r + [NUL])
  {
    hide FirstPiece;
    if r == [] {
      PlainPiece([NUL]);
    } else {
      TakeFront(r + [NUL], |r|, FirstPiece(r).length);
      assert (r + [NUL])[..|r|] == r && (r + [NUL])[0] == r[0];
      PieceIsLocal(r, r + [NUL]);
    }
  }

  lemma PlainPiece(t: seq<byte>)
    requires t != [] && t[0] != BACKSLASH
    ensures FirstPiece(t) == Piece(1, [t[0]])
  {
  }

  lemma InLiteral(s: seq<byte>, k: nat)
    requires CText(s) && Spelled(s) && s[0] == QUOTE && 0 < k < |s|
    ensures Spelled(s[1..]) && NulFree(s[1..][..k - 1])
  {
    PlainPiece(s);
    var u := s[1..][..k - 1];
    forall i | 0 <= i < |u| ensures u[i] != NUL { assert u[i] == s[..|s| - 1][i + 1]; }
  }

  /** A literal of which a blank or a slash is dropped is read as something else, if at all. */
  lemma LiteralDiffers(s: seq<byte>, m: Mode, k: nat)
    requires CText(s) && OneSpelling(s) && ParseString(s).Ok? && k < ScanLength(s[1..]) + 2
    requires AllKept(m, s[..k]) && Dropped(Advance(m, s[..k]), s[k])
    requires ParseString(MinText(s, m)).Ok?
    ensures ParseString(MinText(s, m)).value != ParseString(s).value
  {
    hide ScanLength, Unescape, CString, MinText, AllKept, Advance, Spelled, NulFree, StartsOtherwise;
    var n := ScanLength(s[1..]);
    assert 0 < k <= n;
    assert s[k] >= SPACE;
    var r := MinText(s, m);
    KeptRun(s, m, k);
    BehindDropped(s, k);
    var u, v := s[1..], r[1..];
    InLiteral(s, k);
    assert v[k - 1..] == MinText(s[k..], Out);
    assert v[..k - 1] == u[..k - 1];
    TextsDiffer(u, v, k - 1);
  }
}
