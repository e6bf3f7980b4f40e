/** What cJSON_Minify makes of a text, stretch by stretch: blanks, comments and lone slashes go, literals and all
    other bytes stay; and every text is a row of such stretches with at most one unfinished stretch at its end
    (cJSON.c:2781-2876). */
module MinifyStretches {
  import opened Bytes
  import opened Sequences
  import opened Minify
  import opened ChildList

  datatype Stretch =
    | Blank(b: byte)
    | Line(text: seq<byte>)
    | Block(text: seq<byte>)
    | LoneSlash
    | Byte(b: byte)
    | Literal(text: seq<byte>)

  /** No end of a block comment begins inside c, not even with the star behind it. */
  predicate Unended(c: seq<byte>) {
    forall i :: 0 <= i < |c| ==> c[i] != 42 || (if i + 1 < |c| then c[i + 1] else 42) != 47
  }

  /** A quote inside a literal stands behind a backslash, and the closing quote does not. */
  predicate Inside(c: seq<byte>) {
    (forall i :: 0 <= i < |c| && c[i] == 34 ==> i > 0 && c[i - 1] == 92) && (c != [] ==> c[|c| - 1] != 92)
  }

  predicate Proper(p: Stretch) {
    match p
    case Blank(b) => b == 32 || b == 9 || b == 10 || b == 13
    case Line(c) => 10 !in c
    case Block(c) => Unended(c)
    case LoneSlash => true
    case Byte(b) => b != 32 && b != 9 && b != 10 && b != 13 && b != 47 && b != 34
    case Literal(c) => Inside(c)
  }

  function Spelling(p: Stretch): (s: seq<byte>)
    ensures s != []
  {
    match p
    case Blank(b) => [b]
    case Line(c) => [47, 47] + c + [10]
    case Block(c) => [47, 42] + c + [42, 47]
    case LoneSlash => [47]
    case Byte(b) => [b]
    case Literal(c) => [34] + c + [34]
  }

  /** What is kept of it. */
  function Keep(p: Stretch): seq<byte> {
    if p.Byte? || p.Literal? then Spelling(p) else []
  }

  function SpellAll(ps: seq<Stretch>): seq<byte> {
    if ps == [] then [] else Spelling(ps[0]) + SpellAll(ps[1..])
  }

  function KeepAll(ps: seq<Stretch>): seq<byte> {
    if ps == [] then [] else Keep(ps[0]) + KeepAll(ps[1..])
  }

  /** The stretches are proper, and no lone slash stands in front of a byte that would make it a comment. */
  predicate ProperRow(ps: seq<Stretch>, rest: seq<byte>) {
    ps == [] ||
    var behind := SpellAll(ps[1..]) + rest;
    && Proper(ps[0]) && (ps[0].LoneSlash? ==> behind == [] || (behind[0] != 47 && behind[0] != 42))
    && ProperRow(ps[1..], rest)
  }

  // ---------------------------------------------------------------- one stretch

  lemma {:induction false} LineEnds(c: seq<byte>, rest: seq<byte>)
    requires 10 !in c
    ensures AfterLine(c + [10] + rest) == rest
  {
    var t := c + [10] + rest;
    if c == [] {
      assert t[1..] == rest;
    } else {
      assert t[1..] == c[1..] + [10] + rest;
      LineEnds(c[1..], rest);
    }
  }

  lemma {:induction false} BlockEnds(c: seq<byte>, rest: seq<byte>)
    requires Unended(c)
    ensures AfterBlock(c + [42, 47] + rest) == rest
  {
    var t := c + [42, 47] + rest;
    if c == [] {
      assert t[2..] == rest;
    } else {
      assert t[1..] == c[1..] + [42, 47] + rest;
      assert forall i :: 0 <= i < |c| - 1 ==> c[1..][i] == c[i + 1];
      BlockEnds(c[1..], rest);
      assert t[1] == if |c| > 1 then c[1] else 42;
    }
  }

  lemma {:induction false} LiteralEnds(c: seq<byte>, rest: seq<byte>)
    requires Inside(c)
    ensures CopyLength(c + [34] + rest) == |c| + 1
    decreases |c|
  {
    var t := c + [34] + rest;
    if c != [] {
      assert t[0] == c[0] && c[0] != 34;
      if c[0] == 92 && |c| > 1 && c[1] == 34 {
        assert t[2..] == c[2..] + [34] + rest;
        assert forall i :: 0 <= i < |c| - 2 ==> c[2..][i] == c[i + 2];
        PairInside(c);
        LiteralEnds(c[2..], rest);
      } else {
        assert t[1..] == c[1..] + [34] + rest;
        TailInside(c);
        LiteralEnds(c[1..], rest);
      }
    }
  }

  lemma PairInside(c: seq<byte>)
    requires Inside(c) && |c| > 1 && c[0] == 92 && c[1] == 34
    ensures Inside(c[2..])
  {
    forall i | 0 <= i < |c| - 2 && c[2..][i] == 34 ensures i > 0 && c[2..][i - 1] == 92 {
      assert c[i + 2] == 34 && c[i + 1] == 92;
    }
  }

  lemma TailInside(c: seq<byte>)
    requires Inside(c) && c != [] && !(c[0] == 92 && |c| > 1 && c[1] == 34)
    ensures Inside(c[1..])
  {
    forall i | 0 <= i < |c| - 1 && c[1..][i] == 34 ensures i > 0 && c[1..][i - 1] == 92 {
      assert c[i + 1] == 34 && c[i] == 92;
    }
  }

  /** A line comment goes with its line end, whatever follows. */
  lemma LineMinified(c: seq<byte>, rest: seq<byte>)
    requires 10 !in c
    ensures Minified([47, 47] + c + [10] + rest) == Minified(rest)
  {
    hide AfterLine, AfterBlock, CopyLength;
    var t := [47, 47] + c + [10] + rest;
    assert t[2..] == c + [10] + rest;
    LineEnds(c, rest);
  }

  /** A block comment goes with its end. */
  lemma BlockMinified(c: seq<byte>, rest: seq<byte>)
    requires Unended(c)
    ensures Minified([47, 42] + c + [42, 47] + rest) == Minified(rest)
  {
    hide AfterLine, AfterBlock, CopyLength, Unended;
    var t := [47, 42] + c + [42, 47] + rest;
    assert t[2..] == c + [42, 47] + rest;
    BlockEnds(c, rest);
  }

  lemma LiteralMinified(c: seq<byte>, rest: seq<byte>)
    requires Inside(c)
    ensures Minified([34] + c + [34] + rest) == [34] + c + [34] + Minified(rest)
  {
    hide AfterLine, AfterBlock, CopyLength, Inside;
    var t := [34] + c + [34] + rest;
    assert t[1..] == c + [34] + rest;
    LiteralEnds(c, rest);
    DropAppend([34] + c + [34], rest);
  }

  lemma ByteMinified(b: byte, rest: seq<byte>)
    requires b != 34 && (b == 47 ==> rest == [] || (rest[0] != 47 && rest[0] != 42))
    ensures Minified([b] + rest) ==
      (if b == 32 || b == 9 || b == 10 || b == 13 || b == 47 then [] else [b]) + Minified(rest)
  {
    hide AfterLine, AfterBlock, CopyLength;
    assert ([b] + rest)[1..] == rest && ([b] + rest)[..1] == [b];
  }

  lemma StretchMinified(p: Stretch, rest: seq<byte>)
    requires Proper(p) && (p.LoneSlash? ==> rest == [] || (rest[0] != 47 && rest[0] != 42))
    ensures Minified(Spelling(p) + rest) == Keep(p) + Minified(rest)
  {
    hide Minified, Inside, Unended;
    match p
    case Line(c) => LineMinified(c, rest);
    case Block(c) => BlockMinified(c, rest);
    case Literal(c) => LiteralMinified(c, rest);
    case Blank(b) => ByteMinified(b, rest);
    case Byte(b) => ByteMinified(b, rest);
    case LoneSlash => ByteMinified(47, rest);
  }

  // ---------------------------------------------------------------- whole texts

  /** Of any proper row of stretches only the bytes and the literals are kept, whatever follows. */
  lemma {:induction false} RowMinified(ps: seq<Stretch>, rest: seq<byte>)
    requires ProperRow(ps, rest)
    ensures Minified(SpellAll(ps) + rest) == KeepAll(ps) + Minified(rest)
  {
    hide Minified, Spelling, Proper, Keep;
    if ps == [] {
      assert SpellAll(ps) + rest == rest;
    } else {
      var behind := SpellAll(ps[1..]) + rest;
      RowMinified(ps[1..], rest);
      StretchMinified(ps[0], behind);
      Assoc3(Spelling(ps[0]), SpellAll(ps[1..]), rest);
      Assoc3(Keep(ps[0]), KeepAll(ps[1..]), Minified(rest));
    }
  }

  /** A comment or a literal that is not ended. */
  datatype Tail = Nothing | OpenLine(text: seq<byte>) | OpenBlock(text: seq<byte>) | OpenLiteral(text: seq<byte>)

  predicate ProperTail(e: Tail) {
    match e
    case Nothing => true
    case OpenLine(c) => 10 !in c
    case OpenBlock(c) => forall i :: 0 <= i < |c| - 1 ==> c[i] != 42 || c[i + 1] != 47
    case OpenLiteral(c) => forall i :: 0 <= i < |c| && c[i] == 34 ==> i > 0 && c[i - 1] == 92
  }

  function TailText(e: Tail): seq<byte> {
    match e
    case Nothing => []
    case OpenLine(c) => [47, 47] + c
    case OpenBlock(c) => [47, 42] + c
    case OpenLiteral(c) => [34] + c
  }

  lemma {:induction false} LineOpen(c: seq<byte>)
    requires 10 !in c
    ensures AfterLine(c) == []
  {
    if c != [] { LineOpen(c[1..]); }
  }

  lemma {:induction false} BlockOpen(c: seq<byte>)
    requires forall i :: 0 <= i < |c| - 1 ==> c[i] != 42 || c[i + 1] != 47
    ensures AfterBlock(c) == []
  {
    if c != [] {
      assert forall i :: 0 <= i < |c| - 1 ==> c[1..][i] == c[i + 1];
      BlockOpen(c[1..]);
    }
  }

  lemma {:induction false} LiteralOpen(c: seq<byte>)
    requires forall i :: 0 <= i < |c| && c[i] == 34 ==> i > 0 && c[i - 1] == 92
    ensures CopyLength(c) == |c|
    decreases |c|
  {
    if c != [] {
      var k := if c[0] == 92 && |c| > 1 && c[1] == 34 then 2 else 1;
      forall i | 0 <= i < |c| - k && c[k..][i] == 34 ensures i > 0 && c[k..][i - 1] == 92 {
        assert c[i + k] == 34 && c[i + k - 1] == 92;
      }
      LiteralOpen(c[k..]);
    }
  }

  /** Of an unfinished comment nothing is kept; an unfinished literal is kept whole. */
  lemma TailMinified(e: Tail)
    requires ProperTail(e)
    ensures Minified(TailText(e)) == if e.OpenLiteral? then TailText(e) else []
  {
    hide Minified, AfterLine, AfterBlock, CopyLength;
    var t := TailText(e);
    MinifiedEmpty();
    if t != [] {
      StepMinified(t, 0);
      assert t[0..] == t;
      match e
      case OpenLine(c) =>
        assert t[2..] == c;
        LineOpen(c);
      case OpenBlock(c) =>
        assert t[2..] == c;
        BlockOpen(c);
      case OpenLiteral(c) =>
        assert t[1..] == c;
        LiteralOpen(c);
        assert t[0..|c| + 1] == t && t[|c| + 1..] == [];
    }
  }

  // ---------------------------------------------------------------- every text

  lemma {:induction false} FindNewline(t: seq<byte>) returns (c: seq<byte>, ended: bool)
    ensures 10 !in c && if ended then c + [10] <= t else c == t
  {
    if t == [] {
      c, ended := [], false;
    } else if t[0] == 10 {
      c, ended := [], true;
    } else {
      c, ended := FindNewline(t[1..]);
      if ended { assert t == [t[0]] + t[1..] && [t[0]] + (c + [10]) == ([t[0]] + c) + [10]; }
      c := [t[0]] + c;
    }
  }

  lemma {:induction false} FindBlockEnd(t: seq<byte>) returns (c: seq<byte>, ended: bool)
    ensures ended ==> Unended(c) && c + [42, 47] <= t
    ensures !ended ==> c == t && forall i :: 0 <= i < |c| - 1 ==> c[i] != 42 || c[i + 1] != 47
  {
    if t == [] {
      c, ended := [], false;
    } else if |t| > 1 && t[0] == 42 && t[1] == 47 {
      c, ended := [], true;
    } else {
      c, ended := FindBlockEnd(t[1..]);
      if ended {
        assert t == [t[0]] + t[1..] && [t[0]] + (c + [42, 47]) == ([t[0]] + c) + [42, 47];
        assert |t| > 1 && t[1] == (c + [42, 47])[0];
      }
      c := [t[0]] + c;
    }
  }

  lemma {:induction false} FindQuote(t: seq<byte>) returns (c: seq<byte>, ended: bool)
    ensures ended ==> Inside(c) && c + [34] <= t
    ensures !ended ==> c == t && forall i :: 0 <= i < |c| && c[i] == 34 ==> i > 0 && c[i - 1] == 92
    decreases |t|
  {
    if t == [] {
      c, ended := [], false;
    } else if t[0] == 34 {
      c, ended := [], true;
    } else {
      var k := if t[0] == 92 && |t| > 1 && t[1] == 34 then 2 else 1;
      var d;
      d, ended := FindQuote(t[k..]);
      c := t[..k] + d;
      assert t == t[..k] + t[k..];
      if ended {
        assert t[..k] + (d + [34]) == c + [34];
        QuoteBehind(t, k, d);
      }
      assert forall i :: k <= i < |c| ==> c[i] == d[i - k];
    }
  }

  /** A single backslash is not the last byte of a closed literal. */
  lemma QuoteBehind(t: seq<byte>, k: nat, d: seq<byte>)
    requires t != [] && t[0] != 34 && k <= |t| && Inside(d) && d + [34] <= t[k..]
    requires k == if t[0] == 92 && |t| > 1 && t[1] == 34 then 2 else 1
    ensures Inside(t[..k] + d)
  {
    var c := t[..k] + d;
    assert t[k] == (d + [34])[0];
    forall i | 0 <= i < |c| && c[i] == 34 ensures i > 0 && c[i - 1] == 92 {
      if i >= k { assert d[i - k] == 34; }
    }
  }

  /** Every text is a row of stretches with at most one unfinished one behind it. */
  lemma {:induction false} Stretches(t: seq<byte>) returns (ps: seq<Stretch>, e: Tail)
    ensures ProperTail(e) && ProperRow(ps, TailText(e)) && SpellAll(ps) + TailText(e) == t
    decreases |t|
  {
    hide Proper, ProperTail, ProperRow, Spelling, SpellAll, TailText;
    if t == [] {
      ps, e := [], Nothing;
      NoStretch(e);
      return;
    }
    var p, open := FirstStretch(t);
    if open.Some? {
      ps, e := [], open.value;
      NoStretch(e);
      return;
    }
    var n := |Spelling(p)|;
    var behind := t[n..];
    assert t == Spelling(p) + behind;
    ps, e := Stretches(behind);
    if p.LoneSlash? { AfterSlash(t); }
    RowStep(p, ps, TailText(e));
    ps := [p] + ps;
  }

  lemma AfterSlash(t: seq<byte>)
    requires t != [] && (|t| == 1 || (t[1] != 47 && t[1] != 42))
    ensures |Spelling(LoneSlash)| == 1
    ensures var behind := t[1..]; behind == [] || (behind[0] != 47 && behind[0] != 42)
  {
  }

  lemma NoStretch(e: Tail)
    ensures ProperRow([], TailText(e)) && SpellAll([]) + TailText(e) == TailText(e)
    ensures ProperTail(Nothing) && TailText(Nothing) == []
  {
    assert [] + TailText(e) == TailText(e);
  }

  lemma RowStep(p: Stretch, ps: seq<Stretch>, rest: seq<byte>)
    requires Proper(p) && ProperRow(ps, rest)
    requires var behind := SpellAll(ps) + rest; p.LoneSlash? ==> behind == [] || (behind[0] != 47 && behind[0] != 42)
    ensures ProperRow([p] + ps, rest) && SpellAll([p] + ps) + rest == Spelling(p) + (SpellAll(ps) + rest)
  {
    hide Proper, Spelling;
    assert ([p] + ps)[1..] == ps;
    Assoc3(Spelling(p), SpellAll(ps), rest);
  }

  lemma FirstStretch(t: seq<byte>) returns (p: Stretch, open: Option<Tail>)
    requires t != []
    ensures open == None ==> Proper(p) && Spelling(p) <= t
    ensures open == None && p.LoneSlash? ==> |t| == 1 || (t[1] != 47 && t[1] != 42)
    ensures open.Some? ==> ProperTail(open.value) && TailText(open.value) == t
  {
    p, open := LoneSlash, None;
    if t[0] == 34 {
      var c, ended := FindQuote(t[1..]);
      assert t == [34] + t[1..];
      if ended {
        p := Literal(c);
        assert [34] + (c + [34]) == Spelling(p);
      } else {
        open := Some(OpenLiteral(c));
      }
    } else if t[0] == 47 && |t| > 1 && t[1] == 47 {
      var c, ended := FindNewline(t[2..]);
      assert t == [47, 47] + t[2..];
      if ended {
        p := Line(c);
        assert [47, 47] + (c + [10]) == Spelling(p);
      } else {
        open := Some(OpenLine(c));
      }
    } else if t[0] == 47 && |t| > 1 && t[1] == 42 {
      var c, ended := FindBlockEnd(t[2..]);
      assert t == [47, 42] + t[2..];
      if ended {
        p := Block(c);
        assert [47, 42] + (c + [42, 47]) == Spelling(p);
      } else {
        open := Some(OpenBlock(c));
      }
    } else if t[0] != 47 {
      p := if t[0] == 32 || t[0] == 9 || t[0] == 10 || t[0] == 13 then Blank(t[0]) else Byte(t[0]);
    }
  }

  /** So this is the minified text of any text at all. */
  lemma MinifiedIs(t: seq<byte>) returns (ps: seq<Stretch>, e: Tail)
    ensures ProperTail(e) && ProperRow(ps, TailText(e)) && SpellAll(ps) + TailText(e) == t
    ensures Minified(t) == KeepAll(ps) + if e.OpenLiteral? then TailText(e) else []
  {
    hide Minified, ProperRow, ProperTail, SpellAll, KeepAll, TailText;
    ps, e := Stretches(t);
    RowMinified(ps, TailText(e));
    TailMinified(e);
  }
}
