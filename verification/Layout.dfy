/** The layout of printed text, read off its bytes alone: a scanner that knows literals and open brackets, and
    says which blanks must stand between two tokens; and that the printer's text passes it (cJSON.c:1536-1822). */
module Layout {
  import opened Bytes
  import opened Json
  import opened Sequences
  import StringSpec
  import NumberSpec
  import opened PrinterSpec

  // ---------------------------------------------------------------- the scanner

  /** Between tokens, with the open brackets, the last byte that is no blank and the blanks since; or inside a
      string literal; or behind something that may not stand there. */
  datatype Place =
    | Gap(open: seq<byte>, last: byte, blanks: seq<byte>)
    | Literal(open: seq<byte>, hidden: bool)
    | Wrong

  /** A line end and as many tabs. */
  function NewLine(tabs: nat): seq<byte> { [10] + seq(tabs, i => 9) }

  function Top(open: seq<byte>): byte { if open == [] then 0 else open[|open| - 1] }

  /** The blanks between two tokens. Formatted: the closing brace stands on a line of its own, indented by one
      tab less than there are brackets open; behind an opening brace, and behind a comma of an object, a line
      begins, with a tab for each open bracket; behind a comma of an array one space; behind a colon one tab;
      and none elsewhere. Not formatted: none at all. */
  function Blanks(format: bool, last: byte, next: byte, open: seq<byte>): seq<byte> {
    if !format || open == [] then []
    else if next == 125 then NewLine(|open| - 1)
    else if last == 123 then NewLine(|open|)
    else if last == 44 then (if Top(open) == 91 then [32] else NewLine(|open|))
    else if last == 58 then [9]
    else []
  }

  function Step(p: Place, b: byte, format: bool): Place {
    match p
    case Wrong => Wrong
    case Literal(open, hidden) =>
      if hidden then Literal(open, false)
      else if b == 92 then Literal(open, true)
      else if b == 34 then Gap(open, 34, [])
      else p
    case Gap(open, last, blanks) =>
      if b <= 32 then Gap(open, last, blanks + [b])
      else if blanks != Blanks(format, last, b, open) then Wrong
      else if b == 34 then Literal(open, false)
      else if b == 91 || b == 123 then Gap(open + [b], b, [])
      else if b == 93 || b == 125 then
        if Top(open) == b - 2 then Gap(open[..|open| - 1], b, []) else Wrong
      else Gap(open, b, [])
  }

  function Walk(p: Place, t: seq<byte>, format: bool): Place
    decreases |t|
  {
    if t == [] then p else Walk(Step(p, t[0], format), t[1..], format)
  }

  /** The text is laid out well from its beginning to its end: all brackets closed, no blank behind. */
  predicate LaidOut(t: seq<byte>, format: bool) {
    var p := Walk(Gap([], 0, []), t, format);
    p.Gap? && p.open == [] && p.blanks == []
  }

  lemma {:induction false} WalkBoth(p: Place, a: seq<byte>, b: seq<byte>, format: bool)
    ensures Walk(p, a + b, format) == Walk(Walk(p, a, format), b, format)
    decreases |a|
  {
    hide Step;
    if a == [] {
      assert a + b == b;
    } else {
      WalkBoth(Step(p, a[0], format), a[1..], b, format);
      assert (a + b)[1..] == a[1..] + b;
    }
  }

  lemma WalkOne(p: Place, b: byte, format: bool)
    ensures Walk(p, [b], format) == Step(p, b, format)
  {
    hide Step;
    assert [b][1..] == [];
    assert Walk(Step(p, b, format), [], format) == Step(p, b, format);
  }

  // ---------------------------------------------------------------- places

  /** A value or a name may begin here. */
  predicate Ready(p: Place, format: bool) {
    p.Gap? && p.blanks == Blanks(format, p.last, 34, p.open)
  }

  /** A value or a name has just ended. */
  predicate Behind(p: Place, open: seq<byte>) {
    p.Gap? && p.open == open && p.blanks == [] && p.last != 123 && p.last != 44 && p.last != 58
  }

  lemma OtherBytes(format: bool, last: byte, next: byte, open: seq<byte>)
    requires next != 125
    ensures Blanks(format, last, next, open) == Blanks(format, last, 34, open)
  {
  }

  predicate Plain(b: byte) { b > 32 && b !in [34, 44, 58, 91, 93, 123, 125] }

  lemma {:induction false} WalkPlain(p: Place, t: seq<byte>, format: bool)
    requires Ready(p, format) && t != [] && forall i :: 0 <= i < |t| ==> Plain(t[i])
    ensures Behind(Walk(p, t, format), p.open)
    decreases |t|
  {
    var q := Step(p, t[0], format);
    assert Plain(t[0]);
    StepPlain(p, t[0], format);
    if |t| == 1 {
      assert Walk(q, t[1..], format) == q;
    } else {
      WalkPlain(q, t[1..], format);
    }
  }

  lemma StepPlain(p: Place, b: byte, format: bool)
    requires Ready(p, format) && Plain(b)
    ensures Behind(Step(p, b, format), p.open) && Ready(Step(p, b, format), format)
  {
    OtherBytes(format, p.last, b, p.open);
  }

  // ---------------------------------------------------------------- literals

  lemma {:induction false} WalkEscape(open: seq<byte>, s: seq<byte>, format: bool)
    ensures Walk(Literal(open, false), StringSpec.Escape(s), format) == Literal(open, false)
  {
    hide StringSpec.EscapeByte, Step;
    if s != [] {
      WalkByte(open, s[0], format);
      WalkEscape(open, s[1..], format);
      WalkBoth(Literal(open, false), StringSpec.EscapeByte(s[0]), StringSpec.Escape(s[1..]), format);
    }
  }

  lemma WalkByte(open: seq<byte>, b: byte, format: bool)
    ensures Walk(Literal(open, false), StringSpec.EscapeByte(b), format) == Literal(open, false)
  {
    hide Walk;
    var e, p := StringSpec.EscapeByte(b), Literal(open, false);
    EscapeShape(b);
    if |e| == 1 {
      assert e == [b];
      WalkOne(p, b, format);
    } else {
      var c, d := e[1], e[2..];
      assert e == [92] + ([c] + d);
      WalkBoth(p, [92], [c] + d, format);
      WalkOne(p, 92, format);
      WalkBoth(Literal(open, true), [c], d, format);
      WalkOne(Literal(open, true), c, format);
      WalkInside(open, d, format);
    }
  }

  lemma EscapeShape(b: byte)
    ensures var e := StringSpec.EscapeByte(b);
      && (|e| == 1 ==> e == [b] && b != 34 && b != 92)
      && (|e| > 1 ==> e[0] == 92 && forall i :: 2 <= i < |e| ==> e[i] != 34 && e[i] != 92)
  {
  }

  lemma {:induction false} WalkInside(open: seq<byte>, t: seq<byte>, format: bool)
    requires forall i :: 0 <= i < |t| ==> t[i] != 34 && t[i] != 92
    ensures Walk(Literal(open, false), t, format) == Literal(open, false)
  {
    if t != [] { WalkInside(open, t[1..], format); }
  }

  lemma WalkQuoted(p: Place, s: seq<byte>, format: bool)
    requires p.Gap? && Ready(p, format)
    ensures Behind(Walk(p, StringSpec.Quoted(s), format), p.open)
  {
    hide Walk, StringSpec.Escape;
    WalkBoth(p, [34] + StringSpec.Escape(s), [34], format);
    WalkBoth(p, [34], StringSpec.Escape(s), format);
    WalkOne(p, 34, format);
    WalkEscape(p.open, s, format);
    WalkOne(Literal(p.open, false), 34, format);
  }

  // ---------------------------------------------------------------- values

  lemma WordsPlain()
    ensures forall i :: 0 <= i < |NULL_TEXT| ==> Plain(NULL_TEXT[i])
    ensures forall i :: 0 <= i < |TRUE_TEXT| ==> Plain(TRUE_TEXT[i])
    ensures forall i :: 0 <= i < |FALSE_TEXT| ==> Plain(FALSE_TEXT[i])
  {
  }

  lemma NumberPlain(n: int)
    ensures forall i :: 0 <= i < |NumberSpec.IntText(n)| ==> Plain(NumberSpec.IntText(n)[i])
  {
    hide NumberSpec.IntText;
    var t := NumberSpec.IntText(n);
    forall i | 0 <= i < |t| ensures Plain(t[i]) { assert NumberSpec.IsNumberChar(t[i]); }
  }

  /** A value's text, where a value may begin, ends where a value has ended, under the same open brackets. */
  lemma {:induction false} ValueLaid(j: Json, format: bool, p: Place)
    requires p.Gap? && Ready(p, format)
    ensures Behind(Walk(p, Text(j, format, |p.open|), format), p.open)
    decreases j, 0
  {
    hide Walk, ItemsText, MembersText, OpenObject, CloseObject, Ready, Behind, Blanks, NumberSpec.IntText,
      StringSpec.Quoted;
    WordsPlain();
    match j
    case Null => WalkPlain(p, NULL_TEXT, format);
    case False => WalkPlain(p, FALSE_TEXT, format);
    case True => WalkPlain(p, TRUE_TEXT, format);
    case Number(_, n) =>
      NumberPlain(n);
      WalkPlain(p, NumberSpec.IntText(n), format);
    case String(text) => WalkQuoted(p, text, format);
    case Array(items) => ArrayLaid(items, format, p);
    case Object(members) => ObjectLaid(members, format, p);
  }

  lemma OpenBracket(p: Place, b: byte, format: bool)
    requires Ready(p, format) && (b == 91 || b == 123)
    ensures Step(p, b, format) == Gap(p.open + [b], b, [])
  {
    OtherBytes(format, p.last, b, p.open);
  }

  lemma CloseArray(p: Place, open: seq<byte>, format: bool)
    requires p.Gap? && p.open == open + [91] && p.blanks == [] && p.last != 123 && p.last != 44 && p.last != 58
    ensures Behind(Step(p, 93, format), open)
  {
    assert (open + [91])[..|open|] == open;
  }

  lemma {:induction false} ArrayLaid(items: seq<Json>, format: bool, p: Place)
    requires p.Gap? && Ready(p, format)
    ensures Behind(Walk(p, Text(Array(items), format, |p.open|), format), p.open)
    decreases items, 2
  {
    hide Walk, ItemsText, Ready, Step, Blanks;
    var body := ItemsText(items, format, |p.open| + 1);
    WalkBoth(p, [91] + body, [93], format);
    WalkBoth(p, [91], body, format);
    WalkOne(p, 91, format);
    OpenBracket(p, 91, format);
    var q := Gap(p.open + [91], 91, []);
    ArrayOpened(p.open, format);
    if items == [] {
      NoItem(format, |p.open| + 1, q);
    } else {
      ItemsLaid(items, format, q);
    }
    var r := Walk(q, body, format);
    WalkOne(r, 93, format);
    CloseArray(r, p.open, format);
  }

  lemma ArrayOpened(open: seq<byte>, format: bool)
    ensures Ready(Gap(open + [91], 91, []), format)
  {
  }

  lemma NoItem(format: bool, depth: nat, p: Place)
    ensures Walk(p, ItemsText([], format, depth), format) == p
  {
  }

  lemma Comma(p: Place, open: seq<byte>, format: bool)
    requires Behind(p, open)
    ensures Step(p, 44, format) == Gap(open, 44, [])
  {
  }

  lemma ArraySeparated(p: Place, open: seq<byte>, format: bool)
    requires Behind(p, open) && Top(open) == 91
    ensures var q := Walk(p, Separator(format), format); q.Gap? && Ready(q, format) && q.open == open
  {
    hide Walk, Step;
    Comma(p, open, format);
    WalkOne(p, 44, format);
    if format {
      assert Separator(format) == [44] + [32];
      WalkBoth(p, [44], [32], format);
      WalkOne(Gap(open, 44, []), 32, format);
      Spaced(open, 44, [], 32, format);
    }
  }

  lemma Spaced(open: seq<byte>, last: byte, blanks: seq<byte>, b: byte, format: bool)
    requires b <= 32
    ensures Step(Gap(open, last, blanks), b, format) == Gap(open, last, blanks + [b])
  {
  }

  lemma {:induction false} ItemsLaid(items: seq<Json>, format: bool, p: Place)
    requires items != [] && p.Gap? && Ready(p, format) && Top(p.open) == 91
    ensures Behind(Walk(p, ItemsText(items, format, |p.open|), format), p.open)
    decreases items, 1
  {
    hide Walk, Ready, Step, Blanks, Text;
    var first := Text(items[0], format, |p.open|);
    ValueLaid(items[0], format, p);
    if |items| > 1 {
      var more := ItemsText(items[1..], format, |p.open|);
      WalkBoth(p, first + Separator(format), more, format);
      WalkBoth(p, first, Separator(format), format);
      ArraySeparated(Walk(p, first, format), p.open, format);
      ItemsLaid(items[1..], format, Walk(p, first + Separator(format), format));
    }
  }

  // ---------------------------------------------------------------- objects

  function LineBreak(format: bool): seq<byte> { if format then [10] else [] }

  /** In front of a member's line, or of the closing brace. */
  predicate AtLine(p: Place, open: seq<byte>, format: bool) {
    p.Gap? && p.open == open && p.blanks == LineBreak(format)
  }

  lemma {:induction false} ObjectLaid(members: seq<Member>, format: bool, p: Place)
    requires p.Gap? && Ready(p, format)
    ensures Behind(Walk(p, Text(Object(members), format, |p.open|), format), p.open)
    decreases members, 3
  {
    hide Walk, MembersText, Ready, Step, Blanks, OpenObject, CloseObject;
    var body := MembersText(members, format, |p.open| + 1);
    WalkBoth(p, OpenObject(format) + body, CloseObject(format, |p.open|), format);
    WalkBoth(p, OpenObject(format), body, format);
    ObjectOpened(p, format);
    MembersLaid(members, format, p.open, Walk(p, OpenObject(format), format));
    ObjectClosed(Walk(p, OpenObject(format) + body, format), p.open, format);
  }

  lemma ObjectOpened(p: Place, format: bool)
    requires p.Gap? && Ready(p, format)
    ensures var q := Walk(p, OpenObject(format), format); AtLine(q, p.open + [123], format) && q.last == 123
  {
    hide Walk, Step, Ready;
    OpenBracket(p, 123, format);
    WalkOne(p, 123, format);
    if format {
      assert OpenObject(format) == [123] + [10];
      WalkBoth(p, [123], [10], format);
      var q := Gap(p.open + [123], 123, []);
      WalkOne(q, 10, format);
      Spaced(p.open + [123], 123, [], 10, format);
    }
  }

  lemma {:induction false} WalkTabs(p: Place, n: nat, format: bool)
    requires p.Gap?
    ensures Walk(p, Tabs(n), format) == p.(blanks := p.blanks + seq(n, i => 9))
    decreases n
  {
    hide Step;
    var s := seq(n, i => 9);
    if n == 0 {
      assert p.blanks + s == p.blanks;
    } else {
      Spaced(p.open, p.last, p.blanks, 9, format);
      var q := Gap(p.open, p.last, p.blanks + [9]);
      WalkTabs(q, n - 1, format);
      assert Tabs(n)[0] == 9 && Tabs(n)[1..] == Tabs(n - 1);
      assert s == [9] + seq(n - 1, i => 9);
      Assoc3(p.blanks, [9], seq(n - 1, i => 9));
    }
  }

  lemma ObjectClosed(p: Place, open: seq<byte>, format: bool)
    requires AtLine(p, open + [123], format)
    ensures Behind(Walk(p, CloseObject(format, |open|), format), open)
  {
    hide Walk;
    assert (open + [123])[..|open|] == open;
    if format {
      WalkBoth(p, Tabs(|open|), [125], format);
      WalkTabs(p, |open|, format);
      WalkOne(Walk(p, Tabs(|open|), format), 125, format);
    } else {
      assert CloseObject(format, |open|) == [125];
      WalkOne(p, 125, format);
    }
  }

  /** The lines of the members, and then the line of the closing brace. */
  lemma {:induction false} MembersLaid(members: seq<Member>, format: bool, open: seq<byte>, p: Place)
    requires AtLine(p, open + [123], format) && (p.last == 123 || p.last == 44)
    ensures AtLine(Walk(p, MembersText(members, format, |open| + 1), format), open + [123], format)
    decreases members, 2
  {
    hide Walk, AtLine, MemberText, LineEnd;
    if members == [] {
      NoMember(format, |open| + 1, p);
    } else {
      var line, last := MemberText(members[0], format, |open| + 1), |members| == 1;
      var more := MembersText(members[1..], format, |open| + 1);
      WalkBoth(p, line + LineEnd(format, last), more, format);
      WalkBoth(p, line, LineEnd(format, last), format);
      MemberLaid(members[0], format, open, p);
      LineEnded(Walk(p, line, format), open + [123], format, last);
      var q := Walk(p, line + LineEnd(format, last), format);
      if last {
        assert members[1..] == [];
        NoMember(format, |open| + 1, q);
      } else {
        MembersLaid(members[1..], format, open, q);
      }
    }
  }

  lemma NoMember(format: bool, depth: nat, p: Place)
    ensures Walk(p, MembersText([], format, depth), format) == p
  {
  }

  lemma LineEnded(p: Place, open: seq<byte>, format: bool, last: bool)
    requires Behind(p, open)
    ensures var q := Walk(p, LineEnd(format, last), format); AtLine(q, open, format) && (!last ==> q.last == 44)
  {
    hide Walk, Step;
    var q := if last then p else Gap(open, 44, []);
    if !last {
      Comma(p, open, format);
      WalkOne(p, 44, format);
    } else {
      WalkNothing(p, format);
    }
    WalkBoth(p, if last then [] else [44], LineBreak(format), format);
    if format {
      WalkOne(q, 10, format);
      Spaced(q.open, q.last, [], 10, format);
    } else {
      WalkNothing(q, format);
    }
  }

  lemma WalkNothing(p: Place, format: bool)
    ensures Walk(p, [], format) == p
  {
  }

  lemma {:induction false} MemberLaid(m: Member, format: bool, open: seq<byte>, p: Place)
    requires AtLine(p, open + [123], format) && (p.last == 123 || p.last == 44)
    ensures Behind(Walk(p, MemberText(m, format, |open| + 1), format), open + [123])
    decreases m, 1
  {
    hide Walk, Behind, Text, AtLine, NameText, Ready;
    var name, value := NameText(m.key, format, |open| + 1), Text(m.value, format, |open| + 1);
    WalkBoth(p, name, value, format);
    NameLaid(m.key, format, open, p);
    ValueLaid(m.value, format, Walk(p, name, format));
  }

  lemma NameLaid(key: seq<byte>, format: bool, open: seq<byte>, p: Place)
    requires AtLine(p, open + [123], format) && (p.last == 123 || p.last == 44)
    ensures var q := Walk(p, NameText(key, format, |open| + 1), format);
      q.Gap? && Ready(q, format) && q.open == open + [123]
  {
    hide Walk, StringSpec.Quoted, Ready, Behind, AtLine;
    var tabs := if format then Tabs(|open| + 1) else [];
    WalkBoth(p, tabs + StringSpec.Quoted(key), Colon(format), format);
    WalkBoth(p, tabs, StringSpec.Quoted(key), format);
    Indented(p, open, format);
    var q := Walk(p, tabs, format);
    WalkQuoted(q, key, format);
    ColonLaid(Walk(q, StringSpec.Quoted(key), format), open + [123], format);
  }

  lemma Indented(p: Place, open: seq<byte>, format: bool)
    requires AtLine(p, open + [123], format) && (p.last == 123 || p.last == 44)
    ensures var q := Walk(p, if format then Tabs(|open| + 1) else [], format);
      q.Gap? && Ready(q, format) && q.open == open + [123]
  {
    hide Walk;
    if format { WalkTabs(p, |open| + 1, format); } else { WalkNothing(p, format); }
  }

  lemma ColonLaid(p: Place, open: seq<byte>, format: bool)
    requires Behind(p, open) && open != []
    ensures var q := Walk(p, Colon(format), format); q.Gap? && Ready(q, format) && q.open == open
  {
    hide Walk;
    WalkOne(p, 58, format);
    if format {
      assert Colon(format) == [58] + [9];
      WalkBoth(p, [58], [9], format);
      WalkOne(Gap(open, 58, []), 9, format);
    }
  }

  // ---------------------------------------------------------------- whole texts

  /** Printed text is laid out as Blanks says, formatted or not. */
  lemma TextLaidOut(j: Json, format: bool)
    ensures LaidOut(Text(j, format, 0), format)
  {
    hide Walk, Text;
    ValueLaid(j, format, Gap([], 0, []));
  }
}
