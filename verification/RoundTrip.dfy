/** Printing and parsing are inverse: the printed text of a tree is parsed back to that tree exactly
    when its containers nest no deeper than the limit. */
module RoundTrip {
  import opened Bytes
  import opened Json
  import opened Sequences
  import opened NumberSpec
  import opened StringSpec
  import opened ParserSpec
  import opened PrinterSpec

  // ---------------------------------------------------------------- whitespace between tokens

  predicate Spaces(p: seq<byte>) {
    forall i :: 0 <= i < |p| ==> p[i] <= SPACE
  }

  lemma {:induction false} SkipPrefix(p: seq<byte>, t: seq<byte>)
    requires Spaces(p) && t != [] && t[0] > SPACE
    ensures SkipSpaces(p + t) == t
  {
    if p == [] {
      assert p + t == t;
    } else {
      SkipPrefix(p[1..], t);
      assert (p + t)[1..] == p[1..] + t;
    }
  }

  // ---------------------------------------------------------------- first characters

  /** The character that tells parse_value what follows. */
  predicate StartsLike(t: seq<byte>, j: Json) {
    t != [] && match j
    case Null => t[0] == LOWER_N
    case False => t[0] == LOWER_F
    case True => t[0] == LOWER_T
    case Number(_, _) => t[0] == MINUS || IsDigit(t[0])
    case String(_) => t[0] == QUOTE
    case Array(_) => t[0] == OPEN_BRACKET
    case Object(_) => t[0] == OPEN_BRACE
  }

  lemma TextStarts(j: Json, format: bool, depth: nat)
    ensures StartsLike(Text(j, format, depth), j)
    ensures Text(j, format, depth)[0] > SPACE
  {
  }

  /** A number must not run into what follows it. */
  predicate Ends(rest: seq<byte>) {
    Terminated(rest) && !IsNumberChar(rest[0])
  }

  // ---------------------------------------------------------------- scalars

  lemma NotLiteral(s: seq<byte>)
    requires s != [] && s[0] != LOWER_N && s[0] != LOWER_F && s[0] != LOWER_T
    ensures !(NULL_TEXT <= s) && !(FALSE_TEXT <= s) && !(TRUE_TEXT <= s)
  {
  }

  lemma ScalarParses(j: Json, format: bool, level: nat, depth: nat, rest: seq<byte>)
    requires WellFormed(j) && !j.Array? && !j.Object? && Ends(rest)
    ensures ParseValue(Text(j, format, level) + rest, depth) == Ok(j, rest)
  {
    hide ParseArray, ParseObject, ParseString, ParseNumber, IntText, Quoted, Terminated;
    var s := Text(j, format, level) + rest;
    ConcatTerminated(Text(j, format, level), rest);
    TextStarts(j, format, level);
    DropAppend(Text(j, format, level), rest);
    match j
    case String(text) =>
      NotLiteral(s);
      QuotedParses(text, rest);
    case Number(_, n) =>
      NotLiteral(s);
      IntParses(n, rest);
    case Null => assert NULL_TEXT <= s;
    case False => assert !(NULL_TEXT <= s) && FALSE_TEXT <= s;
    case True => assert !(NULL_TEXT <= s) && !(FALSE_TEXT <= s) && TRUE_TEXT <= s;
  }

  lemma ConcatTerminated(p: seq<byte>, rest: seq<byte>)
    requires Terminated(rest)
    ensures Terminated(p + rest)
  {
  }

  // ---------------------------------------------------------------- containers

  /** What the theorem says of a value printed at indentation `level` and parsed at `depth`. */
  ghost predicate ValueOutcome(j: Json, s: seq<byte>, depth: nat, rest: seq<byte>)
    requires Terminated(s)
  {
    if depth + Nesting(j) <= NESTING_LIMIT then ParseValue(s, depth) == Ok(j, rest)
    else ParseValue(s, depth).Fail?
  }

  lemma {:induction false} ValueParses(j: Json, format: bool, level: nat, depth: nat, rest: seq<byte>)
    requires WellFormed(j) && Ends(rest) && depth <= NESTING_LIMIT
    ensures Terminated(Text(j, format, level) + rest)
    ensures ValueOutcome(j, Text(j, format, level) + rest, depth, rest)
    decreases j, 1
  {
    ConcatTerminated(Text(j, format, level), rest);
    match j
    case Array(items) => ArrayParses(items, format, level, depth, rest);
    case Object(members) => ObjectParses(members, format, level, depth, rest);
    case _ => ScalarParses(j, format, level, depth, rest);
  }

  lemma ContainerStart(s: seq<byte>, depth: nat)
    requires Terminated(s) && (s[0] == OPEN_BRACKET || s[0] == OPEN_BRACE)
    ensures ParseValue(s, depth) == if s[0] == OPEN_BRACKET then ParseArray(s, depth) else ParseObject(s, depth)
  {
    hide ParseArray, ParseObject, ParseString, ParseNumber;
    NotLiteral(s);
  }

  lemma {:induction false} ArrayParses(items: seq<Json>, format: bool, level: nat, depth: nat, rest: seq<byte>)
    requires AllWellFormed(items) && Ends(rest) && depth <= NESTING_LIMIT
    ensures Terminated(Text(Array(items), format, level) + rest)
    ensures ValueOutcome(Array(items), Text(Array(items), format, level) + rest, depth, rest)
    decreases items, 4
  {
    hide ParseValue, ParseArray, ItemsText, Terminated, MaxNesting, AllWellFormed;
    var body := ItemsText(items, format, level + 1);
    var s := [OPEN_BRACKET] + (body + ([CLOSE_BRACKET] + rest));
    Wrapped(OPEN_BRACKET, body, CLOSE_BRACKET, rest);
    ConcatTerminated(Text(Array(items), format, level), rest);
    ContainerStart(s, depth);
    if items == [] {
      EmptyArray(format, level, depth, rest, s);
    } else {
      FilledArray(items, format, level, depth, rest, s);
    }
  }

  lemma EmptyArray(format: bool, level: nat, depth: nat, rest: seq<byte>, s: seq<byte>)
    requires Terminated(s) && s == [OPEN_BRACKET] + (ItemsText([], format, level + 1) + ([CLOSE_BRACKET] + rest))
    ensures if depth + 1 + MaxNesting([]) <= NESTING_LIMIT then ParseArray(s, depth) == Ok(Array([]), rest)
            else ParseArray(s, depth).Fail?
  {
    hide ParseValue, ParseElements, SkipSpaces, ItemsText, Terminated, MaxNesting;
    var close := [CLOSE_BRACKET] + rest;
    EmptyItems(format, level + 1, close);
    assert s[1..] == close && close[1..] == rest;
    SkipSpacesStays(close);
  }

  lemma {:induction false} FilledArray(items: seq<Json>, format: bool, level: nat, depth: nat, rest: seq<byte>,
                                       s: seq<byte>)
    requires items != [] && AllWellFormed(items) && Ends(rest) && depth <= NESTING_LIMIT && Terminated(s)
    requires s == [OPEN_BRACKET] + (ItemsText(items, format, level + 1) + ([CLOSE_BRACKET] + rest))
    ensures if depth + 1 + MaxNesting(items) <= NESTING_LIMIT then ParseArray(s, depth) == Ok(Array(items), rest)
            else ParseArray(s, depth).Fail?
    decreases items, 3
  {
    hide ParseValue, ParseElements, SkipSpaces, ItemsText, Terminated, MaxNesting, AllWellFormed;
    if depth < NESTING_LIMIT {
      var close := [CLOSE_BRACKET] + rest;
      var inner := ItemsText(items, format, level + 1) + close;
      assert s[1..] == inner;
      CloseTerminated(CLOSE_BRACKET, rest);
      ConcatTerminated(ItemsText(items, format, level + 1), close);
      ItemsStart(items, format, level + 1, close);
      SkipSpacesStays(inner);
      ItemsParse(items, format, level + 1, depth + 1, rest, [], inner);
      assert [] + items == items;
    }
  }

  lemma Wrapped(open: byte, body: seq<byte>, close: byte, rest: seq<byte>)
    ensures [open] + body + [close] + rest == [open] + (body + ([close] + rest))
  {
  }

  lemma CloseTerminated(b: byte, rest: seq<byte>)
    requires Terminated(rest)
    ensures Terminated([b] + rest)
  {
  }

  lemma EmptyItems(format: bool, level: nat, close: seq<byte>)
    ensures ItemsText([], format, level) + close == close
    ensures MaxNesting([]) == 0
  {
  }

  /** Items begin with the first item's text. */
  lemma ItemsStart(items: seq<Json>, format: bool, level: nat, close: seq<byte>)
    requires items != []
    ensures var s := ItemsText(items, format, level) + close;
      s != [] && s[0] > SPACE && s[0] != CLOSE_BRACKET
  {
    hide ItemsText, Text;
    ItemsUnfold(items, format, level, close);
    TextStarts(items[0], format, level);
  }

  /** The first item's text, then the closing bracket or a separator and the other items. */
  function AfterItem(items: seq<Json>, format: bool, level: nat, close: seq<byte>): seq<byte>
    requires items != []
  {
    if |items| == 1 then close else Separator(format) + (ItemsText(items[1..], format, level) + close)
  }

  lemma ItemsUnfold(items: seq<Json>, format: bool, level: nat, close: seq<byte>)
    requires items != []
    ensures ItemsText(items, format, level) + close ==
      Text(items[0], format, level) + AfterItem(items, format, level, close)
  {
    hide Text;
    if |items| > 1 {
      Assoc4(Text(items[0], format, level), Separator(format), ItemsText(items[1..], format, level), close);
      Assoc3(Separator(format), ItemsText(items[1..], format, level), close);
    }
  }

  lemma NestingSplit(items: seq<Json>)
    requires items != []
    ensures MaxNesting(items) == Max(Nesting(items[0]), MaxNesting(items[1..]))
    ensures AllWellFormed(items) ==> WellFormed(items[0]) && AllWellFormed(items[1..])
  {
  }

  ghost predicate ItemsOutcome(items: seq<Json>, s: seq<byte>, depth: nat, rest: seq<byte>, before: seq<Json>)
    requires Terminated(s)
  {
    if depth + MaxNesting(items) <= NESTING_LIMIT then ParseElements(s, depth, before) == Ok(before + items, rest)
    else ParseElements(s, depth, before).Fail?
  }

  lemma {:induction false} ItemsParse(items: seq<Json>, format: bool, level: nat, depth: nat, rest: seq<byte>,
                                      before: seq<Json>, s: seq<byte>)
    requires items != [] && AllWellFormed(items) && Ends(rest) && depth <= NESTING_LIMIT && Terminated(s)
    requires SkipSpaces(s) == ItemsText(items, format, level) + ([CLOSE_BRACKET] + rest)
    ensures ItemsOutcome(items, s, depth, rest, before)
    decreases items, 2
  {
    hide ParseValue, ParseElements, SkipSpaces, ItemsText, Terminated, Nesting, MaxNesting, AllWellFormed, Text;
    var close := [CLOSE_BRACKET] + rest;
    var after := AfterItem(items, format, level, close);
    CloseTerminated(CLOSE_BRACKET, rest);
    ItemsUnfold(items, format, level, close);
    NestingSplit(items);
    AfterItemEnds(items, format, level, close);
    ValueParses(items[0], format, level, depth, after);
    SkipSpacesStays(after);
    ElementsStep(s, depth, before);
    if depth + Nesting(items[0]) <= NESTING_LIMIT {
      if |items| == 1 {
        assert close[1..] == rest;
        assert items == [items[0]];
        EmptyItems(format, level, close);
      } else {
        ItemsStart(items[1..], format, level, close);
        SkipSeparator(format, ItemsText(items[1..], format, level) + close);
        ItemsParse(items[1..], format, level, depth, rest, before + [items[0]], after[1..]);
        assert before + [items[0]] + items[1..] == before + items;
      }
    }
  }

  lemma AfterItemEnds(items: seq<Json>, format: bool, level: nat, close: seq<byte>)
    requires items != [] && Terminated(close) && close[0] == CLOSE_BRACKET
    ensures Ends(AfterItem(items, format, level, close)) && AfterItem(items, format, level, close)[0] > SPACE
    ensures AfterItem(items, format, level, close)[0] == if |items| == 1 then CLOSE_BRACKET else COMMA
    ensures |items| > 1 ==> Terminated(AfterItem(items, format, level, close)[1..])
  {
    hide ItemsText;
  }

  /** Behind the comma there is at most a space. */
  lemma SkipSeparator(format: bool, t: seq<byte>)
    requires t != [] && t[0] > SPACE
    ensures SkipSpaces((Separator(format) + t)[1..]) == t
  {
    assert (Separator(format) + t)[1..] == (if format then [SPACE] else []) + t;
    SkipPrefix(if format then [SPACE] else [], t);
  }

  // ---------------------------------------------------------------- objects

  function MemberCore(m: Member, format: bool, level: nat): seq<byte> {
    Quoted(m.key) + (Colon(format) + Text(m.value, format, level))
  }

  function Newline(format: bool): seq<byte> { if format then [NEWLINE] else [] }

  function Indent(format: bool, level: nat): seq<byte> { if format then Tabs(level) else [] }

  lemma IndentSpaces(format: bool, level: nat)
    ensures Spaces(Newline(format)) && Spaces(Indent(format, level)) && Spaces(Newline(format) + Indent(format, level))
  {
  }

  /** What stands behind the first member: the end of its line, the other members and `tail`. */
  function AfterMember(members: seq<Member>, format: bool, level: nat, tail: seq<byte>): seq<byte>
    requires members != []
  {
    if |members| == 1 then Newline(format) + tail
    else [COMMA] + (Newline(format) + (MembersText(members[1..], format, level) + tail))
  }

  lemma MembersUnfold(members: seq<Member>, format: bool, level: nat, tail: seq<byte>)
    requires members != []
    ensures MembersText(members, format, level) + tail ==
      Indent(format, level) + (MemberCore(members[0], format, level) + AfterMember(members, format, level, tail))
  {
    hide Text, Quoted, Tabs;
    var m := MemberText(members[0], format, level);
    var others := MembersText(members[1..], format, level);
    assert m == Indent(format, level) + MemberCore(members[0], format, level) by {
      MemberPieces(Indent(format, level), Quoted(members[0].key), Colon(format), Text(members[0].value, format, level));
    }
    Assoc3(Indent(format, level), MemberCore(members[0], format, level), AfterMember(members, format, level, tail));
    assert MembersText(members, format, level) + tail == m + AfterMember(members, format, level, tail) by {
      if |members| == 1 {
        LastLine(m, Newline(format), tail);
        assert others == [];
      } else {
        OtherLine(m, Newline(format), others, tail);
      }
    }
  }

  lemma MemberPieces(a: seq<byte>, b: seq<byte>, c: seq<byte>, d: seq<byte>)
    ensures a + b + c + d == a + (b + (c + d))
  {
  }

  lemma LastLine(m: seq<byte>, newline: seq<byte>, tail: seq<byte>)
    ensures m + ([] + newline) + [] + tail == m + (newline + tail)
  {
  }

  lemma OtherLine(m: seq<byte>, newline: seq<byte>, others: seq<byte>, tail: seq<byte>)
    ensures m + ([COMMA] + newline) + others + tail == m + ([COMMA] + (newline + (others + tail)))
  {
  }

  lemma CoreStarts(m: Member, format: bool, level: nat, after: seq<byte>)
    ensures var s := MemberCore(m, format, level) + after;
      s != [] && s[0] == QUOTE
  {
    hide Text;
  }

  /** Skipping to the first member of what is left. */
  lemma SkipToMember(members: seq<Member>, format: bool, level: nat, tail: seq<byte>)
    requires members != []
    ensures SkipSpaces(Newline(format) + (MembersText(members, format, level) + tail)) ==
      MemberCore(members[0], format, level) + AfterMember(members, format, level, tail)
  {
    hide SkipSpaces, MembersText, MemberCore, AfterMember, Indent, Newline;
    var core := MemberCore(members[0], format, level) + AfterMember(members, format, level, tail);
    MembersUnfold(members, format, level, tail);
    CoreStarts(members[0], format, level, AfterMember(members, format, level, tail));
    IndentSpaces(format, level);
    Assoc3(Newline(format), Indent(format, level), core);
    SkipPrefix(Newline(format) + Indent(format, level), core);
  }

  /** Skipping from the last member to the closing brace. */
  lemma SkipToClose(format: bool, level: nat, rest: seq<byte>)
    ensures SkipSpaces(Newline(format) + (CloseObject(format, level) + rest)) == [CLOSE_BRACE] + rest
  {
    hide SkipSpaces, Tabs;
    IndentSpaces(format, level);
    assert Newline(format) + (CloseObject(format, level) + rest)
        == (Newline(format) + Indent(format, level)) + ([CLOSE_BRACE] + rest);
    SkipPrefix(Newline(format) + Indent(format, level), [CLOSE_BRACE] + rest);
  }

  lemma {:induction false} ObjectParses(members: seq<Member>, format: bool, level: nat, depth: nat, rest: seq<byte>)
    requires AllMembersWellFormed(members) && Ends(rest) && depth <= NESTING_LIMIT
    ensures Terminated(Text(Object(members), format, level) + rest)
    ensures ValueOutcome(Object(members), Text(Object(members), format, level) + rest, depth, rest)
    decreases members, 4
  {
    hide ParseValue, ParseObject, MembersText, Terminated, MaxMemberNesting, AllMembersWellFormed, CloseObject,
      Newline, Text;
    var s := [OPEN_BRACE] +
      (Newline(format) + (MembersText(members, format, level + 1) + (CloseObject(format, level) + rest)));
    ObjectPieces(members, format, level, rest);
    ConcatTerminated(Text(Object(members), format, level), rest);
    ContainerStart(s, depth);
    ObjectBody(members, format, level, depth, rest, s);
    assert ValueOutcome(Object(members), s, depth, rest);
  }

  lemma {:induction false} ObjectBody(members: seq<Member>, format: bool, level: nat, depth: nat, rest: seq<byte>,
                                      s: seq<byte>)
    requires AllMembersWellFormed(members) && Ends(rest) && depth <= NESTING_LIMIT && Terminated(s)
    requires s == [OPEN_BRACE] +
      (Newline(format) + (MembersText(members, format, level + 1) + (CloseObject(format, level) + rest)))
    ensures if depth + 1 + MaxMemberNesting(members) <= NESTING_LIMIT
            then ParseObject(s, depth) == Ok(Object(members), rest)
            else ParseObject(s, depth).Fail?
    decreases members, 3
  {
    hide ParseValue, ParseMembers, SkipSpaces, MembersText, Terminated, MaxMemberNesting, AllMembersWellFormed,
      CloseObject, MemberCore, AfterMember, Newline;
    var tail := CloseObject(format, level) + rest;
    assert s[1..] == Newline(format) + (MembersText(members, format, level + 1) + tail);
    if depth < NESTING_LIMIT {
      if members == [] {
        EmptyMembers(format, level + 1, tail);
        SkipToClose(format, level, rest);
        assert ([CLOSE_BRACE] + rest)[1..] == rest;
      } else {
        SkipToMember(members, format, level + 1, tail);
        AfterMemberEnds(members, format, level + 1, rest);
        CoreStarts(members[0], format, level + 1, AfterMember(members, format, level + 1, tail));
        var first := SkipSpaces(s[1..]);
        SkipSpacesStays(first);
        ConcatTerminated(MemberCore(members[0], format, level + 1), AfterMember(members, format, level + 1, tail));
        MembersParse(members, format, level + 1, depth + 1, rest, [], first);
        assert [] + members == members;
      }
    }
  }

  lemma ObjectPieces(members: seq<Member>, format: bool, level: nat, rest: seq<byte>)
    ensures Text(Object(members), format, level) + rest ==
      [OPEN_BRACE] + (Newline(format) + (MembersText(members, format, level + 1) + (CloseObject(format, level) + rest)))
  {
    hide MembersText, CloseObject;
    var body, close := MembersText(members, format, level + 1), CloseObject(format, level);
    assert OpenObject(format) == [OPEN_BRACE] + Newline(format);
    FivePieces([OPEN_BRACE], Newline(format), body, close, rest);
  }

  lemma FivePieces(a: seq<byte>, b: seq<byte>, c: seq<byte>, d: seq<byte>, e: seq<byte>)
    ensures (a + b) + c + d + e == a + (b + (c + (d + e)))
  {
  }

  lemma EmptyMembers(format: bool, level: nat, tail: seq<byte>)
    ensures MembersText([], format, level) + tail == tail
    ensures MaxMemberNesting([]) == 0
  {
  }

  lemma MemberNestingSplit(members: seq<Member>)
    requires members != []
    ensures MaxMemberNesting(members) == Max(Nesting(members[0].value), MaxMemberNesting(members[1..]))
    ensures AllMembersWellFormed(members) ==>
      NulFree(members[0].key) && WellFormed(members[0].value) && AllMembersWellFormed(members[1..])
  {
  }

  ghost predicate MembersOutcome(members: seq<Member>, s: seq<byte>, depth: nat, rest: seq<byte>, before: seq<Member>)
    requires Terminated(s)
  {
    if depth + MaxMemberNesting(members) <= NESTING_LIMIT
    then ParseMembers(s, depth, before) == Ok(before + members, rest)
    else ParseMembers(s, depth, before).Fail?
  }

  lemma {:induction false} MembersParse(members: seq<Member>, format: bool, level: nat, depth: nat, rest: seq<byte>,
                                        before: seq<Member>, s: seq<byte>)
    requires members != [] && AllMembersWellFormed(members) && Ends(rest) && depth <= NESTING_LIMIT && Terminated(s)
    requires level > 0
    requires SkipSpaces(s) == MemberCore(members[0], format, level)
      + AfterMember(members, format, level, CloseObject(format, level - 1) + rest)
    ensures MembersOutcome(members, s, depth, rest, before)
    decreases members, 2
  {
    hide ParseMember, ParseMembers, SkipSpaces, MembersText, Terminated, Nesting, MaxMemberNesting,
      AllMembersWellFormed, MemberCore, CloseObject, AfterMember, Newline;
    var tail := CloseObject(format, level - 1) + rest;
    var after := AfterMember(members, format, level, tail);
    MemberNestingSplit(members);
    AfterMemberEnds(members, format, level, rest);
    MemberParses(members[0], format, level, depth, after, s);
    MembersStep(s, depth, before);
    if depth + Nesting(members[0].value) <= NESTING_LIMIT {
      if |members| == 1 {
        SkipToClose(format, level - 1, rest);
        assert ([CLOSE_BRACE] + rest)[1..] == rest;
        assert members == [members[0]];
        EmptyMembers(format, level, tail);
      } else {
        SkipSpacesStays(after);
        SkipToMember(members[1..], format, level, tail);
        MembersParse(members[1..], format, level, depth, rest, before + [members[0]], after[1..]);
        assert before + [members[0]] + members[1..] == before + members;
      }
    }
  }

  lemma AfterMemberEnds(members: seq<Member>, format: bool, level: nat, rest: seq<byte>)
    requires members != [] && Terminated(rest) && level > 0
    ensures var after := AfterMember(members, format, level, CloseObject(format, level - 1) + rest);
      && after != [] && Ends(after)
      && (|members| == 1 ==> after == Newline(format) + (CloseObject(format, level - 1) + rest))
      && (|members| > 1 ==> after[0] == COMMA && Terminated(after[1..]))
      && (|members| > 1 ==>
            after[1..] == Newline(format) + (MembersText(members[1..], format, level) +
                                             (CloseObject(format, level - 1) + rest)))
  {
    hide MembersText, CloseObject;
    var tail := CloseObject(format, level - 1) + rest;
    ConcatTerminated(CloseObject(format, level - 1), rest);
    ConcatTerminated(Newline(format), tail);
    CloseStarts(level - 1, rest);
    if |members| > 1 {
      ConcatTerminated(MembersText(members[1..], format, level), tail);
      ConcatTerminated(Newline(format), MembersText(members[1..], format, level) + tail);
    }
  }

  lemma CloseStarts(level: nat, rest: seq<byte>)
    ensures CloseObject(false, level) + rest == [CLOSE_BRACE] + rest
  {
  }

  ghost predicate MemberOutcome(m: Member, s: seq<byte>, depth: nat, after: seq<byte>)
    requires Terminated(s)
  {
    if depth + Nesting(m.value) <= NESTING_LIMIT then ParseMember(s, depth) == Ok(m, after)
    else ParseMember(s, depth).Fail?
  }

  lemma {:induction false} MemberParses(m: Member, format: bool, level: nat, depth: nat, after: seq<byte>, s: seq<byte>)
    requires NulFree(m.key) && WellFormed(m.value) && Ends(after) && depth <= NESTING_LIMIT && Terminated(s)
    requires SkipSpaces(s) == MemberCore(m, format, level) + after
    ensures MemberOutcome(m, s, depth, after)
    decreases m, 1
  {
    hide ParseValue, ParseString, SkipSpaces, Quoted, Text, Terminated, Nesting, WellFormed;
    var value := Text(m.value, format, level) + after;
    var colon := Colon(format) + value;
    assert MemberCore(m, format, level) + after == Quoted(m.key) + colon by {
      CorePieces(Quoted(m.key), Colon(format), Text(m.value, format, level), after);
    }
    ValueParses(m.value, format, level, depth, after);
    ConcatTerminated(Colon(format), value);
    QuotedParses(m.key, colon);
    SkipSpacesStays(colon);
    TextStarts(m.value, format, level);
    SkipColon(format, value);
  }

  lemma CorePieces(a: seq<byte>, b: seq<byte>, c: seq<byte>, d: seq<byte>)
    ensures a + (b + c) + d == a + (b + (c + d))
  {
  }

  lemma SkipColon(format: bool, t: seq<byte>)
    requires t != [] && t[0] > SPACE
    ensures SkipSpaces((Colon(format) + t)[1..]) == t
  {
    assert (Colon(format) + t)[1..] == (if format then [TAB] else []) + t;
    SkipPrefix(if format then [TAB] else [], t);
  }

  // ---------------------------------------------------------------- the theorem

  /** Parsing what was printed gives back the tree, formatted or not and with or without
      `require_null_terminated`, if and only if no more than 1000 containers are open at once. */
  lemma PrintThenParse(j: Json, format: bool, requireNullTerminated: bool)
    requires WellFormed(j)
    ensures ParseText(Text(j, format, 0), requireNullTerminated) == Ok(j, [NUL]) <==> Nesting(j) <= NESTING_LIMIT
    ensures ParseText(Text(j, format, 0), requireNullTerminated).Ok? <==> Nesting(j) <= NESTING_LIMIT
  {
    hide ParseValue, SkipSpaces, Text, Nesting, WellFormed;
    var s := Text(j, format, 0) + [NUL];
    ValueParses(j, format, 0, 0, [NUL]);
    TextStarts(j, format, 0);
    assert s[0] == Text(j, format, 0)[0];
    assert SkipBom(s) == s;
    SkipSpacesStays(s);
    SkipEnd();
  }

  lemma SkipEnd()
    ensures SkipSpaces([NUL]) == [NUL]
  {
  }
}
