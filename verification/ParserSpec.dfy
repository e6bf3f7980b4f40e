/** The recursive-descent parser as functions from the remaining text (cJSON.c:1035-1137,1309-1361,
    1438-1533,1598-1708). The remaining text always ends in the buffer's NUL. */
module ParserSpec {
  import opened Bytes
  import opened Json
  import NumberSpec
  import StringSpec

  // ---------------------------------------------------------------- whitespace

  /** Everything up to 32 counts as whitespace. */
  function DropSpaces(s: seq<byte>): (t: seq<byte>)
    ensures SuffixOf(t, s)
    ensures t != [] ==> t[0] > SPACE
  {
    if s == [] || s[0] > SPACE then s else DropSpaces(s[1..])
  }

  /** buffer_skip_whitespace: running off the end steps back onto the last byte. */
  function SkipSpaces(s: seq<byte>): (t: seq<byte>)
    ensures |t| <= |s|
    ensures Terminated(s) ==> Terminated(t)
  {
    var t := DropSpaces(s);
    if s != [] && t == [] then s[|s| - 1..] else t
  }

  // ---------------------------------------------------------------- values

  function ParseValue(s: seq<byte>, depth: nat): (r: Parse<Json>)
    requires Terminated(s)
    ensures r.Ok? ==> Terminated(r.rest) && |r.rest| < |s|
    decreases |s|, 1
  {
    if NULL_TEXT <= s then Ok(Null, s[4..])
    else if FALSE_TEXT <= s then Ok(False, s[5..])
    else if TRUE_TEXT <= s then Ok(True, s[4..])
    else if s[0] == QUOTE then
      match StringSpec.ParseString(s)
      case Ok(text, rest) => Ok(String(text), rest)
      case Fail(rest) => Fail(rest)
    else if s[0] == MINUS || NumberSpec.IsDigit(s[0]) then NumberSpec.ParseNumber(s)
    else if s[0] == OPEN_BRACKET then ParseArray(s, depth)
    else if s[0] == OPEN_BRACE then ParseObject(s, depth)
    else Fail(s)
  }

  function ParseArray(s: seq<byte>, depth: nat): (r: Parse<Json>)
    requires Terminated(s) && s[0] == OPEN_BRACKET
    ensures r.Ok? ==> Terminated(r.rest) && |r.rest| < |s|
    decreases |s|, 0
  {
    if depth >= NESTING_LIMIT then Fail(s) else
    var first := SkipSpaces(s[1..]);
    if first[0] == CLOSE_BRACKET then Ok(Array([]), first[1..]) else
    match ParseElements(first, depth + 1, [])
    case Ok(items, rest) => Ok(Array(items), rest)
    case Fail(rest) => Fail(rest)
  }

  function ParseObject(s: seq<byte>, depth: nat): (r: Parse<Json>)
    requires Terminated(s) && s[0] == OPEN_BRACE
    ensures r.Ok? ==> Terminated(r.rest) && |r.rest| < |s|
    decreases |s|, 0
  {
    if depth >= NESTING_LIMIT then Fail(s) else
    var first := SkipSpaces(s[1..]);
    if first[0] == CLOSE_BRACE then Ok(Object([]), first[1..]) else
    match ParseMembers(first, depth + 1, [])
    case Ok(members, rest) => Ok(Object(members), rest)
    case Fail(rest) => Fail(rest)
  }

  /** The rounds of parse_array's loop, with the items parsed so far. */
  function ParseElements(s: seq<byte>, depth: nat, items: seq<Json>): (r: Parse<seq<Json>>)
    requires Terminated(s)
    ensures r.Ok? ==> Terminated(r.rest) && |r.rest| < |s|
    decreases |s|, 3
  {
    hide SkipSpaces;
    match ParseValue(SkipSpaces(s), depth)
    case Fail(rest) => Fail(rest)
    case Ok(item, rest) => MoreElements(SkipSpaces(rest), depth, items + [item])
  }

  /** Behind an element: a comma and more, or the end. */
  function MoreElements(next: seq<byte>, depth: nat, items: seq<Json>): (r: Parse<seq<Json>>)
    requires Terminated(next)
    ensures r.Ok? ==> Terminated(r.rest) && |r.rest| < |next|
    decreases |next|, 4
  {
    if next[0] == COMMA then ParseElements(next[1..], depth, items)
    else if next[0] == CLOSE_BRACKET then Ok(items, next[1..])
    else Fail(next)
  }

  /** One round of parse_object's loop: a name, a colon and a value. */
  function ParseMember(s: seq<byte>, depth: nat): (r: Parse<Member>)
    requires Terminated(s)
    ensures r.Ok? ==> Terminated(r.rest) && |r.rest| < |s|
    decreases |s|, 2
  {
    match StringSpec.ParseString(SkipSpaces(s))
    case Fail(rest) => Fail(rest)
    case Ok(key, afterKey) =>
      var colon := SkipSpaces(afterKey);
      if colon[0] != COLON then Fail(colon) else
      match ParseValue(SkipSpaces(colon[1..]), depth)
      case Fail(rest) => Fail(rest)
      case Ok(value, rest) => Ok(Member(key, value), rest)
  }

  /** The rounds of parse_object's loop, with the members parsed so far. */
  function ParseMembers(s: seq<byte>, depth: nat, members: seq<Member>): (r: Parse<seq<Member>>)
    requires Terminated(s)
    ensures r.Ok? ==> Terminated(r.rest) && |r.rest| < |s|
    decreases |s|, 3
  {
    hide SkipSpaces, ParseMember;
    match ParseMember(s, depth)
    case Fail(rest) => Fail(rest)
    case Ok(member, rest) => MoreMembers(SkipSpaces(rest), depth, members + [member])
  }

  /** Behind a member: a comma and more, or the end. */
  function MoreMembers(next: seq<byte>, depth: nat, members: seq<Member>): (r: Parse<seq<Member>>)
    requires Terminated(next)
    ensures r.Ok? ==> Terminated(r.rest) && |r.rest| < |next|
    decreases |next|, 4
  {
    if next[0] == COMMA then ParseMembers(next[1..], depth, members)
    else if next[0] == CLOSE_BRACE then Ok(members, next[1..])
    else Fail(next)
  }

  // ---------------------------------------------------------------- whole texts

  const BOM: seq<byte> := [0xEF, 0xBB, 0xBF]

  /** skip_utf8_bom, at offset 0 only. */
  function SkipBom(s: seq<byte>): (t: seq<byte>)
    ensures Terminated(s) ==> Terminated(t)
  {
    if |s| > 4 && BOM <= s then s[3..] else s
  }

  /** cJSON_ParseWithLengthOpts on a terminated buffer. */
  function ParseBufferText(s: seq<byte>, requireNullTerminated: bool): (r: Parse<Json>)
    requires Terminated(s)
  {
    var r := ParseValue(SkipSpaces(SkipBom(s)), 0);
    if r.Fail? || !requireNullTerminated then r else
    var end := SkipSpaces(r.rest);
    if end[0] == NUL then Ok(r.value, end) else Fail(end)
  }

  /** cJSON_ParseWithOpts: the buffer is the C string with its terminating NUL. */
  function ParseText(text: seq<byte>, requireNullTerminated: bool): Parse<Json>
  {
    ParseBufferText(text + [NUL], requireNullTerminated)
  }

  // ---------------------------------------------------------------- facts used everywhere

  lemma SkipSpacesStays(s: seq<byte>)
    requires s != [] && s[0] > SPACE
    ensures SkipSpaces(s) == s
  {
  }

  /** Skipping again changes nothing: the step back and forth in front of a first element is harmless. */
  lemma SkipSpacesTwice(s: seq<byte>)
    ensures SkipSpaces(SkipSpaces(s)) == SkipSpaces(s)
  {
    var t := DropSpaces(s);
    if s != [] && t == [] {
      AllSpaces(s);
    }
  }

  lemma {:induction false} AllSpaces(s: seq<byte>)
    requires s != [] && DropSpaces(s) == []
    ensures s[|s| - 1] <= SPACE
  {
    if |s| > 1 { AllSpaces(s[1..]); }
  }

  /** One round of the element loop. */
  lemma ElementsStep(s: seq<byte>, depth: nat, before: seq<Json>)
    requires Terminated(s)
    ensures var value := ParseValue(SkipSpaces(s), depth);
      && (value.Fail? ==> ParseElements(s, depth, before) == Fail(value.rest))
      && (value.Ok? ==>
            && var next := SkipSpaces(value.rest);
            && next != [] && Terminated(next)
            && ParseElements(s, depth, before) == MoreElements(next, depth, before + [value.value]))
  {
    hide ParseValue, SkipSpaces, MoreElements;
  }

  /** One round of the member loop. */
  lemma MembersStep(s: seq<byte>, depth: nat, before: seq<Member>)
    requires Terminated(s)
    ensures var member := ParseMember(s, depth);
      && (member.Fail? ==> ParseMembers(s, depth, before) == Fail(member.rest))
      && (member.Ok? ==>
            && var next := SkipSpaces(member.rest);
            && next != [] && Terminated(next)
            && ParseMembers(s, depth, before) == MoreMembers(next, depth, before + [member.value]))
  {
    hide ParseMember, SkipSpaces, MoreMembers;
  }

  /** A value never begins with whitespace or a slash. */
  lemma ValueStart(s: seq<byte>, depth: nat)
    requires Terminated(s) && ParseValue(s, depth).Ok?
    ensures s[0] > SPACE && s[0] != SLASH
  {
    hide ParseArray, ParseObject, StringSpec.ParseString, NumberSpec.ParseNumber;
  }
}
