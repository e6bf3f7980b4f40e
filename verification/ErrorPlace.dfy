/** Where parsing stops and where it fails: a machine that reads token after token, knows the open brackets and
    what may come next, and stops at the first token that cannot be read or may not come. The parser's cursor ends
    where the machine does, which is what cJSON_GetErrorPtr tells (cJSON.c:93-102,1076-1170). */
module ErrorPlace {
  import opened Bytes
  import opened Json
  import opened ParserSpec
  import opened Tokens
  import NumberSpec
  import StringSpec

  /** What may come next. */
  datatype Want = Value | ValueOrEnd | Name | NameOrEnd | Colon | CommaOrEnd | Nothing

  /** The end of the whole value, with what is left; or the place of the error. */
  datatype Stop = Done(rest: seq<byte>) | Failed(at: seq<byte>)

  function Top(open: seq<byte>): byte { if open == [] then 0 else open[|open| - 1] }

  function Pop(open: seq<byte>): seq<byte> { if open == [] then [] else open[..|open| - 1] }

  predicate WantsName(want: Want) { want == Name || want == NameOrEnd }

  predicate Allowed(want: Want, open: seq<byte>, t: Token) {
    match t
    case Scalar(j) => want == Value || want == ValueOrEnd || (WantsName(want) && j.String?)
    case Mark(b) =>
      if b == 91 || b == 123 then (want == Value || want == ValueOrEnd) && |open| < 1000
      else if b == 58 then want == Colon
      else if b == 44 then want == CommaOrEnd
      else if b == 93 then want == ValueOrEnd || (want == CommaOrEnd && Top(open) == 91)
      else b == 125 && (want == NameOrEnd || (want == CommaOrEnd && Top(open) == 123))
  }

  /** Behind a value. */
  function Behind(open: seq<byte>): Want { if open == [] then Nothing else CommaOrEnd }

  function NextOpen(open: seq<byte>, t: Token): seq<byte> {
    if t == Mark(91) || t == Mark(123) then open + [t.b]
    else if t == Mark(93) || t == Mark(125) then Pop(open)
    else open
  }

  function NextWant(want: Want, open: seq<byte>, t: Token): Want {
    if t == Mark(91) then ValueOrEnd
    else if t == Mark(123) then NameOrEnd
    else if t == Mark(58) then Value
    else if t == Mark(44) then (if Top(open) == 91 then Value else Name)
    else if t.Scalar? && WantsName(want) then Colon
    else Behind(NextOpen(open, t))
  }

  /** The machine. Where a value or a name may stand that cannot be read, the place is where reading it failed;
      where a name must stand and no literal begins, it is one byte behind. */
  function Run(s: seq<byte>, want: Want, open: seq<byte>): Stop
    requires Terminated(s)
    decreases |s|
  {
    if want == Nothing then Done(s)
    else
      TokenAt(s);
      var v := SkipSpaces(s);
      var r := ReadToken(v);
      if WantsName(want) && v[0] != 34 && !(want == NameOrEnd && v[0] == 125) then Failed(v[1..])
      else if r.Fail? then Failed(if want == Colon || want == CommaOrEnd then v else r.rest)
      else if !Allowed(want, open, r.value) then Failed(v)
      else Run(r.rest, NextWant(want, open, r.value), NextOpen(open, r.value))
  }

  // ---------------------------------------------------------------- one step

  /** One token read, or the place where that fails. */
  lemma RunStep(s: seq<byte>, want: Want, open: seq<byte>)
    requires Terminated(s) && want != Nothing
    ensures Terminated(SkipSpaces(s))
    ensures var v := SkipSpaces(s); var r := ReadToken(v);
      Run(s, want, open) ==
        if WantsName(want) && v[0] != 34 && !(want == NameOrEnd && v[0] == 125) then Failed(v[1..])
        else if r.Fail? then Failed(if want == Colon || want == CommaOrEnd then v else r.rest)
        else if !Allowed(want, open, r.value) then Failed(v)
        else Run(r.rest, NextWant(want, open, r.value), NextOpen(open, r.value))
  {
    hide SkipSpaces, ReadToken;
    TokenAt(s);
  }

  lemma RunSkip(s: seq<byte>, want: Want, open: seq<byte>)
    requires Terminated(s) && want != Nothing
    ensures Terminated(SkipSpaces(s)) && Run(SkipSpaces(s), want, open) == Run(s, want, open)
  {
    hide SkipSpaces, ReadToken, Run;
    TokenAt(s);
    SkipSpacesTwice(s);
    RunStep(s, want, open);
    RunStep(SkipSpaces(s), want, open);
  }

  /** A mark that may come. */
  lemma RunMark(s: seq<byte>, want: Want, open: seq<byte>)
    requires Terminated(s) && SkipSpaces(s) == s && IsMark(s[0]) && want != Nothing
    requires WantsName(want) ==> want == NameOrEnd && s[0] == 125
    ensures Terminated(s[1..])
    ensures Run(s, want, open) == if !Allowed(want, open, Mark(s[0])) then Failed(s)
      else Run(s[1..], NextWant(want, open, Mark(s[0])), NextOpen(open, Mark(s[0])))
  {
    hide SkipSpaces, ReadToken, Run;
    BehindMark(s);
    RunStep(s, want, open);
    MarkToken(s, s[0]);
  }

  /** What a scalar or a failure in its place comes to. */
  lemma ValueStart(s: seq<byte>, depth: nat)
    requires Terminated(s) && s[0] != 91 && s[0] != 123
    ensures var p, r := ParseValue(s, depth), ReadToken(s);
      && (p.Ok? ==> r == Ok(Scalar(p.value), p.rest))
      && (p.Fail? ==> if r.Fail? then p.rest == r.rest else r.value == Mark(s[0]) && p.rest == s)
  {
    hide ParseElements, ParseMembers, StringSpec.ParseString, NumberSpec.ParseNumber, SkipSpaces;
  }

  // ---------------------------------------------------------------- values

  /** The parser on a value, and the machine where a value may come. */
  lemma {:induction false} ValueRuns(s: seq<byte>, depth: nat, open: seq<byte>)
    requires Terminated(s) && |open| == depth <= NESTING_LIMIT
    ensures Terminated(SkipSpaces(s))
    ensures var p := ParseValue(SkipSpaces(s), depth);
      Run(s, Value, open) == if p.Ok? then Run(p.rest, Behind(open), open) else Failed(p.rest)
    decreases |s|, 1
  {
    hide SkipSpaces, ParseValue, ParseArray, ParseObject, ReadToken, Run;
    TokenAt(s);
    var v := SkipSpaces(s);
    ContainerStart(v, depth);
    RunStep(s, Value, open);
    if v[0] == 91 || v[0] == 123 {
      BehindMark(v);
      MarkToken(v, v[0]);
      SkipSpacesTwice(s);
      if depth < NESTING_LIMIT {
        ContainerRuns(v, depth, open);
      } else {
        TokenAt(v[1..]);
        Containers(v, depth);
      }
    } else {
      ValueStart(v, depth);
    }
  }

  /** The end of a container. */
  lemma Closed(open: seq<byte>, b: byte)
    ensures Pop(open + [b]) == open && Top(open + [b]) == b && |open + [b]| == |open| + 1
  {
    assert (open + [b])[..|open|] == open;
  }

  lemma {:induction false} ContainerRuns(v: seq<byte>, depth: nat, open: seq<byte>)
    requires Terminated(v) && (v[0] == 91 || v[0] == 123) && Terminated(v[1..]) && |open| == depth < NESTING_LIMIT
    ensures var p := if v[0] == 91 then ParseArray(v, depth) else ParseObject(v, depth);
      Run(v[1..], if v[0] == 91 then ValueOrEnd else NameOrEnd, open + [v[0]]) ==
        if p.Ok? then Run(p.rest, Behind(open), open) else Failed(p.rest)
    decreases |v|, 0
  {
    hide SkipSpaces, ParseArray, ParseObject, ParseElements, ParseMembers, ReadToken, Run;
    var want := if v[0] == 91 then ValueOrEnd else NameOrEnd;
    var inner := open + [v[0]];
    TokenAt(v[1..]);
    Containers(v, depth);
    Closed(open, v[0]);
    var first := SkipSpaces(v[1..]);
    SkipSpacesTwice(v[1..]);
    RunSkip(v[1..], want, inner);
    if first[0] == v[0] + 2 {
      RunMark(first, want, inner);
    } else if v[0] == 91 {
      NotEnded(first, inner);
      ElementsRun(first, depth + 1, [], open);
    } else {
      NotEnded(first, inner);
      MembersRun(first, depth + 1, [], open);
    }
  }

  /** Where the container does not end at once, more must come. */
  lemma NotEnded(s: seq<byte>, open: seq<byte>)
    requires Terminated(s) && SkipSpaces(s) == s
    ensures s[0] != 93 ==> Run(s, ValueOrEnd, open) == Run(s, Value, open)
    ensures s[0] != 125 ==> Run(s, NameOrEnd, open) == Run(s, Name, open)
  {
    hide SkipSpaces, ReadToken, Run;
    RunStep(s, ValueOrEnd, open);
    RunStep(s, Value, open);
    RunStep(s, NameOrEnd, open);
    RunStep(s, Name, open);
    MarkToken(s, 93);
    MarkToken(s, 125);
    if ReadToken(s).Ok? && ReadToken(s).value.Mark? { TokenMarks(s); }
  }

  lemma TokenMarks(s: seq<byte>)
    requires Terminated(s) && ReadToken(s).Ok? && ReadToken(s).value.Mark?
    ensures ReadToken(s).value.b == s[0] && IsMark(s[0])
  {
    hide StringSpec.ParseString, NumberSpec.ParseNumber;
  }

  /** Behind an element or a member: the end, another one, or the place of the error. */
  lemma MoreRuns(rest: seq<byte>, open: seq<byte>, b: byte)
    requires Terminated(rest) && (b == 91 || b == 123)
    ensures Terminated(SkipSpaces(rest))
    ensures var next := SkipSpaces(rest);
      && (next[0] == 44 ==>
            Terminated(next[1..]) &&
            Run(rest, CommaOrEnd, open + [b]) == Run(next[1..], if b == 91 then Value else Name, open + [b]))
      && (next[0] == b + 2 ==>
            Terminated(next[1..]) && Run(rest, CommaOrEnd, open + [b]) == Run(next[1..], Behind(open), open))
      && (next[0] != 44 && next[0] != b + 2 ==> Run(rest, CommaOrEnd, open + [b]) == Failed(next))
  {
    hide SkipSpaces, ReadToken, Run;
    TokenAt(rest);
    Closed(open, b);
    var next := SkipSpaces(rest);
    SkipSpacesTwice(rest);
    RunSkip(rest, CommaOrEnd, open + [b]);
    if IsMark(next[0]) {
      RunMark(next, CommaOrEnd, open + [b]);
    } else {
      RunStep(next, CommaOrEnd, open + [b]);
      FailsHere(next, open + [b]);
    }
  }

  /** A scalar where a comma must stand is an error at its first byte. */
  lemma FailsHere(s: seq<byte>, open: seq<byte>)
    requires Terminated(s) && !IsMark(s[0])
    ensures ReadToken(s).Ok? ==> ReadToken(s).value.Scalar?
  {
    hide StringSpec.ParseString, NumberSpec.ParseNumber;
  }

  lemma {:induction false} ElementsRun(s: seq<byte>, depth: nat, before: seq<Json>, open: seq<byte>)
    requires Terminated(s) && |open| + 1 == depth <= NESTING_LIMIT
    ensures var p := ParseElements(s, depth, before);
      Run(s, Value, open + [91]) == if p.Ok? then Run(p.rest, Behind(open), open) else Failed(p.rest)
    decreases |s|, 2
  {
    hide SkipSpaces, ParseValue, ParseElements, ReadToken, Run;
    Closed(open, 91);
    TokenAt(s);
    ElementsStep(s, depth, before);
    ValueRuns(s, depth, open + [91]);
    var value := ParseValue(SkipSpaces(s), depth);
    if value.Ok? {
      MoreRuns(value.rest, open, 91);
      var next := SkipSpaces(value.rest);
      TokenAt(value.rest);
      if next[0] == COMMA { ElementsRun(next[1..], depth, before + [value.value], open); }
    }
  }

  lemma {:induction false} MembersRun(s: seq<byte>, depth: nat, before: seq<Member>, open: seq<byte>)
    requires Terminated(s) && |open| + 1 == depth <= NESTING_LIMIT
    ensures var p := ParseMembers(s, depth, before);
      Run(s, Name, open + [123]) == if p.Ok? then Run(p.rest, Behind(open), open) else Failed(p.rest)
    decreases |s|, 3
  {
    hide SkipSpaces, ParseMember, ParseMembers, ReadToken, Run;
    TokenAt(s);
    MembersStep(s, depth, before);
    MemberRuns(s, depth, open);
    var member := ParseMember(s, depth);
    if member.Ok? {
      MoreRuns(member.rest, open, 123);
      var next := SkipSpaces(member.rest);
      TokenAt(member.rest);
      if next[0] == COMMA { MembersRun(next[1..], depth, before + [member.value], open); }
    }
  }

  /** A name, or the place where reading it fails. */
  lemma NameStart(s: seq<byte>)
    requires Terminated(s)
    ensures var p, r := StringSpec.ParseString(s), ReadToken(s);
      && (s[0] != 34 ==> p == Fail(s[1..]))
      && (s[0] == 34 && p.Ok? ==> r == Ok(Scalar(String(p.value)), p.rest))
      && (s[0] == 34 && p.Fail? ==> r == Fail(p.rest))
  {
    hide StringSpec.ScanLength, StringSpec.Unescape;
  }

  lemma {:induction false} MemberRuns(s: seq<byte>, depth: nat, open: seq<byte>)
    requires Terminated(s) && |open| + 1 == depth <= NESTING_LIMIT
    ensures var p := ParseMember(s, depth);
      Run(s, Name, open + [123]) == if p.Ok? then Run(p.rest, CommaOrEnd, open + [123]) else Failed(p.rest)
    decreases |s|, 2
  {
    hide SkipSpaces, ParseMember, ParseValue, ReadToken, Run, StringSpec.ParseString;
    TokenAt(s);
    Closed(open, 123);
    RunStep(s, Name, open + [123]);
    NameStart(SkipSpaces(s));
    MemberFails(s, depth);
    MemberCases(s, depth);
    var key := StringSpec.ParseString(SkipSpaces(s));
    if key.Ok? {
      TokenAt(key.rest);
      var colon := SkipSpaces(key.rest);
      RunStep(key.rest, Colon, open + [123]);
      if colon[0] == 58 {
        MarkToken(colon, 58);
        ValueRuns(colon[1..], depth, open + [123]);
      } else {
        NotColon(colon, open + [123]);
      }
    }
  }

  lemma NotColon(s: seq<byte>, open: seq<byte>)
    requires Terminated(s) && s[0] != 58
    ensures ReadToken(s).Ok? ==> !Allowed(Colon, open, ReadToken(s).value)
  {
    hide StringSpec.ParseString, NumberSpec.ParseNumber;
  }

  lemma MemberFails(s: seq<byte>, depth: nat)
    requires Terminated(s) && Terminated(SkipSpaces(s))
    ensures var key := StringSpec.ParseString(SkipSpaces(s));
      && (key.Fail? ==> ParseMember(s, depth) == Fail(key.rest))
      && (key.Ok? ==>
            var colon := SkipSpaces(key.rest);
            colon != [] && (colon[0] != 58 ==> ParseMember(s, depth) == Fail(colon)))
  {
    hide SkipSpaces, ParseValue, StringSpec.ParseString;
    var key := StringSpec.ParseString(SkipSpaces(s));
    if key.Ok? { TokenAt(key.rest); }
  }

  // ---------------------------------------------------------------- whole texts

  /** The parser stops and fails where the machine does; and with `require_null_terminated` also at the first byte
      behind the value that is no whitespace. */
  lemma TextRuns(text: seq<byte>)
    ensures match Run(SkipBom(text + [NUL]), Value, [])
      case Failed(at) => ParseText(text, false) == Fail(at) && ParseText(text, true) == Fail(at)
      case Done(rest) =>
        && ParseText(text, false).Ok? && ParseText(text, false).rest == rest && Terminated(rest)
        && (OnlySpaces(rest) ==> ParseText(text, true).Ok?)
        && (!OnlySpaces(rest) ==> ParseText(text, true) == Fail(SkipSpaces(rest)))
  {
    hide SkipSpaces, ParseValue, Run, OnlySpaces;
    var s := SkipBom(text + [NUL]);
    ValueRuns(s, 0, []);
    var p := ParseValue(SkipSpaces(s), 0);
    if p.Ok? {
      RunNothing(p.rest);
      EndOf(p.rest);
    }
  }

  lemma RunNothing(s: seq<byte>)
    requires Terminated(s)
    ensures Run(s, Nothing, []) == Done(s)
  {
  }
}
