/** What every accepted text yields: trees that nest within the limit, whose strings are C strings,
    and that print to a text denoting the same tree again. */
module ParsedTrees {
  import opened Bytes
  import opened Json
  import opened NumberSpec
  import opened StringSpec
  import opened ParserSpec
  import opened PrinterSpec
  import opened RoundTrip

  /** Every number in the tree is an int32. */
  ghost predicate Ints(j: Json) {
    match j
    case Number(_, _) => IsInt32(j)
    case Array(items) => forall i :: 0 <= i < |items| ==> Ints(items[i])
    case Object(members) => forall i :: 0 <= i < |members| ==> Ints(members[i].value)
    case _ => true
  }

  /** Fits in `room` more levels; well formed but for its numbers. */
  ghost predicate Sane(j: Json, room: int) {
    Nesting(j) <= room && (Ints(j) ==> WellFormed(j))
  }

  ghost predicate AllSane(items: seq<Json>, room: int) {
    forall i :: 0 <= i < |items| ==> Sane(items[i], room)
  }

  ghost predicate AllMembersSane(members: seq<Member>, room: int) {
    forall i :: 0 <= i < |members| ==> NulFree(members[i].key) && Sane(members[i].value, room)
  }

  lemma {:induction false} ArraySane(items: seq<Json>, room: nat)
    requires AllSane(items, room)
    ensures MaxNesting(items) <= room
    ensures (forall i :: 0 <= i < |items| ==> Ints(items[i])) ==> AllWellFormed(items)
  {
    if items != [] {
      assert Sane(items[0], room);
      assert forall i :: 0 <= i < |items[1..]| ==> items[1..][i] == items[i + 1];
      ArraySane(items[1..], room);
    }
  }

  lemma {:induction false} ObjectSane(members: seq<Member>, room: nat)
    requires AllMembersSane(members, room)
    ensures MaxMemberNesting(members) <= room
    ensures (forall i :: 0 <= i < |members| ==> Ints(members[i].value)) ==> AllMembersWellFormed(members)
  {
    if members != [] {
      assert Sane(members[0].value, room);
      assert forall i :: 0 <= i < |members[1..]| ==> members[1..][i] == members[i + 1];
      ObjectSane(members[1..], room);
    }
  }

  /** The parser never has more than NESTING_LIMIT containers open. */
  lemma {:induction false} ParsedValue(s: seq<byte>, depth: nat)
    requires Terminated(s) && depth <= NESTING_LIMIT && ParseValue(s, depth).Ok?
    ensures Sane(ParseValue(s, depth).value, NESTING_LIMIT - depth)
    decreases |s|, 1
  {
    hide SkipSpaces, ParseElements, ParseMembers, ParseNumber, ParseString, WellFormed, Nesting, Ints;
    var r := ParseValue(s, depth);
    match r.value
    case Array(items) =>
      if items == [] {
        EmptySane(NESTING_LIMIT - depth);
      } else {
        ParsedElements(SkipSpaces(s[1..]), depth + 1, []);
        ArraySane(items, NESTING_LIMIT - depth - 1);
        ContainerSane(r.value, NESTING_LIMIT - depth);
      }
    case Object(members) =>
      if members == [] {
        EmptySane(NESTING_LIMIT - depth);
      } else {
        ParsedMembers(SkipSpaces(s[1..]), depth + 1, []);
        ObjectSane(members, NESTING_LIMIT - depth - 1);
        ContainerSane(r.value, NESTING_LIMIT - depth);
      }
    case _ => ScalarSane(r.value, NESTING_LIMIT - depth);
  }

  lemma EmptySane(room: int)
    ensures room >= 1 ==> Sane(Array([]), room) && Sane(Object([]), room)
  {
  }

  lemma ScalarSane(j: Json, room: nat)
    requires !j.Array? && !j.Object? && (j.String? ==> NulFree(j.text))
    ensures Sane(j, room)
  {
  }

  lemma ContainerSane(j: Json, room: int)
    requires room >= 1
    requires j.Array? || j.Object?
    requires j.Array? ==> MaxNesting(j.items) <= room - 1
    requires j.Array? && (forall i :: 0 <= i < |j.items| ==> Ints(j.items[i])) ==> AllWellFormed(j.items)
    requires j.Object? ==> MaxMemberNesting(j.members) <= room - 1
    requires j.Object? && (forall i :: 0 <= i < |j.members| ==> Ints(j.members[i].value)) ==>
               AllMembersWellFormed(j.members)
    ensures Sane(j, room)
  {
  }

  lemma {:induction false} ParsedElements(s: seq<byte>, depth: nat, items: seq<Json>)
    requires Terminated(s) && depth <= NESTING_LIMIT && ParseElements(s, depth, items).Ok?
    requires AllSane(items, NESTING_LIMIT - depth)
    ensures AllSane(ParseElements(s, depth, items).value, NESTING_LIMIT - depth)
    decreases |s|, 2
  {
    hide ParseElements, ParseValue, SkipSpaces, Sane;
    ElementsStep(s, depth, items);
    var value := ParseValue(SkipSpaces(s), depth);
    var next := SkipSpaces(value.rest);
    ParsedValue(SkipSpaces(s), depth);
    if next[0] == COMMA {
      ParsedElements(next[1..], depth, items + [value.value]);
    }
  }

  lemma {:induction false} ParsedMembers(s: seq<byte>, depth: nat, members: seq<Member>)
    requires Terminated(s) && depth <= NESTING_LIMIT && ParseMembers(s, depth, members).Ok?
    requires AllMembersSane(members, NESTING_LIMIT - depth)
    ensures AllMembersSane(ParseMembers(s, depth, members).value, NESTING_LIMIT - depth)
    decreases |s|, 3
  {
    hide ParseMembers, ParseMember, SkipSpaces, Sane;
    MembersStep(s, depth, members);
    var member := ParseMember(s, depth);
    var next := SkipSpaces(member.rest);
    ParsedMember(s, depth);
    if next[0] == COMMA {
      ParsedMembers(next[1..], depth, members + [member.value]);
    }
  }

  lemma {:induction false} ParsedMember(s: seq<byte>, depth: nat)
    requires Terminated(s) && depth <= NESTING_LIMIT && ParseMember(s, depth).Ok?
    ensures var m := ParseMember(s, depth).value;
      NulFree(m.key) && Sane(m.value, NESTING_LIMIT - depth)
    decreases |s|, 2
  {
    hide ParseValue, ParseString, SkipSpaces, Sane;
    var colon := SkipSpaces(ParseString(SkipSpaces(s)).rest);
    ParsedValue(SkipSpaces(colon[1..]), depth);
  }

  /** Any accepted text can be printed and parsed again: the second tree is the first. Only numbers
      outside the "%d" path are set aside. */
  lemma ParsePrintParse(text: seq<byte>, requireNullTerminated: bool, format: bool)
    requires ParseText(text, requireNullTerminated).Ok?
    ensures var j := ParseText(text, requireNullTerminated).value;
      && Nesting(j) <= NESTING_LIMIT
      && (Ints(j) ==> ParseText(Text(j, format, 0), true) == Ok(j, [NUL]))
  {
    hide ParseValue, Text, Nesting, Ints, SkipSpaces;
    var j := ParseText(text, requireNullTerminated).value;
    ParsedValue(SkipSpaces(SkipBom(text + [NUL])), 0);
    if Ints(j) {
      PrintThenParse(j, format, true);
    }
  }
}
