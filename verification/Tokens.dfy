/** The texts the parser accepts, told by their tokens: a text is accepted as a tree exactly when reading token
    after token gives the tokens of that tree, in order, and at most 1000 containers are open at a time
    (cJSON.c:1035-1170,1309-1361,1438-1533,1598-1708). */
module Tokens {
  import opened Bytes
  import opened Json
  import opened Sequences
  import opened ParserSpec
  import NumberSpec
  import StringSpec

  /** A bracket, a comma or a colon; or a value without parts. */
  datatype Token = Mark(b: byte) | Scalar(j: Json)

  // ---------------------------------------------------------------- the tokens of a tree

  function TokensOf(j: Json): (ts: seq<Token>)
    ensures ts != []
    decreases j, 0
  {
    match j
    case Array(items) => [Mark(91)] + ItemTokens(items) + [Mark(93)]
    case Object(members) => [Mark(123)] + MemberTokens(members) + [Mark(125)]
    case _ => [Scalar(j)]
  }

  function ItemTokens(items: seq<Json>): seq<Token>
    decreases items, 1
  {
    if items == [] then []
    else if |items| == 1 then TokensOf(items[0])
    else TokensOf(items[0]) + [Mark(44)] + ItemTokens(items[1..])
  }

  function OneMember(m: Member): seq<Token>
    decreases m, 1
  {
    [Scalar(String(m.key)), Mark(58)] + TokensOf(m.value)
  }

  function MemberTokens(members: seq<Member>): seq<Token>
    decreases members, 2
  {
    if members == [] then []
    else if |members| == 1 then OneMember(members[0])
    else OneMember(members[0]) + [Mark(44)] + MemberTokens(members[1..])
  }

  /** How many brackets are open at the most while the tokens are read one by one, when `open` are before. */
  function Deepest(ts: seq<Token>, open: int): int {
    if ts == [] then open
    else
      var more := Deepest(ts[1..], open + Turn(ts[0]));
      if more > open then more else open
  }

  function Turn(t: Token): int {
    if t == Mark(91) || t == Mark(123) then 1 else if t == Mark(93) || t == Mark(125) then -1 else 0
  }

  /** How many more are open behind them. */
  function Turns(ts: seq<Token>): int {
    if ts == [] then 0 else Turn(ts[0]) + Turns(ts[1..])
  }

  lemma {:induction false} DeepestBoth(a: seq<Token>, b: seq<Token>, open: int)
    ensures Turns(a + b) == Turns(a) + Turns(b)
    ensures Deepest(a + b, open) ==
      if Deepest(a, open) > Deepest(b, open + Turns(a)) then Deepest(a, open) else Deepest(b, open + Turns(a))
    decreases |a|
  {
    hide Turn;
    DeepestAtLeast(b, open);
    if a == [] {
      assert a + b == b;
    } else {
      DeepestBoth(a[1..], b, open + Turn(a[0]));
      assert (a + b)[1..] == a[1..] + b;
    }
  }

  lemma DeepestAtLeast(ts: seq<Token>, open: int)
    ensures Deepest(ts, open) >= open
  {
  }

  lemma DeepestOne(t: Token, open: int)
    ensures Turns([t]) == Turn(t) && Deepest([t], open) == if Turn(t) > 0 then open + 1 else open
  {
    assert [t][1..] == [];
    assert Deepest([], open + Turn(t)) == open + Turn(t) && Turns([]) == 0;
  }

  /** That is the nesting of the tree. */
  lemma {:induction false} DeepestIs(j: Json, open: int)
    ensures Turns(TokensOf(j)) == 0 && Deepest(TokensOf(j), open) == open + Nesting(j)
    decreases j, 0
  {
    hide Deepest, Turns, ItemTokens, MemberTokens, MaxNesting, MaxMemberNesting;
    match j
    case Array(items) =>
      ItemsDeepest(items, open + 1);
      Bracketed(91, ItemTokens(items), 93, open, MaxNesting(items));
    case Object(members) =>
      MembersDeepest(members, open + 1);
      Bracketed(123, MemberTokens(members), 125, open, MaxMemberNesting(members));
    case _ => DeepestOne(Scalar(j), open);
  }

  lemma Bracketed(b: byte, ts: seq<Token>, c: byte, open: int, n: nat)
    requires (b == 91 && c == 93) || (b == 123 && c == 125)
    requires Turns(ts) == 0 && Deepest(ts, open + 1) == open + 1 + n
    ensures var all := [Mark(b)] + ts + [Mark(c)]; Turns(all) == 0 && Deepest(all, open) == open + 1 + n
  {
    hide Deepest, Turns;
    DeepestOne(Mark(b), open);
    DeepestOne(Mark(c), open + 1);
    DeepestBoth([Mark(b)], ts, open);
    DeepestBoth([Mark(b)] + ts, [Mark(c)], open);
  }

  lemma {:induction false} ItemsDeepest(items: seq<Json>, open: int)
    ensures Turns(ItemTokens(items)) == 0 && Deepest(ItemTokens(items), open) == open + MaxNesting(items)
    decreases items, 1
  {
    hide TokensOf, Nesting, Deepest, Turns, Turn;
    if items == [] {
      NoneOpen(open);
    } else {
      DeepestIs(items[0], open);
      if |items| == 1 {
        assert items[1..] == [];
      } else {
        ItemsDeepest(items[1..], open);
        CommaBetween(TokensOf(items[0]), ItemTokens(items[1..]), open);
      }
    }
  }

  lemma NoneOpen(open: int)
    ensures Turns([]) == 0 && Deepest([], open) == open
  {
  }

  lemma CommaBetween(a: seq<Token>, b: seq<Token>, open: int)
    requires Turns(a) == 0 && Turns(b) == 0
    ensures var all := a + [Mark(44)] + b;
      Turns(all) == 0 &&
      Deepest(all, open) == if Deepest(a, open) > Deepest(b, open) then Deepest(a, open) else Deepest(b, open)
  {
    hide Deepest, Turns;
    DeepestOne(Mark(44), open);
    DeepestBoth(a, [Mark(44)], open);
    DeepestBoth(a + [Mark(44)], b, open);
    DeepestAtLeast(a, open);
    DeepestAtLeast(b, open);
  }

  lemma {:induction false} MembersDeepest(members: seq<Member>, open: int)
    ensures Turns(MemberTokens(members)) == 0 &&
      Deepest(MemberTokens(members), open) == open + MaxMemberNesting(members)
    decreases members, 2
  {
    hide OneMember, Nesting, Deepest, Turns, Turn;
    if members == [] {
      NoneOpen(open);
    } else {
      MemberDeepest(members[0], open);
      if |members| == 1 {
        assert members[1..] == [];
      } else {
        MembersDeepest(members[1..], open);
        CommaBetween(OneMember(members[0]), MemberTokens(members[1..]), open);
      }
    }
  }

  lemma {:induction false} MemberDeepest(m: Member, open: int)
    ensures Turns(OneMember(m)) == 0 && Deepest(OneMember(m), open) == open + Nesting(m.value)
    decreases m, 1
  {
    hide TokensOf, Nesting, Deepest, Turns;
    DeepestIs(m.value, open);
    DeepestOne(Scalar(String(m.key)), open);
    DeepestOne(Mark(58), open);
    DeepestBoth([Scalar(String(m.key))], [Mark(58)], open);
    DeepestBoth([Scalar(String(m.key)), Mark(58)], TokensOf(m.value), open);
    assert [Scalar(String(m.key))] + [Mark(58)] == [Scalar(String(m.key)), Mark(58)];
  }

  // ---------------------------------------------------------------- reading tokens

  predicate IsMark(b: byte) { b == 91 || b == 93 || b == 123 || b == 125 || b == 44 || b == 58 }

  /** The token at the front of s, where no whitespace stands. */
  function ReadToken(s: seq<byte>): (r: Parse<Token>)
    requires Terminated(s)
    ensures r.Ok? ==> Terminated(r.rest) && |r.rest| < |s|
  {
    if NULL_TEXT <= s then Ok(Scalar(Null), s[4..])
    else if FALSE_TEXT <= s then Ok(Scalar(False), s[5..])
    else if TRUE_TEXT <= s then Ok(Scalar(True), s[4..])
    else if s[0] == 34 then
      match StringSpec.ParseString(s)
      case Ok(text, rest) => Ok(Scalar(String(text)), rest)
      case Fail(rest) => Fail(rest)
    else if s[0] == 45 || 48 <= s[0] <= 57 then
      match NumberSpec.ParseNumber(s)
      case Ok(number, rest) => Ok(Scalar(number), rest)
      case Fail(rest) => Fail(rest)
    else if IsMark(s[0]) then Ok(Mark(s[0]), s[1..])
    else Fail(s)
  }

  /** These tokens stand at the front of s, with any whitespace in front of each, and `rest` behind the last. */
  ghost predicate Reads(s: seq<byte>, ts: seq<Token>, rest: seq<byte>)
    requires Terminated(s)
    decreases |ts|
  {
    if ts == [] then rest == s
    else
      var r := ReadToken(SkipSpaces(s));
      r.Ok? && r.value == ts[0] && Reads(r.rest, ts[1..], rest)
  }

  lemma {:induction false} ReadsShorter(s: seq<byte>, ts: seq<Token>, rest: seq<byte>)
    requires Terminated(s) && Reads(s, ts, rest)
    ensures Terminated(rest) && |rest| <= |s|
    decreases |ts|
  {
    hide ReadToken, SkipSpaces;
    if ts != [] {
      TokenAt(s);
      ReadsShorter(ReadToken(SkipSpaces(s)).rest, ts[1..], rest);
    }
  }

  lemma TokenAt(s: seq<byte>)
    requires Terminated(s)
    ensures Terminated(SkipSpaces(s)) && |SkipSpaces(s)| <= |s|
  {
  }

  /** Reading one row of tokens and then another is reading both. */
  lemma {:induction false} ReadsBoth(s: seq<byte>, a: seq<Token>, mid: seq<byte>, b: seq<Token>, rest: seq<byte>)
    requires Terminated(s) && Reads(s, a, mid)
    ensures Terminated(mid) && (Reads(s, a + b, rest) <==> Reads(mid, b, rest))
    decreases |a|
  {
    hide ReadToken, SkipSpaces;
    ReadsShorter(s, a, mid);
    if a == [] {
      assert a + b == b;
    } else {
      TokenAt(s);
      ReadsBoth(ReadToken(SkipSpaces(s)).rest, a[1..], mid, b, rest);
      assert (a + b)[1..] == a[1..] + b;
    }
  }

  /** What the first row leaves. */
  lemma {:induction false} ReadsFirst(s: seq<byte>, a: seq<Token>, b: seq<Token>, rest: seq<byte>)
    returns (mid: seq<byte>)
    requires Terminated(s) && Reads(s, a + b, rest)
    ensures Reads(s, a, mid) && Terminated(mid) && Reads(mid, b, rest)
    decreases |a|
  {
    hide ReadToken, SkipSpaces;
    if a == [] {
      mid := s;
      assert a + b == b;
    } else {
      TokenAt(s);
      assert (a + b)[1..] == a[1..] + b && (a + b)[0] == a[0];
      mid := ReadsFirst(ReadToken(SkipSpaces(s)).rest, a[1..], b, rest);
    }
  }

  lemma ReadsOne(s: seq<byte>, t: Token, rest: seq<byte>)
    requires Terminated(s)
    ensures Reads(s, [t], rest) <==> ReadToken(SkipSpaces(s)) == Ok(t, rest)
  {
    hide ReadToken, SkipSpaces;
    TokenAt(s);
    assert [t][1..] == [];
    var r := ReadToken(SkipSpaces(s));
    if r.Ok? { assert Reads(r.rest, [], rest) <==> rest == r.rest; }
  }

  lemma ReadsMark(s: seq<byte>, b: byte, rest: seq<byte>)
    requires Terminated(s) && IsMark(b)
    ensures Reads(s, [Mark(b)], rest) <==> SkipSpaces(s) != [] && SkipSpaces(s)[0] == b && rest == SkipSpaces(s)[1..]
  {
    hide SkipSpaces;
    TokenAt(s);
    ReadsOne(s, Mark(b), rest);
    MarkToken(SkipSpaces(s), b);
  }

  lemma MarkToken(s: seq<byte>, b: byte)
    requires Terminated(s) && IsMark(b)
    ensures s[0] == b ==> ReadToken(s) == Ok(Mark(b), s[1..])
    ensures s[0] != b ==> ReadToken(s).Fail? || ReadToken(s).value != Mark(b)
  {
    hide StringSpec.ParseString, NumberSpec.ParseNumber;
  }

  /** Whitespace in front does not matter. */
  lemma ReadsSkip(s: seq<byte>, ts: seq<Token>, rest: seq<byte>)
    requires Terminated(s) && ts != []
    ensures Terminated(SkipSpaces(s)) && (Reads(SkipSpaces(s), ts, rest) <==> Reads(s, ts, rest))
  {
    hide ReadToken, SkipSpaces;
    TokenAt(s);
    SkipSpacesTwice(s);
  }

  // ---------------------------------------------------------------- values and their first bytes

  lemma ScalarToken(s: seq<byte>, depth: nat, j: Json, rest: seq<byte>)
    requires Terminated(s) && !j.Array? && !j.Object?
    ensures ParseValue(s, depth) == Ok(j, rest) <==> ReadToken(s) == Ok(Scalar(j), rest)
  {
    hide ParseElements, ParseMembers, StringSpec.ParseString, NumberSpec.ParseNumber, SkipSpaces;
  }

  /** An array or an object starts with its bracket. */
  lemma ContainerStart(s: seq<byte>, depth: nat)
    requires Terminated(s)
    ensures s[0] == 91 ==> ParseValue(s, depth) == ParseArray(s, depth)
    ensures s[0] == 123 ==> ParseValue(s, depth) == ParseObject(s, depth)
    ensures s[0] != 91 && s[0] != 123 && ParseValue(s, depth).Ok? ==>
      !ParseValue(s, depth).value.Array? && !ParseValue(s, depth).value.Object?
  {
    hide ParseArray, ParseObject, StringSpec.ParseString, NumberSpec.ParseNumber;
  }

  lemma BehindMark(s: seq<byte>)
    requires Terminated(s) && s[0] != NUL
    ensures Terminated(s[1..])
  {
  }

  lemma NoNesting()
    ensures MaxNesting([]) == 0 && MaxMemberNesting([]) == 0
  {
  }

  /** parse_array and parse_object behind their bracket. */
  lemma Containers(s: seq<byte>, depth: nat)
    requires Terminated(s) && Terminated(s[1..]) && Terminated(SkipSpaces(s[1..]))
    ensures var first := SkipSpaces(s[1..]);
      && (s[0] == 91 ==>
            var r := ParseElements(first, depth + 1, []);
            ParseArray(s, depth) ==
              if depth >= NESTING_LIMIT then Fail(s)
              else if first[0] == 93 then Ok(Array([]), first[1..])
              else if r.Ok? then Ok(Array(r.value), r.rest) else Fail(r.rest))
      && (s[0] == 123 ==>
            var r := ParseMembers(first, depth + 1, []);
            ParseObject(s, depth) ==
              if depth >= NESTING_LIMIT then Fail(s)
              else if first[0] == 125 then Ok(Object([]), first[1..])
              else if r.Ok? then Ok(Object(r.value), r.rest) else Fail(r.rest))
  {
    hide ParseElements, ParseMembers, SkipSpaces;
  }

  // ---------------------------------------------------------------- an accepted value has its tokens

  lemma {:induction false} ValueSound(s: seq<byte>, depth: nat)
    requires Terminated(s) && depth <= NESTING_LIMIT
    requires Terminated(SkipSpaces(s)) && ParseValue(SkipSpaces(s), depth).Ok?
    ensures var r := ParseValue(SkipSpaces(s), depth);
      Reads(s, TokensOf(r.value), r.rest) && depth + Nesting(r.value) <= NESTING_LIMIT
    decreases |s|, 1
  {
    hide SkipSpaces, ParseValue, ParseArray, ParseObject, ReadToken, Reads, ItemTokens, MemberTokens;
    TokenAt(s);
    var start := SkipSpaces(s);
    ContainerStart(start, depth);
    if start[0] == 91 {
      ArraySound(s, depth);
    } else if start[0] == 123 {
      ObjectSound(s, depth);
    } else {
      var r := ParseValue(start, depth);
      ScalarToken(start, depth, r.value, r.rest);
      ReadsOne(s, Scalar(r.value), r.rest);
    }
  }

  lemma {:induction false} ArraySound(s: seq<byte>, depth: nat)
    requires Terminated(s) && depth <= NESTING_LIMIT
    requires Terminated(SkipSpaces(s)) && SkipSpaces(s)[0] == 91 && ParseArray(SkipSpaces(s), depth).Ok?
    ensures var r := ParseArray(SkipSpaces(s), depth);
      Reads(s, TokensOf(r.value), r.rest) && depth + Nesting(r.value) <= NESTING_LIMIT
    decreases |s|, 0
  {
    hide SkipSpaces, ParseArray, ParseElements, ReadToken, Reads, ItemTokens, MaxNesting;
    TokenAt(s);
    var start := SkipSpaces(s);
    var r := ParseArray(start, depth);
    BehindMark(start);
    TokenAt(start[1..]);
    ReadsMark(s, 91, start[1..]);
    Containers(start, depth);
    var first := SkipSpaces(start[1..]);
    ghost var items: seq<Json> := [];
    if first[0] == 93 {
      ReadsMark(start[1..], 93, r.rest);
      NoNesting();
      NoTokens();
      assert [] + [Mark(93)] == [Mark(93)];
    } else {
      items := ElementsSound(first, depth + 1, []);
      assert [] + items == items;
      ReadsSkip(start[1..], ItemTokens(items) + [Mark(93)], r.rest);
    }
    ReadsBoth(s, [Mark(91)], start[1..], ItemTokens(items) + [Mark(93)], r.rest);
    Assoc3([Mark(91)], ItemTokens(items), [Mark(93)]);
  }

  lemma NoTokens()
    ensures ItemTokens([]) == [] && MemberTokens([]) == []
  {
  }

  lemma {:induction false} ElementsSound(s: seq<byte>, depth: nat, before: seq<Json>) returns (items: seq<Json>)
    requires Terminated(s) && depth <= NESTING_LIMIT && ParseElements(s, depth, before).Ok?
    ensures var r := ParseElements(s, depth, before);
      && r.value == before + items && items != []
      && Reads(s, ItemTokens(items) + [Mark(93)], r.rest) && depth + MaxNesting(items) <= NESTING_LIMIT
    decreases |s|, 2
  {
    hide SkipSpaces, ParseValue, ParseElements, ReadToken, Reads, TokensOf, Nesting;
    var r := ParseElements(s, depth, before);
    TokenAt(s);
    ElementsStep(s, depth, before);
    var value := ParseValue(SkipSpaces(s), depth);
    ValueSound(s, depth);
    TokenAt(value.rest);
    var next := SkipSpaces(value.rest);
    var v := value.value;
    BehindMark(next);
    NoNesting();
    if next[0] == COMMA {
      ReadsMark(value.rest, 44, next[1..]);
      var more := ElementsSound(next[1..], depth, before + [v]);
      items := [v] + more;
      Assoc3(before, [v], more);
      ItemRow(v, more);
      ReadsThree(s, TokensOf(v), value.rest, 44, next[1..], ItemTokens(more) + [Mark(93)], r.rest);
    } else {
      items := [v];
      ReadsMark(value.rest, 93, r.rest);
      ReadsBoth(s, TokensOf(v), value.rest, [Mark(93)], r.rest);
      assert items[1..] == [];
    }
  }

  /** A value's tokens, a mark, and more. */
  lemma ReadsThree(s: seq<byte>, a: seq<Token>, mid: seq<byte>, b: byte, after: seq<byte>, c: seq<Token>,
                   rest: seq<byte>)
    requires Terminated(s) && Reads(s, a, mid) && Terminated(mid) && Reads(mid, [Mark(b)], after)
    ensures Terminated(after) && (Reads(s, a + ([Mark(b)] + c), rest) <==> Reads(after, c, rest))
  {
    hide Reads;
    ReadsBoth(mid, [Mark(b)], after, c, rest);
    ReadsBoth(s, a, mid, [Mark(b)] + c, rest);
  }

  lemma ItemRow(v: Json, more: seq<Json>)
    requires more != []
    ensures ItemTokens([v] + more) + [Mark(93)] == TokensOf(v) + ([Mark(44)] + (ItemTokens(more) + [Mark(93)]))
    ensures MaxNesting([v] + more) == Max(Nesting(v), MaxNesting(more))
  {
    hide TokensOf, Nesting;
    assert ([v] + more)[1..] == more;
  }

  lemma {:induction false} ObjectSound(s: seq<byte>, depth: nat)
    requires Terminated(s) && depth <= NESTING_LIMIT
    requires Terminated(SkipSpaces(s)) && SkipSpaces(s)[0] == 123 && ParseObject(SkipSpaces(s), depth).Ok?
    ensures var r := ParseObject(SkipSpaces(s), depth);
      Reads(s, TokensOf(r.value), r.rest) && depth + Nesting(r.value) <= NESTING_LIMIT
    decreases |s|, 0
  {
    hide SkipSpaces, ParseObject, ParseMembers, ReadToken, Reads, MemberTokens, MaxMemberNesting;
    TokenAt(s);
    var start := SkipSpaces(s);
    var r := ParseObject(start, depth);
    BehindMark(start);
    TokenAt(start[1..]);
    ReadsMark(s, 123, start[1..]);
    Containers(start, depth);
    var first := SkipSpaces(start[1..]);
    ghost var members: seq<Member> := [];
    if first[0] == 125 {
      ReadsMark(start[1..], 125, r.rest);
      NoNesting();
      NoTokens();
      assert [] + [Mark(125)] == [Mark(125)];
    } else {
      members := MembersSound(first, depth + 1, []);
      assert [] + members == members;
      ReadsSkip(start[1..], MemberTokens(members) + [Mark(125)], r.rest);
    }
    ReadsBoth(s, [Mark(123)], start[1..], MemberTokens(members) + [Mark(125)], r.rest);
    Assoc3([Mark(123)], MemberTokens(members), [Mark(125)]);
  }

  lemma {:induction false} MembersSound(s: seq<byte>, depth: nat, before: seq<Member>) returns (members: seq<Member>)
    requires Terminated(s) && depth <= NESTING_LIMIT && ParseMembers(s, depth, before).Ok?
    ensures var r := ParseMembers(s, depth, before);
      && r.value == before + members && members != []
      && Reads(s, MemberTokens(members) + [Mark(125)], r.rest) && depth + MaxMemberNesting(members) <= NESTING_LIMIT
    decreases |s|, 3
  {
    hide SkipSpaces, ParseMember, ParseMembers, ReadToken, Reads, OneMember, Nesting;
    var r := ParseMembers(s, depth, before);
    TokenAt(s);
    MembersStep(s, depth, before);
    var member := ParseMember(s, depth);
    MemberSound(s, depth);
    TokenAt(member.rest);
    var next := SkipSpaces(member.rest);
    var m := member.value;
    BehindMark(next);
    NoNesting();
    if next[0] == COMMA {
      ReadsMark(member.rest, 44, next[1..]);
      var more := MembersSound(next[1..], depth, before + [m]);
      members := [m] + more;
      Assoc3(before, [m], more);
      MemberRow(m, more);
      ReadsThree(s, OneMember(m), member.rest, 44, next[1..], MemberTokens(more) + [Mark(125)], r.rest);
    } else {
      members := [m];
      ReadsMark(member.rest, 125, r.rest);
      ReadsBoth(s, OneMember(m), member.rest, [Mark(125)], r.rest);
      assert members[1..] == [];
    }
  }

  lemma MemberRow(m: Member, more: seq<Member>)
    requires more != []
    ensures MemberTokens([m] + more) + [Mark(125)] == OneMember(m) + ([Mark(44)] + (MemberTokens(more) + [Mark(125)]))
    ensures MaxMemberNesting([m] + more) == Max(Nesting(m.value), MaxMemberNesting(more))
  {
    hide OneMember, Nesting;
    assert ([m] + more)[1..] == more;
  }

  /** The steps of one member. */
  lemma MemberCases(s: seq<byte>, depth: nat)
    requires Terminated(s) && Terminated(SkipSpaces(s))
    ensures var key := StringSpec.ParseString(SkipSpaces(s));
      && (key.Fail? ==> ParseMember(s, depth).Fail?)
      && (key.Ok? ==>
            var colon := SkipSpaces(key.rest);
            && Terminated(colon)
            && (colon[0] != 58 ==> ParseMember(s, depth).Fail?)
            && (colon[0] == 58 ==>
                  && Terminated(colon[1..]) && Terminated(SkipSpaces(colon[1..]))
                  && var r := ParseValue(SkipSpaces(colon[1..]), depth);
                  ParseMember(s, depth) == if r.Ok? then Ok(Member(key.value, r.value), r.rest) else Fail(r.rest)))
  {
    hide SkipSpaces, ParseValue, StringSpec.ParseString;
    var key := StringSpec.ParseString(SkipSpaces(s));
    if key.Ok? {
      TokenAt(key.rest);
      var colon := SkipSpaces(key.rest);
      if colon[0] == 58 {
        BehindMark(colon);
        TokenAt(colon[1..]);
      }
    }
  }

  lemma StringToken(s: seq<byte>, text: seq<byte>, rest: seq<byte>)
    requires Terminated(s)
    ensures StringSpec.ParseString(s) == Ok(text, rest) <==> ReadToken(s) == Ok(Scalar(String(text)), rest)
  {
    hide StringSpec.ScanLength, StringSpec.Unescape, NumberSpec.ParseNumber;
    NumberValue(s);
  }

  lemma NumberValue(s: seq<byte>)
    ensures NumberSpec.ParseNumber(s).Ok? ==> NumberSpec.ParseNumber(s).value.Number?
  {
    hide NumberSpec.ParseNumber;
  }

  lemma {:induction false} MemberSound(s: seq<byte>, depth: nat)
    requires Terminated(s) && depth <= NESTING_LIMIT && ParseMember(s, depth).Ok?
    ensures var r := ParseMember(s, depth);
      Reads(s, OneMember(r.value), r.rest) && depth + Nesting(r.value.value) <= NESTING_LIMIT
    decreases |s|, 2
  {
    hide SkipSpaces, ParseMember, ParseValue, ReadToken, Reads, TokensOf, Nesting, StringSpec.ParseString;
    TokenAt(s);
    MemberCases(s, depth);
    var r := ParseMember(s, depth);
    var key := StringSpec.ParseString(SkipSpaces(s));
    var name := Scalar(String(key.value));
    StringToken(SkipSpaces(s), key.value, key.rest);
    ReadsOne(s, name, key.rest);
    var behind := SkipSpaces(key.rest)[1..];
    TokenAt(key.rest);
    ReadsMark(key.rest, 58, behind);
    ValueSound(behind, depth);
    ReadsThree(s, [name], key.rest, 58, behind, TokensOf(r.value.value), r.rest);
    assert OneMember(r.value) == [name] + ([Mark(58)] + TokensOf(r.value.value));
  }

  // ---------------------------------------------------------------- what has the tokens of a value is accepted

  lemma {:induction false} ValueComplete(s: seq<byte>, depth: nat, j: Json, rest: seq<byte>)
    requires Terminated(s) && Reads(s, TokensOf(j), rest) && depth + Nesting(j) <= NESTING_LIMIT
    ensures Terminated(SkipSpaces(s)) && ParseValue(SkipSpaces(s), depth) == Ok(j, rest)
    decreases j, 0
  {
    hide SkipSpaces, ParseValue, ParseArray, ParseObject, ReadToken, Reads, ItemTokens, MemberTokens, MaxNesting,
      MaxMemberNesting;
    TokenAt(s);
    match j
    case Array(items) =>
      ArrayComplete(s, depth, items, rest);
      ContainerStart(SkipSpaces(s), depth);
    case Object(members) =>
      ObjectComplete(s, depth, members, rest);
      ContainerStart(SkipSpaces(s), depth);
    case _ =>
      ReadsOne(s, Scalar(j), rest);
      ScalarToken(SkipSpaces(s), depth, j, rest);
  }

  lemma {:induction false} ArrayComplete(s: seq<byte>, depth: nat, items: seq<Json>, rest: seq<byte>)
    requires Terminated(s) && Reads(s, [Mark(91)] + ItemTokens(items) + [Mark(93)], rest)
    requires depth + 1 + MaxNesting(items) <= NESTING_LIMIT
    ensures Terminated(SkipSpaces(s)) && SkipSpaces(s)[0] == 91 &&
      ParseArray(SkipSpaces(s), depth) == Ok(Array(items), rest)
    decreases items, 1
  {
    hide SkipSpaces, ParseArray, ParseElements, ReadToken, Reads, ItemTokens, MaxNesting;
    TokenAt(s);
    var more := ItemTokens(items) + [Mark(93)];
    Assoc3([Mark(91)], ItemTokens(items), [Mark(93)]);
    var t := ReadsFirst(s, [Mark(91)], more, rest);
    ReadsMark(s, 91, t);
    TokenAt(t);
    Containers(SkipSpaces(s), depth);
    if items == [] {
      NoTokens();
      assert more == [Mark(93)];
      ReadsMark(t, 93, rest);
    } else {
      ReadsSkip(t, more, rest);
      SkipSpacesTwice(t);
      NotClosed(SkipSpaces(t), items, rest);
      ElementsComplete(SkipSpaces(t), depth + 1, [], items, rest);
      assert [] + items == items;
    }
  }

  /** The tokens of a value do not begin with a closing bracket. */
  lemma NotClosed(t: seq<byte>, items: seq<Json>, rest: seq<byte>)
    requires Terminated(t) && SkipSpaces(t) == t && items != [] && Reads(t, ItemTokens(items) + [Mark(93)], rest)
    ensures t[0] != 93
  {
    hide SkipSpaces, ReadToken, ItemTokens;
    FirstItem(items);
    FirstToken(t, ItemTokens(items) + [Mark(93)], rest);
    MarkToken(t, 93);
  }

  lemma FirstToken(t: seq<byte>, ts: seq<Token>, rest: seq<byte>)
    requires Terminated(t) && SkipSpaces(t) == t && ts != [] && Reads(t, ts, rest)
    ensures ReadToken(t).Ok? && ReadToken(t).value == ts[0]
  {
    hide SkipSpaces, ReadToken;
  }

  lemma FirstItem(items: seq<Json>)
    requires items != []
    ensures ItemTokens(items) != [] && ItemTokens(items)[0] != Mark(93)
  {
    hide TokensOf;
    ValueToken(items[0]);
  }

  lemma ValueToken(j: Json)
    ensures TokensOf(j)[0] != Mark(93)
  {
    hide ItemTokens, MemberTokens;
  }

  lemma {:induction false} ElementsComplete(s: seq<byte>, depth: nat, before: seq<Json>, items: seq<Json>,
                                            rest: seq<byte>)
    requires Terminated(s) && items != [] && Reads(s, ItemTokens(items) + [Mark(93)], rest)
    requires depth + MaxNesting(items) <= NESTING_LIMIT
    ensures ParseElements(s, depth, before) == Ok(before + items, rest)
    decreases items, 0
  {
    hide SkipSpaces, ParseValue, ParseElements, ReadToken, Reads, TokensOf, Nesting;
    var v := items[0];
    TokenAt(s);
    ElementsStep(s, depth, before);
    if |items| == 1 {
      var mid := ReadsFirst(s, TokensOf(v), [Mark(93)], rest);
      ValueComplete(s, depth, v, mid);
      TokenAt(mid);
      ReadsMark(mid, 93, rest);
      assert items == [v];
    } else {
      var more := items[1..];
      assert items == [v] + more;
      ItemRow(v, more);
      var mid := ReadsFirst(s, TokensOf(v), [Mark(44)] + (ItemTokens(more) + [Mark(93)]), rest);
      ValueComplete(s, depth, v, mid);
      var behind := ReadsFirst(mid, [Mark(44)], ItemTokens(more) + [Mark(93)], rest);
      TokenAt(mid);
      ReadsMark(mid, 44, behind);
      ElementsComplete(behind, depth, before + [v], more, rest);
      Assoc3(before, [v], more);
    }
  }

  lemma {:induction false} ObjectComplete(s: seq<byte>, depth: nat, members: seq<Member>, rest: seq<byte>)
    requires Terminated(s) && Reads(s, [Mark(123)] + MemberTokens(members) + [Mark(125)], rest)
    requires depth + 1 + MaxMemberNesting(members) <= NESTING_LIMIT
    ensures Terminated(SkipSpaces(s)) && SkipSpaces(s)[0] == 123
    ensures ParseObject(SkipSpaces(s), depth) == Ok(Object(members), rest)
    decreases members, 3
  {
    hide SkipSpaces, ParseObject, ParseMembers, ReadToken, Reads, MemberTokens, MaxMemberNesting;
    TokenAt(s);
    var more := MemberTokens(members) + [Mark(125)];
    Assoc3([Mark(123)], MemberTokens(members), [Mark(125)]);
    var t := ReadsFirst(s, [Mark(123)], more, rest);
    ReadsMark(s, 123, t);
    TokenAt(t);
    Containers(SkipSpaces(s), depth);
    if members == [] {
      NoTokens();
      assert more == [Mark(125)];
      ReadsMark(t, 125, rest);
    } else {
      ReadsSkip(t, more, rest);
      FirstMember(members);
      SkipSpacesTwice(t);
      FirstToken(SkipSpaces(t), more, rest);
      MarkToken(SkipSpaces(t), 125);
      MembersComplete(SkipSpaces(t), depth + 1, [], members, rest);
      assert [] + members == members;
    }
  }

  lemma FirstMember(members: seq<Member>)
    requires members != []
    ensures MemberTokens(members) != [] && MemberTokens(members)[0].Scalar?
  {
    hide TokensOf;
  }

  lemma {:induction false} MembersComplete(s: seq<byte>, depth: nat, before: seq<Member>, members: seq<Member>,
                                           rest: seq<byte>)
    requires Terminated(s) && members != [] && Reads(s, MemberTokens(members) + [Mark(125)], rest)
    requires depth + MaxMemberNesting(members) <= NESTING_LIMIT
    ensures ParseMembers(s, depth, before) == Ok(before + members, rest)
    decreases members, 2
  {
    hide SkipSpaces, ParseMember, ParseMembers, ReadToken, Reads, OneMember, Nesting;
    var m := members[0];
    TokenAt(s);
    MembersStep(s, depth, before);
    if |members| == 1 {
      var mid := ReadsFirst(s, OneMember(m), [Mark(125)], rest);
      MemberComplete(s, depth, m, mid);
      TokenAt(mid);
      ReadsMark(mid, 125, rest);
      assert members == [m];
    } else {
      var more := members[1..];
      assert members == [m] + more;
      MemberRow(m, more);
      var mid := ReadsFirst(s, OneMember(m), [Mark(44)] + (MemberTokens(more) + [Mark(125)]), rest);
      MemberComplete(s, depth, m, mid);
      var behind := ReadsFirst(mid, [Mark(44)], MemberTokens(more) + [Mark(125)], rest);
      TokenAt(mid);
      ReadsMark(mid, 44, behind);
      MembersComplete(behind, depth, before + [m], more, rest);
      Assoc3(before, [m], more);
    }
  }

  lemma {:induction false} MemberComplete(s: seq<byte>, depth: nat, m: Member, rest: seq<byte>)
    requires Terminated(s) && Reads(s, OneMember(m), rest) && depth + Nesting(m.value) <= NESTING_LIMIT
    ensures ParseMember(s, depth) == Ok(m, rest)
    decreases m, 1
  {
    hide SkipSpaces, ParseMember, ParseValue, ReadToken, Reads, TokensOf, Nesting, StringSpec.ParseString;
    TokenAt(s);
    var name := Scalar(String(m.key));
    assert OneMember(m) == [name] + ([Mark(58)] + TokensOf(m.value));
    var mid := ReadsFirst(s, [name], [Mark(58)] + TokensOf(m.value), rest);
    ReadsOne(s, name, mid);
    StringToken(SkipSpaces(s), m.key, mid);
    var behind := ReadsFirst(mid, [Mark(58)], TokensOf(m.value), rest);
    TokenAt(mid);
    ReadsMark(mid, 58, behind);
    ValueComplete(behind, depth, m.value, rest);
    MemberCases(s, depth);
  }

  // ---------------------------------------------------------------- values and whole texts

  /** A value is accepted exactly when its tokens stand there and its containers are not nested too deep. */
  lemma ValueTokens(s: seq<byte>, depth: nat, j: Json, rest: seq<byte>)
    requires Terminated(s) && depth <= NESTING_LIMIT
    ensures Terminated(SkipSpaces(s))
    ensures ParseValue(SkipSpaces(s), depth) == Ok(j, rest) <==>
      Reads(s, TokensOf(j), rest) && depth + Nesting(j) <= NESTING_LIMIT
  {
    hide SkipSpaces, ParseValue, Reads, TokensOf, Nesting;
    TokenAt(s);
    if ParseValue(SkipSpaces(s), depth) == Ok(j, rest) { ValueSound(s, depth); }
    if Reads(s, TokensOf(j), rest) && depth + Nesting(j) <= NESTING_LIMIT { ValueComplete(s, depth, j, rest); }
  }

  /** The three words. */
  lemma WordsRead(rest: seq<byte>)
    requires Terminated(rest)
    ensures Terminated([110, 117, 108, 108] + rest) && ReadToken([110, 117, 108, 108] + rest) == Ok(Scalar(Null), rest)
    ensures Terminated([116, 114, 117, 101] + rest) && ReadToken([116, 114, 117, 101] + rest) == Ok(Scalar(True), rest)
    ensures Terminated([102, 97, 108, 115, 101] + rest)
    ensures ReadToken([102, 97, 108, 115, 101] + rest) == Ok(Scalar(False), rest)
  {
    hide ReadToken;
    WordRead([110, 117, 108, 108], Null, rest);
    WordRead([116, 114, 117, 101], True, rest);
    WordRead([102, 97, 108, 115, 101], False, rest);
  }

  lemma WordRead(word: seq<byte>, j: Json, rest: seq<byte>)
    requires Terminated(rest)
    requires (word == [110, 117, 108, 108] && j == Null) || (word == [116, 114, 117, 101] && j == True) ||
      (word == [102, 97, 108, 115, 101] && j == False)
    ensures Terminated(word + rest) && ReadToken(word + rest) == Ok(Scalar(j), rest)
  {
    hide StringSpec.ParseString, NumberSpec.ParseNumber;
    var s := word + rest;
    assert s[|s| - 1] == rest[|rest| - 1];
    DropAppend(word, rest);
    assert word <= s && s[0] == word[0];
    assert NULL_TEXT[0] == 110 && TRUE_TEXT[0] == 116 && FALSE_TEXT[0] == 102;
  }

  /** The byte order mark is skipped where it is followed by something. */
  lemma MarkSkipped(t: seq<byte>)
    ensures |t| >= 2 ==> SkipBom([0xEF, 0xBB, 0xBF] + t) == t
    ensures |t| < 3 || t[0] != 0xEF || t[1] != 0xBB || t[2] != 0xBF ==> SkipBom(t) == t
  {
    DropAppend([0xEF, 0xBB, 0xBF], t);
  }

  /** A text is accepted as a tree, whatever stands behind it, exactly when its first tokens are those of the tree
      and at most 1000 brackets are open at a time. */
  lemma PrefixTokens(text: seq<byte>, j: Json, rest: seq<byte>)
    ensures ParseText(text, false) == Ok(j, rest) <==>
      Reads(SkipBom(text + [NUL]), TokensOf(j), rest) && Deepest(TokensOf(j), 0) <= 1000
  {
    hide SkipSpaces, ParseValue, Reads, TokensOf, Nesting, Deepest;
    DeepestIs(j, 0);
    ValueTokens(SkipBom(text + [NUL]), 0, j, rest);
  }

  /** It is accepted whole exactly when besides nothing but whitespace is left. */
  lemma TextTokens(text: seq<byte>, j: Json)
    ensures var s := SkipBom(text + [NUL]);
      ParseText(text, true).Ok? && ParseText(text, true).value == j <==>
      Deepest(TokensOf(j), 0) <= 1000 &&
      exists rest :: Reads(s, TokensOf(j), rest) && Terminated(rest) && OnlySpaces(rest)
  {
    hide SkipSpaces, ParseValue, Reads, TokensOf, Nesting, OnlySpaces, Deepest;
    var s := SkipBom(text + [NUL]);
    DeepestIs(j, 0);
    TokenAt(s);
    var r := ParseValue(SkipSpaces(s), 0);
    if r.Ok? {
      TokenAt(r.rest);
      EndOf(r.rest);
      ValueTokens(s, 0, r.value, r.rest);
    }
    if ParseText(text, true).Ok? && ParseText(text, true).value == j {
      assert Reads(s, TokensOf(j), r.rest) && Terminated(r.rest) && OnlySpaces(r.rest);
    }
    if Nesting(j) <= NESTING_LIMIT {
      forall rest | Reads(s, TokensOf(j), rest) && Terminated(rest) && OnlySpaces(rest)
        ensures ParseText(text, true).Ok? && ParseText(text, true).value == j
      {
        ValueTokens(s, 0, j, rest);
        EndOf(rest);
      }
    }
  }

  predicate OnlySpaces(t: seq<byte>) {
    forall i :: 0 <= i < |t| ==> t[i] <= 32
  }

  lemma EndOf(t: seq<byte>)
    requires Terminated(t)
    ensures SkipSpaces(t) != [] && (SkipSpaces(t)[0] == NUL <==> OnlySpaces(t))
  {
    EndDropped(t);
  }

  lemma {:induction false} EndDropped(t: seq<byte>)
    ensures DropSpaces(t) == [] <==> OnlySpaces(t)
  {
    if t != [] && t[0] <= SPACE {
      EndDropped(t[1..]);
      assert forall i :: 0 < i < |t| ==> t[i] == t[1..][i - 1];
    }
  }
}
