/** The parser as the code runs it: a cursor and a depth counter over a read-only buffer. Each
    method is proved against the function of the same name in ParserSpec; every index it reads is
    below the buffer's length. */
module Parser {
  import opened Bytes
  import opened Json
  import opened ChildList
  import opened Items
  import opened JsonTree
  import Spec = ParserSpec
  import NumberSpec
  import StringSpec
  import StringParser

  class ParseBuffer {
    const content: seq<byte>
    var offset: nat
    var depth: nat

    constructor (content: seq<byte>)
      requires Terminated(content)
      ensures this.content == content && offset == 0 && depth == 0 && Valid()
    {
      this.content := content;
      offset, depth := 0, 0;
    }

    ghost predicate Valid()
      reads this
    {
      Terminated(content) && offset <= |content|
    }

    function Rest(): seq<byte>
      requires offset <= |content|
      reads this
    {
      content[offset..]
    }

    /** What the cursor shows. */
    lemma AtCursor()
      requires Valid()
      ensures offset <= |content| && Rest() == content[offset..] && |Rest()| == |content| - offset
      ensures offset < |content| && content[offset] != NUL ==> offset + 1 < |content|
      ensures offset < |content| ==> Rest()[0] == content[offset] && Rest()[1..] == content[offset + 1..]
    {
    }

    predicate CanAccess()
      reads this
    {
      offset < |content|
    }

    predicate CanRead(size: nat)
      reads this
    {
      offset + size <= |content|
    }

    /** can_read and strncmp */
    predicate StartsWith(word: seq<byte>)
      requires offset <= |content|
      reads this
      ensures StartsWith(word) <==> word <= Rest()
      ensures StartsWith(word) ==> Rest()[|word|..] == content[offset + |word|..]
    {
      CanRead(|word|) && content[offset..offset + |word|] == word
    }

    method SkipWhitespace()
      requires Valid()
      modifies this`offset
      ensures Valid() && Rest() == Spec.SkipSpaces(old(Rest()))
      ensures old(CanAccess()) ==> old(offset) <= offset && CanAccess()
    {
      hide Spec.DropSpaces, Spec.SkipSpaces, Rest, Terminated;
      AtCursor();
      SpacesCases(Rest());
      if !CanAccess() {
        return;
      }
      ghost var all := Spec.DropSpaces(Rest());
      while CanAccess() && content[offset] <= SPACE
        invariant old(offset) <= offset <= |content| && Spec.DropSpaces(content[offset..]) == all
        decreases |content| - offset
      {
        DropOne(content, offset);
        offset := offset + 1;
      }
      DropNone(content[offset..]);
      if offset == |content| {
        LastByte(content, old(offset));
        offset := offset - 1;
      }
      AtCursor();
    }

    method SkipUtf8Bom()
      requires Valid() && offset == 0
      modifies this`offset
      ensures Valid() && Rest() == Spec.SkipBom(old(Rest())) && offset < |content|
    {
      if 4 < |content| && content[..3] == Spec.BOM {
        offset := 3;
      }
    }

    /** The body of cJSON_ParseWithLengthOpts after the buffer is set up. */
    method ParseWhole(item: Node, requireNullTerminated: bool) returns (ok: bool, ghost value: Json)
      requires Valid() && offset == 0 && depth == 0 && Blank(item)
      modifies this, item`kind, item`valuestring, item`valueint, item`valuedouble, item`child, item`kids, item`below
      ensures Valid() && (ok ==> Stands(item, TreeOf(value, item.name)) && fresh(item.below))
      ensures var r := Spec.ParseBufferText(old(Rest()), requireNullTerminated);
        Rest() == r.rest && ok == r.Ok? && (ok ==> value == r.value && offset < |content|)
    {
      hide Spec.ParseValue, Spec.SkipSpaces, Spec.SkipBom, Spec.ParseBufferText, Stands, TreeOf, Blank, Terminated,
        Rest;
      AtCursor();
      WholeCases(Rest(), requireNullTerminated);
      SkipUtf8Bom();
      SkipWhitespace();
      AtCursor();
      ok, value := ParseValue(item);
      AtCursor();
      if ok && requireNullTerminated {
        SkipWhitespace();
        AtCursor();
        if offset >= |content| || content[offset] != NUL {
          ok := false;
        }
      }
    }

    /** parse_string, up to storing the text. */
    method ReadString() returns (ok: bool, text: seq<byte>)
      requires Valid() && offset < |content|
      modifies this`offset
      ensures Valid()
      ensures var r := StringSpec.ParseString(old(Rest()));
        Rest() == r.rest && ok == r.Ok? && (ok ==> text == r.value)
    {
      hide StringSpec.ScanLength, StringSpec.Unescape, CString;
      text := [];
      var start := offset + 1;
      assert old(Rest())[1..] == content[start..];
      if content[offset] != QUOTE {
        offset := start;
        return false, text;
      }
      var found, end, skipped := StringParser.FindEnd(content[start..]);
      if !found {
        offset := start;
        return false, text;
      }
      StringParser.BudgetAtEnd(content[start..], end, 0, 0);
      var allocationLength := (start + end - offset) - skipped;
      var output := new byte[allocationLength + 1];
      var input, written;
      ok, input, written := StringParser.UnescapeInto(content[start..], end, output);
      if ok {
        CStringUpTo(output[..], written);
        text := CString(output[..]);
        offset := start + end + 1;
        assert old(Rest())[end + 2..] == content[offset..];
      } else {
        offset := start + input;
        assert content[start..][input..] == content[offset..];
      }
    }

    method ParseString(item: Node) returns (ok: bool)
      requires Valid() && offset < |content|
      modifies this`offset, item`kind, item`valuestring
      ensures Valid()
      ensures var r := StringSpec.ParseString(old(Rest()));
        && Rest() == r.rest && ok == r.Ok?
        && (ok ==> item.kind == KIND_STRING && item.valuestring == Option.Some(r.value))
    {
      hide StringSpec.ParseString;
      var text;
      ok, text := ReadString();
      if ok {
        item.kind := KIND_STRING;
        item.valuestring := Option.Some(text);
      }
    }

    /** parse_number, up to storing the number. */
    method ReadNumber() returns (ok: bool, valuedouble: real, valueint: int)
      requires Valid()
      modifies this`offset
      ensures Valid()
      ensures var r := NumberSpec.ParseNumber(old(Rest()));
        Rest() == r.rest && ok == r.Ok? && (ok ==> r.value == Number(valuedouble, valueint))
    {
      hide NumberSpec.Strtod, NumberSpec.Saturate, NumberSpec.NumberChars, NumberSpec.ParseNumber, Terminated;
      NumberCases(Rest());
      var copy, i := NumberSpec.CopyNumber(Rest());
      var number := NumberSpec.Strtod(copy[..i]);
      if number.used == 0 {
        return false, 0.0, 0;
      }
      assert old(Rest())[number.used..] == content[offset + number.used..];
      offset := offset + number.used;
      return true, number.value, NumberSpec.Saturate(number.value);
    }

    method ParseNumber(item: Node) returns (ok: bool)
      requires Valid()
      modifies this`offset, item`kind, item`valuedouble, item`valueint
      ensures Valid()
      ensures var r := NumberSpec.ParseNumber(old(Rest()));
        && Rest() == r.rest && ok == r.Ok?
        && (ok ==> item.kind == KIND_NUMBER && r.value == Number(item.valuedouble, item.valueint))
    {
      hide NumberSpec.ParseNumber;
      var valuedouble, valueint;
      ok, valuedouble, valueint := ReadNumber();
      if ok {
        item.valuedouble := valuedouble;
        item.valueint := valueint;
        item.kind := KIND_NUMBER;
      }
    }

    method ParseValue(item: Node) returns (ok: bool, ghost value: Json)
      requires Valid() && offset < |content| && Blank(item)
      modifies this, item`kind, item`valuestring, item`valueint, item`valuedouble, item`child, item`kids, item`below
      ensures Valid() && (ok ==> Stands(item, TreeOf(value, item.name)) && fresh(item.below))
      ensures var r := Spec.ParseValue(old(Rest()), old(depth));
        Rest() == r.rest && ok == r.Ok? && (ok ==> value == r.value && depth == old(depth))
      decreases |content| - offset, 1
    {
      hide Spec.ParseArray, Spec.ParseObject, StringSpec.ParseString, NumberSpec.ParseNumber, Stands, StartsWith;
      value := Null;
      if StartsWith(NULL_TEXT) {
        item.kind := KIND_NULL;
        offset := offset + 4;
        ok := true;
      } else if StartsWith(FALSE_TEXT) {
        item.kind := KIND_FALSE;
        offset := offset + 5;
        ok, value := true, False;
      } else if StartsWith(TRUE_TEXT) {
        item.kind := KIND_TRUE;
        item.valueint := 1;
        offset := offset + 4;
        ok, value := true, True;
      } else if CanAccess() && content[offset] == QUOTE {
        ghost var r := StringSpec.ParseString(Rest());
        value := if r.Ok? then String(r.value) else Null;
        ok := ParseString(item);
      } else if CanAccess() && (content[offset] == MINUS || DIGIT_ZERO <= content[offset] <= DIGIT_NINE) {
        ghost var r := NumberSpec.ParseNumber(Rest());
        value := if r.Ok? then r.value else Null;
        ok := ParseNumber(item);
      } else if CanAccess() && content[offset] == OPEN_BRACKET {
        ok, value := ParseArray(item);
        return;
      } else if CanAccess() && content[offset] == OPEN_BRACE {
        ok, value := ParseObject(item);
        return;
      } else {
        ok := false;
      }
      if ok { Leaf(item, TreeOf(value, item.name)); }
    }

    /** The label "success" for a container without elements. */
    method FillEmpty(item: Node, kind: nat, ghost j: Json)
      requires Valid() && offset < |content| && depth > 0 && Blank(item) && (j.Array? || j.Object?)
      requires kind == TreeOf(j, item.name).kind && TreeOf(j, item.name).children == []
      modifies this, item`kind, item`child, item`kids, item`below
      ensures Valid() && Stands(item, TreeOf(j, item.name)) && fresh(item.below)
      ensures Rest() == old(Rest())[1..] && depth == old(depth) - 1
    {
      hide Stands, PartList, TreeOf, Blank;
      depth := depth - 1;
      NoList();
      Finish(item, kind, null, null, [], {}, j);
      offset := offset + 1;
    }

    method ParseArray(item: Node) returns (ok: bool, ghost value: Json)
      requires Valid() && offset < |content| && content[offset] == OPEN_BRACKET && Blank(item)
      modifies this, item`kind, item`child, item`kids, item`below
      ensures Valid() && (ok ==> Stands(item, TreeOf(value, item.name)) && fresh(item.below))
      ensures var r := Spec.ParseArray(old(Rest()), old(depth));
        Rest() == r.rest && ok == r.Ok? && (ok ==> value == r.value && depth == old(depth))
      decreases |content| - offset, 0
    {
      hide Spec.ParseArray, Spec.ParseElements, Spec.SkipSpaces, Terminated, Stands, PartList, TreeOf, Blank;
      TailTerminated(content, offset);
      ArrayCases(Rest(), depth);
      ok, value := false, Null;
      if depth >= NESTING_LIMIT {
        return;
      }
      depth := depth + 1;
      assert old(Rest())[1..] == content[offset + 1..];
      offset := offset + 1;
      SkipWhitespace();
      ghost var first := Rest();
      if CanAccess() && content[offset] == CLOSE_BRACKET {
        ArrayTree([], item.name);
        FillEmpty(item, KIND_ARRAY, Array([]));
        return true, Array([]);
      }
      if !CanAccess() {
        assert false;  // only a buffer without a NUL at its end gets here
      }
      ok, value := FillArray(item, first);
    }

    /** From the step back in front of the first one to the closing bracket. */
    method FillArray(item: Node, ghost first: seq<byte>) returns (ok: bool, ghost value: Json)
      requires Valid() && 0 < offset < |content| && first == Rest() && depth > 0 && Blank(item)
      modifies this, item`kind, item`child, item`kids, item`below
      ensures Valid() && (ok ==> Stands(item, TreeOf(value, item.name)) && fresh(item.below))
      ensures var r := Spec.ParseElements(first, old(depth), []);
        && Rest() == r.rest && ok == r.Ok?
        && (ok ==> value == Array(r.value) && depth == old(depth) - 1)
      decreases |content| - offset, 6
    {
      hide Spec.ParseElements, Terminated, Stands, PartList, TreeOf, Blank, TreesOf;
      value := Null;
      offset := offset - 1;
      var head, current;
      ghost var items, done, below;
      ok, head, current, items, done, below := ParseElements(first);
      if !ok {
        return;
      }
      depth := depth - 1;
      ArrayTree(items, item.name);
      InList(head, current, done, TreesOf(items), below);
      Finish(item, KIND_ARRAY, head, current, done, below, Array(items));
      offset := offset + 1;
      value := Array(items);
    }

    /** "parse next value": the value behind the cursor and the whitespace there. */
    method ParseNextValue(item: Node) returns (ok: bool, ghost value: Json)
      requires Valid() && offset + 1 < |content| && Blank(item)
      modifies this, item`kind, item`valuestring, item`valueint, item`valuedouble, item`child, item`kids, item`below
      ensures Valid() && (ok ==> Stands(item, TreeOf(value, item.name)) && fresh(item.below))
      ensures var r := Spec.ParseValue(Spec.SkipSpaces(old(content[offset + 1..])), old(depth));
        Rest() == r.rest && ok == r.Ok? && (ok ==> value == r.value && depth == old(depth))
      decreases |content| - offset - 1, 2
    {
      hide Spec.SkipSpaces, Spec.ParseValue, Stands, TreeOf, Blank, Rest;
      offset := offset + 1;
      AtCursor();
      SkipWhitespace();
      AtCursor();
      ok, value := ParseValue(item);
    }

    /** One round of the loop over elements: a new node is attached, and filled from behind the cursor. */
    method ParseElement(head0: Node?, current0: Node?, ghost items: seq<Json>, ghost done: seq<Node>,
                        ghost below: set<Node>)
      returns (ok: bool, head: Node?, current: Node?, ghost value: Json, ghost node: Node)
      requires Valid() && offset + 1 < |content| && PartList(head0, current0, done, TreesOf(items), below)
      modifies this, Opt(current0)`next
      ensures Valid()
      ensures ok ==> PartList(head, current, done + [node], TreesOf(items + [value]), below + Nodes(node))
      ensures ok ==> fresh(Nodes(node))
      ensures var r := Spec.ParseValue(Spec.SkipSpaces(old(content[offset + 1..])), old(depth));
        Rest() == r.rest && ok == r.Ok? && (ok ==> value == r.value && depth == old(depth))
      decreases |content| - offset - 1, 3
    {
      hide Spec.SkipSpaces, Spec.ParseValue, Stands, Copies, HalfLinked, PartList, TreeOf, TreesOf, Blank, Rest;
      var newItem := NewItem();
      node := newItem;
      head, current := AttachItem(head0, current0, newItem, done, TreesOf(items), below);
      ok, value := ParseNextValue(newItem);
      if !ok {
        return;
      }
      ListGrows(head, newItem, done, TreesOf(items), below, TreeOf(value, None));
      TreesAppend(items, value);
    }

    /** The end of a loop's turn: is there a comma? */
    method CommaNext() returns (more: bool)
      requires Valid()
      modifies this`offset
      ensures Valid() && Rest() == Spec.SkipSpaces(old(Rest()))
      ensures Rest() != [] ==> offset < |content| && more == (Rest()[0] == COMMA) && (more ==> offset + 1 < |content|)
      ensures offset <= |content| && |Rest()| == |content| - offset
    {
      hide Spec.SkipSpaces, Rest;
      AtCursor();
      SkipWhitespace();
      AtCursor();
      more := CanAccess() && content[offset] == COMMA;
    }

    /** One turn of the loop: an element, and whether a comma follows it. */
    method TurnElements(head0: Node?, current0: Node?, ghost first: seq<byte>, ghost items0: seq<Json>,
                        ghost done0: seq<Node>, ghost below0: set<Node>)
      returns (ok: bool, more: bool, head: Node?, current: Node?, ghost items: seq<Json>, ghost done: seq<Node>,
               ghost below: set<Node>)
      requires Valid() && offset + 1 < |content| && ElementsLeft(Rest(), first, depth, true, items0)
      requires PartList(head0, current0, done0, TreesOf(items0), below0) && Opt(current0) <= below0
      modifies this, Opt(current0)`next
      ensures Valid() && (!ok ==> Terminated(first) && Spec.ParseElements(first, old(depth), []) == Fail(Rest()))
      ensures ok ==> old(offset) < offset < |content| && depth == old(depth) && (more ==> offset + 1 < |content|)
      ensures ok ==> ElementsLeft(Rest(), first, depth, more, items)
      ensures ok ==> PartList(head, current, done, TreesOf(items), below) && Opt(current) <= below
      ensures ok ==> below0 <= below && fresh(below - below0)
      decreases |content| - offset - 1, 4
    {
      hide Spec.SkipSpaces, Spec.ParseValue, Spec.ParseElements, PartList, TreesOf, ElementsLeft, Stands, TreeOf,
        Rest, Valid, Opt;
      more, items, done, below := false, items0, done0, below0;
      AtCursor();
      NextElements(Rest(), first, depth, items0);
      ghost var value, node;
      ok, head, current, value, node := ParseElement(head0, current0, items0, done0, below0);
      if !ok {
        return;
      }
      items, done, below := items0 + [value], done0 + [node], below0 + Nodes(node);
      InList(head, current, done, TreesOf(items), below);
      more := CommaNext();
    }

    /** The loop: the cursor stands in front of the first element, and ends on the closing bracket. */
    method ParseElements(ghost first: seq<byte>)
      returns (ok: bool, head: Node?, current: Node?, ghost items: seq<Json>, ghost done: seq<Node>,
               ghost below: set<Node>)
      requires Valid() && offset + 1 < |content| && first == content[offset + 1..]
      modifies this
      ensures Valid()
      ensures var r := Spec.ParseElements(first, old(depth), []);
        && ok == r.Ok?
        && (ok ==> old(offset) < offset < |content| && content[offset + 1..] == r.rest)
        && (ok ==> items == r.value && depth == old(depth))
        && (!ok ==> Rest() == r.rest)
      ensures ok ==> PartList(head, current, done, TreesOf(items), below) && fresh(below)
      decreases |content| - offset - 1, 5
    {
      hide Spec.ParseElements, PartList, TreesOf, ElementsLeft, Stands, TreeOf, Rest;
      AtCursor();
      items, done, below, head, current := [], [], {}, null, null;
      NoList();
      var more := true;
      StartElements(Rest(), depth);
      while more
        invariant old(offset) <= offset < |content| && depth == old(depth)
        invariant more ==> offset + 1 < |content|
        invariant !more ==> old(offset) < offset
        invariant ElementsLeft(Rest(), first, depth, more, items)
        invariant PartList(head, current, done, TreesOf(items), below) && fresh(below) && Opt(current) <= below
        decreases |content| - offset, more
      {
        ok, more, head, current, items, done, below := TurnElements(head, current, first, items, done, below);
        if !ok {
          return;
        }
      }
      AtCursor();
      EndElements(Rest(), first, depth, items);
      ok := CanAccess() && content[offset] == CLOSE_BRACKET;
    }

    method ParseObject(item: Node) returns (ok: bool, ghost value: Json)
      requires Valid() && offset < |content| && content[offset] == OPEN_BRACE && Blank(item)
      modifies this, item`kind, item`child, item`kids, item`below
      ensures Valid() && (ok ==> Stands(item, TreeOf(value, item.name)) && fresh(item.below))
      ensures var r := Spec.ParseObject(old(Rest()), old(depth));
        Rest() == r.rest && ok == r.Ok? && (ok ==> value == r.value && depth == old(depth))
      decreases |content| - offset, 0
    {
      hide Spec.ParseObject, Spec.ParseMembers, Spec.SkipSpaces, Terminated, Stands, PartList, TreeOf, Blank;
      TailTerminated(content, offset);
      ObjectCases(Rest(), depth);
      ok, value := false, Null;
      if depth >= NESTING_LIMIT {
        return;
      }
      depth := depth + 1;
      assert old(Rest())[1..] == content[offset + 1..];
      offset := offset + 1;
      SkipWhitespace();
      ghost var first := Rest();
      if CanAccess() && content[offset] == CLOSE_BRACE {
        ObjectTree([], item.name);
        FillEmpty(item, KIND_OBJECT, Object([]));
        return true, Object([]);
      }
      if !CanAccess() {
        assert false;  // only a buffer without a NUL at its end gets here
      }
      ok, value := FillObject(item, first);
    }

    /** From the step back in front of the first one to the closing bracket. */
    method FillObject(item: Node, ghost first: seq<byte>) returns (ok: bool, ghost value: Json)
      requires Valid() && 0 < offset < |content| && first == Rest() && depth > 0 && Blank(item)
      modifies this, item`kind, item`child, item`kids, item`below
      ensures Valid() && (ok ==> Stands(item, TreeOf(value, item.name)) && fresh(item.below))
      ensures var r := Spec.ParseMembers(first, old(depth), []);
        && Rest() == r.rest && ok == r.Ok?
        && (ok ==> value == Object(r.value) && depth == old(depth) - 1)
      decreases |content| - offset, 6
    {
      hide Spec.ParseMembers, Terminated, Stands, PartList, TreeOf, Blank, MemberTrees;
      value := Null;
      offset := offset - 1;
      var head, current;
      ghost var members, done, below;
      ok, head, current, members, done, below := ParseMembers(first);
      if !ok {
        return;
      }
      depth := depth - 1;
      ObjectTree(members, item.name);
      InList(head, current, done, MemberTrees(members), below);
      Finish(item, KIND_OBJECT, head, current, done, below, Object(members));
      offset := offset + 1;
      value := Object(members);
    }

    /** The name is parsed as a string value and then moved to its place. */
    method ReadName(item: Node) returns (ok: bool)
      requires Valid() && offset < |content| && Blank(item)
      modifies this`offset, item`kind, item`valuestring, item`name
      ensures Valid() && (ok ==> Blank(item) && offset < |content|)
      ensures var r := StringSpec.ParseString(Spec.SkipSpaces(old(Rest())));
        && ok == r.Ok?
        && (if ok then Rest() == Spec.SkipSpaces(r.rest) && item.name == Option.Some(r.value) else Rest() == r.rest)
    {
      hide Spec.SkipSpaces, StringSpec.ParseString, Rest;
      SkipWhitespace();
      ok := ParseString(item);
      if !ok {
        return;
      }
      AtCursor();
      SkipWhitespace();
      item.name := item.valuestring;
      item.valuestring := None;
    }

    /** The name, and the colon behind it. */
    method ParseName(item: Node) returns (ok: bool)
      requires Valid() && offset < |content| && Blank(item)
      modifies this`offset, item`kind, item`valuestring, item`name
      ensures Valid() && (ok ==> Blank(item))
      ensures var r := NameAt(old(Rest()));
        Rest() == r.rest && ok == r.Ok? && (ok ==> item.name == Option.Some(r.value) && offset < |content|)
    {
      hide Spec.SkipSpaces, StringSpec.ParseString, NameAt, Terminated, Rest, Blank;
      AtCursor();
      TailTerminated(content, offset);
      NameCases(Rest());
      ok := ReadName(item);
      if !ok {
        return;
      }
      AtCursor();
      if !CanAccess() || content[offset] != COLON {
        return false;
      }
      offset := offset + 1;
      AtCursor();
      SkipWhitespace();
      AtCursor();
    }

    /** One round of the loop over members. */
    method ParseMember(item: Node) returns (ok: bool, ghost member: Member)
      requires Valid() && offset < |content| && Blank(item)
      modifies this, item`kind, item`valuestring, item`valueint, item`valuedouble, item`child, item`kids, item`below,
        item`name
      ensures Valid()
      ensures ok ==> item.name == Option.Some(member.key)
      ensures ok ==> Stands(item, TreeOf(member.value, item.name)) && fresh(item.below)
      ensures var r := Spec.ParseMember(old(Rest()), old(depth));
        Rest() == r.rest && ok == r.Ok? && (ok ==> member == r.value && depth == old(depth))
      decreases |content| - offset, 2
    {
      hide Spec.ParseValue, Spec.ParseMember, NameAt, Stands, TreeOf, Blank;
      MemberAt(Rest(), depth);
      member := Member([], Null);
      ok := ParseName(item);
      if !ok {
        return;
      }
      ghost var value;
      ok, value := ParseValue(item);
      member := Member(item.name.value, value);
    }

    /** One round of the loop over members: a new node is attached, named and filled. */
    method ParseNextMember(head0: Node?, current0: Node?, ghost members: seq<Member>, ghost done: seq<Node>,
                           ghost below: set<Node>)
      returns (ok: bool, head: Node?, current: Node?, ghost member: Member, ghost node: Node)
      requires Valid() && offset + 1 < |content| && PartList(head0, current0, done, MemberTrees(members), below)
      modifies this, Opt(current0)`next
      ensures Valid()
      ensures ok ==> PartList(head, current, done + [node], MemberTrees(members + [member]), below + Nodes(node))
      ensures ok ==> fresh(Nodes(node))
      ensures var r := Spec.ParseMember(old(content[offset + 1..]), old(depth));
        Rest() == r.rest && ok == r.Ok? && (ok ==> member == r.value && depth == old(depth))
      decreases |content| - offset - 1, 3
    {
      hide Spec.ParseMember, Stands, Copies, HalfLinked, TreeOf, Blank;
      var newItem := NewItem();
      node := newItem;
      head, current := AttachItem(head0, current0, newItem, done, MemberTrees(members), below);
      offset := offset + 1;
      ok, member := ParseMember(newItem);
      if !ok {
        return;
      }
      ListGrows(head, newItem, done, MemberTrees(members), below, TreeOf(member.value, newItem.name));
      MemberTreesAppend(members, member);
    }

    /** One turn of the loop: a member, and whether a comma follows it. */
    method TurnMembers(head0: Node?, current0: Node?, ghost first: seq<byte>, ghost members0: seq<Member>,
                       ghost done0: seq<Node>, ghost below0: set<Node>)
      returns (ok: bool, more: bool, head: Node?, current: Node?, ghost members: seq<Member>, ghost done: seq<Node>,
               ghost below: set<Node>)
      requires Valid() && offset + 1 < |content| && MembersLeft(Rest(), first, depth, true, members0)
      requires PartList(head0, current0, done0, MemberTrees(members0), below0) && Opt(current0) <= below0
      modifies this, Opt(current0)`next
      ensures Valid() && (!ok ==> Terminated(first) && Spec.ParseMembers(first, old(depth), []) == Fail(Rest()))
      ensures ok ==> old(offset) < offset < |content| && depth == old(depth) && (more ==> offset + 1 < |content|)
      ensures ok ==> MembersLeft(Rest(), first, depth, more, members)
      ensures ok ==> PartList(head, current, done, MemberTrees(members), below) && Opt(current) <= below
      ensures ok ==> below0 <= below && fresh(below - below0)
      decreases |content| - offset - 1, 4
    {
      hide Spec.SkipSpaces, Spec.ParseMember, Spec.ParseMembers, PartList, MemberTrees, MembersLeft, Stands, TreeOf,
        Rest, Valid, Opt;
      more, members, done, below := false, members0, done0, below0;
      AtCursor();
      NextMembers(Rest(), first, depth, members0);
      ghost var member, node;
      ok, head, current, member, node := ParseNextMember(head0, current0, members0, done0, below0);
      if !ok {
        return;
      }
      members, done, below := members0 + [member], done0 + [node], below0 + Nodes(node);
      InList(head, current, done, MemberTrees(members), below);
      more := CommaNext();
    }

    /** The loop: the cursor stands in front of the first name, and ends on the closing bracket. */
    method ParseMembers(ghost first: seq<byte>)
      returns (ok: bool, head: Node?, current: Node?, ghost members: seq<Member>, ghost done: seq<Node>,
               ghost below: set<Node>)
      requires Valid() && offset + 1 < |content| && first == content[offset + 1..]
      modifies this
      ensures Valid()
      ensures var r := Spec.ParseMembers(first, old(depth), []);
        && ok == r.Ok?
        && (ok ==> old(offset) < offset < |content| && content[offset + 1..] == r.rest)
        && (ok ==> members == r.value && depth == old(depth))
        && (!ok ==> Rest() == r.rest)
      ensures ok ==> PartList(head, current, done, MemberTrees(members), below) && fresh(below)
      decreases |content| - offset - 1, 5
    {
      hide Spec.ParseMembers, PartList, MemberTrees, MembersLeft, Stands, TreeOf, Rest;
      AtCursor();
      members, done, below, head, current := [], [], {}, null, null;
      NoList();
      var more := true;
      StartMembers(Rest(), depth);
      while more
        invariant old(offset) <= offset < |content| && depth == old(depth)
        invariant more ==> offset + 1 < |content|
        invariant !more ==> old(offset) < offset
        invariant MembersLeft(Rest(), first, depth, more, members)
        invariant PartList(head, current, done, MemberTrees(members), below) && fresh(below) && Opt(current) <= below
        decreases |content| - offset, more
      {
        ok, more, head, current, members, done, below := TurnMembers(head, current, first, members, done, below);
        if !ok {
          return;
        }
      }
      AtCursor();
      EndMembers(Rest(), first, depth, members);
      ok := CanAccess() && content[offset] == CLOSE_BRACE;
    }
  }

  lemma SpacesCases(s: seq<byte>)
    ensures s == [] ==> Spec.SkipSpaces(s) == s
    ensures s != [] ==> Spec.SkipSpaces(s) == (if Spec.DropSpaces(s) == [] then s[|s| - 1..] else Spec.DropSpaces(s))
  {
    hide Spec.DropSpaces;
  }

  lemma DropOne(content: seq<byte>, i: nat)
    requires i < |content| && content[i] <= SPACE
    ensures Spec.DropSpaces(content[i..]) == Spec.DropSpaces(content[i + 1..])
  {
    assert content[i..][1..] == content[i + 1..];
  }

  lemma DropNone(s: seq<byte>)
    requires s == [] || s[0] > SPACE
    ensures Spec.DropSpaces(s) == s
  {
  }

  lemma LastByte(content: seq<byte>, i: nat)
    requires i < |content|
    ensures content[i..][|content| - i - 1..] == content[|content| - 1..]
  {
  }

  /** The ways a whole text can go. */
  lemma WholeCases(s: seq<byte>, requireNullTerminated: bool)
    requires Terminated(s)
    ensures Spec.SkipSpaces(Spec.SkipBom(s)) != [] && Terminated(Spec.SkipSpaces(Spec.SkipBom(s)))
    ensures var r := Spec.ParseValue(Spec.SkipSpaces(Spec.SkipBom(s)), 0);
      && (r.Ok? ==> r.rest != [])
      && (r.Fail? || !requireNullTerminated ==> Spec.ParseBufferText(s, requireNullTerminated) == r)
      && (r.Ok? && requireNullTerminated ==>
            && var end := Spec.SkipSpaces(r.rest);
            && end != []
            && Spec.ParseBufferText(s, requireNullTerminated) == if end[0] == NUL then Ok(r.value, end) else Fail(end))
  {
    hide Spec.ParseValue, Spec.SkipSpaces, Spec.SkipBom;
  }

  /** What the loop still has to read, and what that makes of the whole. */
  ghost predicate ElementsLeft(rest: seq<byte>, first: seq<byte>, depth: nat, more: bool, items: seq<Json>) {
    && Terminated(first) && Terminated(rest)
    && var all := Spec.ParseElements(first, depth, []);
    && (more ==> |rest| > 1 && Spec.ParseElements(rest[1..], depth, items) == all)
    && (!more ==> all == if rest[0] == CLOSE_BRACKET then Ok(items, rest[1..]) else Fail(rest))
  }

  lemma StartElements(rest: seq<byte>, depth: nat)
    requires Terminated(rest) && |rest| > 1
    ensures ElementsLeft(rest, rest[1..], depth, true, [])
  {
    hide Spec.ParseElements;
  }

  lemma NextElements(rest: seq<byte>, first: seq<byte>, depth: nat, items: seq<Json>)
    requires ElementsLeft(rest, first, depth, true, items)
    ensures |rest| > 1 && Terminated(rest[1..]) && Terminated(first)
    ensures var r := Spec.ParseValue(Spec.SkipSpaces(rest[1..]), depth);
      && (r.Fail? ==> Spec.ParseElements(first, depth, []) == Fail(r.rest))
      && (r.Ok? ==>
            && var next := Spec.SkipSpaces(r.rest);
            next != [] && ElementsLeft(next, first, depth, next[0] == COMMA, items + [r.value]))
  {
    hide Spec.ParseValue, Spec.ParseMember, Spec.SkipSpaces, Spec.ParseElements;
    TailTerminated(rest, 1);
    Spec.ElementsStep(rest[1..], depth, items);
  }

  lemma EndElements(rest: seq<byte>, first: seq<byte>, depth: nat, items: seq<Json>)
    requires ElementsLeft(rest, first, depth, false, items)
    ensures rest != [] && Terminated(first)
    ensures Spec.ParseElements(first, depth, []) ==
      if rest[0] == CLOSE_BRACKET then Ok(items, rest[1..]) else Fail(rest)
  {
    hide Spec.ParseElements;
  }

  /** What the loop still has to read, and what that makes of the whole. */
  ghost predicate MembersLeft(rest: seq<byte>, first: seq<byte>, depth: nat, more: bool, members: seq<Member>) {
    && Terminated(first) && Terminated(rest)
    && var all := Spec.ParseMembers(first, depth, []);
    && (more ==> |rest| > 1 && Spec.ParseMembers(rest[1..], depth, members) == all)
    && (!more ==> all == if rest[0] == CLOSE_BRACE then Ok(members, rest[1..]) else Fail(rest))
  }

  lemma StartMembers(rest: seq<byte>, depth: nat)
    requires Terminated(rest) && |rest| > 1
    ensures MembersLeft(rest, rest[1..], depth, true, [])
  {
    hide Spec.ParseMembers;
  }

  lemma NextMembers(rest: seq<byte>, first: seq<byte>, depth: nat, members: seq<Member>)
    requires MembersLeft(rest, first, depth, true, members)
    ensures |rest| > 1 && Terminated(rest[1..]) && Terminated(first)
    ensures var r := Spec.ParseMember(rest[1..], depth);
      && (r.Fail? ==> Spec.ParseMembers(first, depth, []) == Fail(r.rest))
      && (r.Ok? ==>
            && var next := Spec.SkipSpaces(r.rest);
            next != [] && MembersLeft(next, first, depth, next[0] == COMMA, members + [r.value]))
  {
    hide Spec.ParseValue, Spec.ParseMember, Spec.SkipSpaces, Spec.ParseMembers;
    TailTerminated(rest, 1);
    Spec.MembersStep(rest[1..], depth, members);
  }

  lemma EndMembers(rest: seq<byte>, first: seq<byte>, depth: nat, members: seq<Member>)
    requires MembersLeft(rest, first, depth, false, members)
    ensures rest != [] && Terminated(first)
    ensures Spec.ParseMembers(first, depth, []) == if rest[0] == CLOSE_BRACE then Ok(members, rest[1..]) else Fail(rest)
  {
    hide Spec.ParseMembers;
  }

  /** What ParseMember reads in front of the value: the name, and the rest from the value on. */
  function NameAt(s: seq<byte>): (r: Parse<seq<byte>>)
    requires Terminated(s)
    ensures r.Ok? ==> Terminated(r.rest) && |r.rest| < |s|
  {
    match StringSpec.ParseString(Spec.SkipSpaces(s))
    case Fail(rest) => Fail(rest)
    case Ok(key, afterKey) =>
      var colon := Spec.SkipSpaces(afterKey);
      if colon[0] != COLON then Fail(colon) else Ok(key, Spec.SkipSpaces(colon[1..]))
  }

  /** The ways it can go. */
  lemma NameCases(s: seq<byte>)
    requires Terminated(s)
    ensures var key := StringSpec.ParseString(Spec.SkipSpaces(s));
      && (key.Fail? ==> NameAt(s) == Fail(key.rest))
      && (key.Ok? ==>
            && var colon := Spec.SkipSpaces(key.rest);
            && colon != []
            && NameAt(s) == if colon[0] != COLON then Fail(colon) else Ok(key.value, Spec.SkipSpaces(colon[1..])))
  {
    hide Spec.SkipSpaces, StringSpec.ParseString;
  }

  lemma MemberAt(s: seq<byte>, depth: nat)
    requires Terminated(s)
    ensures var name := NameAt(s);
      && (name.Fail? ==> Spec.ParseMember(s, depth) == Fail(name.rest))
      && (name.Ok? ==>
            && var r := Spec.ParseValue(name.rest, depth);
            && Spec.ParseMember(s, depth) == if r.Ok? then Ok(Member(name.value, r.value), r.rest) else Fail(r.rest))
  {
    hide Spec.ParseValue, Spec.SkipSpaces, StringSpec.ParseString;
  }

  /** The label "success": the list is closed and handed to the item. */
  method Finish(item: Node, kind: nat, head: Node?, current: Node?, ghost done: seq<Node>, ghost below: set<Node>,
                ghost j: Json)
    requires Blank(item) && item !in below && (j.Array? || j.Object?) && kind == TreeOf(j, item.name).kind
    requires PartList(head, current, done, TreeOf(j, item.name).children, below)
    modifies item`kind, item`child, item`kids, item`below, Opt(head)`prev
    ensures Stands(item, TreeOf(j, item.name)) && item.below == below
  {
    hide Stands, Copies, HalfLinked;
    ghost var t := TreeOf(j, item.name);
    item.kind := kind;
    item.child := head;
    Close(item, current, done, below, t);
  }

  /** A C string stored up to a NUL is the C string of what precedes it. */
  lemma {:induction false} CStringUpTo(s: seq<byte>, n: nat)
    requires n < |s| && s[n] == NUL
    ensures CString(s) == CString(s[..n])
  {
    if n > 0 && s[0] != NUL {
      CStringUpTo(s[1..], n - 1);
      assert s[..n][1..] == s[1..][..n - 1];
    }
  }

  lemma TextIsBuffer(text: seq<byte>, requireNullTerminated: bool)
    ensures Terminated(text + [NUL])
    ensures Spec.ParseText(text, requireNullTerminated) == Spec.ParseBufferText(text + [NUL], requireNullTerminated)
  {
    hide Spec.ParseBufferText;
  }

  lemma NumberCases(s: seq<byte>)
    ensures var number := NumberSpec.Strtod(NumberSpec.NumberChars(s, NumberSpec.NUMBER_ROOM));
      NumberSpec.ParseNumber(s) == if number.used == 0 then Fail(s)
                                   else Ok(Number(number.value, NumberSpec.Saturate(number.value)), s[number.used..])
  {
    hide NumberSpec.Strtod, NumberSpec.Saturate, NumberSpec.NumberChars;
  }

  /** The parse of a whole buffer, and the position it leaves. */
  method ParseAll(buffer: ParseBuffer, item: Node, requireNullTerminated: bool)
    returns (ok: bool, position: nat, ghost value: Json)
    requires buffer.Valid() && buffer.offset == 0 && buffer.depth == 0 && Blank(item)
    modifies buffer, item`kind, item`valuestring, item`valueint, item`valuedouble, item`child, item`kids, item`below
    ensures ok ==> Stands(item, TreeOf(value, item.name)) && fresh(item.below)
    ensures position < |buffer.content|
    ensures var all := buffer.content; var r := Spec.ParseBufferText(all, requireNullTerminated);
      && ok == r.Ok? && (ok ==> r == Ok(value, all[position..]))
      && (!ok ==> position == if r.rest == [] then |all| - 1 else |all| - |r.rest|)
  {
    hide Spec.ParseBufferText, Stands, TreeOf, Blank, ParseBuffer.Rest;
    buffer.AtCursor();
    assert buffer.content[0..] == buffer.content;
    ok, value := buffer.ParseWhole(item, requireNullTerminated);
    buffer.AtCursor();
    position := if buffer.offset < |buffer.content| then buffer.offset else |buffer.content| - 1;
  }

  /** cJSON_ParseWithOpts on a C string: a new item that reads as the value parsed, and where parsing
      stopped; or none, and the position kept for cJSON_GetErrorPtr, which always lies inside the buffer. */
  method ParseWithOpts(text: seq<byte>, requireNullTerminated: bool)
    returns (item: Node?, position: nat, ghost value: Json)
    requires NulFree(text)
    ensures position <= |text|
    ensures item != null <==> Spec.ParseText(text, requireNullTerminated).Ok?
    ensures item != null ==> Spec.ParseText(text, requireNullTerminated) == Ok(value, (text + [NUL])[position..])
    ensures item != null ==> Stands(item, TreeOf(value, None)) && fresh(Nodes(item)) && item.next == item.prev == null
    ensures item == null ==>
      var rest := Spec.ParseText(text, requireNullTerminated).rest;
      position == if rest == [] then |text| else |text| + 1 - |rest|
  {
    hide Spec.ParseBufferText, Spec.ParseText, Stands, TreeOf, Blank, Terminated, NulFree, ParseBuffer.Rest;
    TextIsBuffer(text, requireNullTerminated);
    var buffer := new ParseBuffer(text + [NUL]);
    item := NewItem();
    var ok;
    ok, position, value := ParseAll(buffer, item, requireNullTerminated);
    if !ok { item := null; }
  }

  /** The ways the array function can go, one by one. */
  lemma ArrayCases(s: seq<byte>, depth: nat)
    requires Terminated(s) && s[0] == OPEN_BRACKET
    ensures depth >= NESTING_LIMIT ==> Spec.ParseArray(s, depth) == Fail(s)
    ensures depth < NESTING_LIMIT ==>
      && |s| > 1
      && var first := Spec.SkipSpaces(s[1..]);
      && first != []
      && (first[0] == CLOSE_BRACKET ==> Spec.ParseArray(s, depth) == Ok(Array([]), first[1..]))
      && (first[0] != CLOSE_BRACKET ==>
            && var inner := Spec.ParseElements(first, depth + 1, []);
            && Spec.ParseArray(s, depth) == if inner.Ok? then Ok(Array(inner.value), inner.rest) else Fail(inner.rest))
  {
    hide Spec.ParseElements, Spec.SkipSpaces;
  }

  /** The ways the object function can go, one by one. */
  lemma ObjectCases(s: seq<byte>, depth: nat)
    requires Terminated(s) && s[0] == OPEN_BRACE
    ensures depth >= NESTING_LIMIT ==> Spec.ParseObject(s, depth) == Fail(s)
    ensures depth < NESTING_LIMIT ==>
      && |s| > 1
      && var first := Spec.SkipSpaces(s[1..]);
      && first != []
      && (first[0] == CLOSE_BRACE ==> Spec.ParseObject(s, depth) == Ok(Object([]), first[1..]))
      && (first[0] != CLOSE_BRACE ==>
            && var inner := Spec.ParseMembers(first, depth + 1, []);
            && Spec.ParseObject(s, depth) ==
               if inner.Ok? then Ok(Object(inner.value), inner.rest) else Fail(inner.rest))
  {
    hide Spec.ParseMembers, Spec.SkipSpaces;
  }
}
