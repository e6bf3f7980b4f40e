/** The printer as the code runs it: a buffer that grows (or may not), written in place. Every method
    is proved to append exactly the text PrinterSpec gives, and to succeed exactly when two bytes more
    than that text fit in what the buffer may become. */
module Printer {
  import opened Bytes
  import opened Json
  import opened Sequences
  import opened PrinterSpec
  import opened ChildList
  import opened CompareSpec
  import opened Items
  import opened JsonTree
  import NumberSpec
  import StringSpec

  class PrintBuffer {
    var buffer: array<byte>
    var offset: nat
    var depth: nat
    const noalloc: bool
    const format: bool
    /** whether the hooks have a realloc */
    const hasReallocate: bool

    constructor (buffer: array<byte>, noalloc: bool, format: bool, hasReallocate: bool)
      requires buffer.Length <= INT_MAX && (buffer.Length == 0 ==> noalloc)
      ensures Valid() && this.buffer == buffer && offset == 0 && depth == 0
      ensures this.noalloc == noalloc && this.format == format
    {
      this.buffer := buffer;
      offset, depth := 0, 0;
      this.noalloc, this.format, this.hasReallocate := noalloc, format, hasReallocate;
    }

    /** `offset` stays inside the buffer between writes. */
    ghost predicate Valid()
      reads this
    {
      buffer.Length <= INT_MAX && if buffer.Length == 0 then noalloc && offset == 0 else offset < buffer.Length
    }

    /** The size the buffer can reach. */
    ghost function Limit(): nat
      reads this
    {
      if noalloc then buffer.Length else INT_MAX
    }

    ghost function Done(): seq<byte>
      requires offset <= buffer.Length
      reads this, buffer
    {
      buffer[..offset]
    }

    /** ensure(): room for `needed` bytes and one more behind `offset`. What was written stays. */
    method Ensure(needed: nat) returns (ok: bool)
      requires Valid()
      modifies this`buffer
      ensures Valid() && (buffer == old(buffer) || fresh(buffer)) && (noalloc ==> buffer == old(buffer))
      ensures ok <==> offset + needed + 1 <= old(Limit())
      ensures ok ==> offset + needed + 1 <= buffer.Length
      ensures var total := offset + needed + 1;
        ok ==> buffer.Length == if total <= old(buffer.Length) then old(buffer.Length)
                                else if total > INT_MAX / 2 then INT_MAX else 2 * total
      ensures Done() == old(Done())
    {
      if buffer.Length > 0 && offset >= buffer.Length {
        return false;
      }
      if needed > INT_MAX {
        return false;
      }
      var total := needed + offset + 1;
      if total <= buffer.Length {
        return true;
      }
      if noalloc {
        return false;
      }
      var newsize;
      if total > INT_MAX / 2 {
        if total <= INT_MAX {
          newsize := INT_MAX;
        } else {
          return false;
        }
      } else {
        newsize := total * 2;
      }
      var newbuffer := new byte[newsize];
      var kept := if hasReallocate then buffer.Length else offset + 1;
      forall i | 0 <= i < kept {
        newbuffer[i] := buffer[i];
      }
      buffer := newbuffer;
      return true;
    }

    /** Stores `chunk` from `at` on: a run of `*output_pointer++ = c`. */
    method Write(at: nat, chunk: seq<byte>)
      requires at + |chunk| <= buffer.Length
      modifies buffer
      ensures buffer[..at + |chunk|] == old(buffer[..at]) + chunk
    {
      for i := 0 to |chunk|
        invariant buffer[..at + i] == old(buffer[..at]) + chunk[..i]
      {
        buffer[at + i] := chunk[i];
      }
    }

    /** update_offset(): moves to the first NUL behind `offset`. */
    method UpdateOffset(ghost end: nat)
      requires Valid() && offset <= end < buffer.Length && buffer[end] == NUL
      requires forall k :: offset <= k < end ==> buffer[k] != NUL
      modifies this`offset
      ensures offset == end && Valid()
    {
      while buffer[offset] != NUL
        invariant old(offset) <= offset <= end
        decreases end - offset
      {
        offset := offset + 1;
      }
    }

    /** A chunk that is followed by more: reserve, write, advance. */
    method Emit(chunk: seq<byte>, needed: nat) returns (ok: bool)
      requires Valid() && |chunk| <= needed
      modifies this`buffer, this`offset, buffer
      ensures Valid() && (buffer == old(buffer) || fresh(buffer)) && (noalloc ==> buffer == old(buffer))
      ensures ok <==> old(offset) + needed + 1 <= old(Limit())
      ensures ok ==> Done() == old(Done()) + chunk && offset == old(offset) + |chunk|
    {
      ok := Ensure(needed);
      if ok {
        Write(offset, chunk);
        offset := offset + |chunk|;
      }
    }

    /** A NUL stands at the cursor. */
    ghost predicate Ended()
      reads this, buffer
    {
      offset < buffer.Length && buffer[offset] == NUL
    }

    /** A separator or a line end: reserve, write with its NUL, advance to the NUL. */
    method EmitEnded(chunk: seq<byte>) returns (ok: bool)
      requires Valid()
      modifies this`buffer, this`offset, buffer
      ensures Valid() && (buffer == old(buffer) || fresh(buffer)) && (noalloc ==> buffer == old(buffer))
      ensures ok <==> old(offset) + |chunk| + 2 <= old(Limit())
      ensures ok ==> Done() == old(Done()) + chunk && offset == old(offset) + |chunk| && Ended()
    {
      ok := Ensure(|chunk| + 1);
      if ok {
        ghost var all := Done() + chunk;
        Write(offset, chunk + [NUL]);
        offset := offset + |chunk|;
        assert buffer[..offset + 1] == all + [NUL];
        assert buffer[..offset] == buffer[..offset + 1][..offset];
      }
    }

    /** The text of a whole value stands behind what was there before, with its NUL. The cursor may
        still be anywhere inside it. */
    ghost predicate Holds(before: seq<byte>, text: seq<byte>)
      reads this, buffer
    {
      && Valid()
      && |before| <= offset <= |before| + |text| < buffer.Length
      && buffer[..|before| + |text|] == before + text
      && buffer[|before| + |text|] == NUL
    }

    /** A chunk that ends a value: reserve, write with its NUL, leave the cursor. */
    method EmitLast(ghost before: seq<byte>, ghost text: seq<byte>, chunk: seq<byte>) returns (ok: bool)
      requires Valid() && Done() + chunk == before + text && |before| <= offset
      modifies this`buffer, buffer
      ensures Valid() && (buffer == old(buffer) || fresh(buffer)) && (noalloc ==> buffer == old(buffer))
      ensures ok <==> |before| + |text| + 2 <= old(Limit())
      ensures ok ==> Holds(before, text)
    {
      assert offset + |chunk| == |before| + |text|;
      ok := Ensure(|chunk| + 1);
      if ok {
        Write(offset, chunk + [NUL]);
        assert buffer[..offset + |chunk| + 1] == (before + text) + [NUL];
        assert buffer[..|before| + |text|] == buffer[..offset + |chunk| + 1][..|before| + |text|];
      }
    }

    /** Moves the cursor behind a value just printed. */
    method Settle(ghost before: seq<byte>, ghost text: seq<byte>)
      requires Holds(before, text) && NulFree(text)
      modifies this`offset
      ensures Valid() && Done() == before + text && offset == |before| + |text| && Ended()
    {
      ghost var end := |before| + |text|;
      forall k | offset <= k < end ensures buffer[k] != NUL {
        assert buffer[k] == buffer[..end][k] == text[k - |before|];
      }
      UpdateOffset(end);
    }

    /** The copy of what was printed and of its NUL. */
    method CopyOut() returns (printed: array<byte>)
      requires offset < buffer.Length
      ensures fresh(printed) && printed[..] == buffer[..offset + 1]
    {
      printed := new byte[offset + 1];
      forall i | 0 <= i < offset + 1 {
        printed[i] := buffer[i];
      }
    }

    // -------------------------------------------------------------- scalars

    /** print_string_ptr() on a string that is there: the counting loop fixes the reservation, the second
        loop fills it exactly. */
    method PrintCString(input: seq<byte>) returns (ok: bool)
      requires Valid() && NulFree(input)
      modifies this`buffer, buffer
      ensures Valid() && (buffer == old(buffer) || fresh(buffer)) && (noalloc ==> buffer == old(buffer))
      ensures ok <==> old(offset) + |StringSpec.Quoted(input)| + 2 <= old(Limit())
      ensures ok ==> Holds(old(Done()), StringSpec.Quoted(input))
    {
      hide StringSpec.Escape, StringSpec.Quoted, Holds;
      var escapeCharacters := CountEscapes(input);
      var outputLength := |input| + escapeCharacters;
      QuotedLength(input);
      ok := Ensure(outputLength + 3);
      if ok {
        FillQuoted(input, escapeCharacters);
      }
    }

    /** The opening quote, the escaped text, the closing quote and the NUL. */
    method FillQuoted(input: seq<byte>, escapeCharacters: nat)
      requires Valid() && NulFree(input) && |input| + escapeCharacters == |StringSpec.Escape(input)|
      requires offset + |StringSpec.Escape(input)| + 3 <= buffer.Length
      modifies buffer
      ensures Valid() && Holds(old(Done()), StringSpec.Quoted(input))
    {
      hide StringSpec.Escape;
      ghost var before, escaped := Done(), StringSpec.Escape(input);
      FillInside(input, escapeCharacters);
      var last := offset + |input| + escapeCharacters + 1;
      Write(last, [QUOTE, NUL]);
      QuotedPieces(before, escaped);
      assert buffer[..last + 2][..last + 1] == buffer[..last + 1];
    }

    /** Without anything to escape the text is copied as it is. */
    method FillInside(input: seq<byte>, escapeCharacters: nat)
      requires Valid() && |input| + escapeCharacters == |StringSpec.Escape(input)|
      requires offset + |StringSpec.Escape(input)| + 3 <= buffer.Length
      modifies buffer
      ensures Valid()
      ensures buffer[..offset + |input| + escapeCharacters + 1] == old(Done()) + ([QUOTE] + StringSpec.Escape(input))
    {
      hide StringSpec.Escape;
      ghost var before := Done();
      if escapeCharacters == 0 {
        StringSpec.NoEscapes(input);
        Write(offset, [QUOTE] + input);
      } else {
        Write(offset, [QUOTE]);
        var end := WriteEscaped(offset + 1, input);
        Assoc3(before, [QUOTE], StringSpec.Escape(input));
      }
    }

    /** print_string_ptr(): a missing string prints as an empty one. */
    method PrintStringPtr(input: Option<seq<byte>>) returns (ok: bool)
      requires Valid() && NulFree(Shown(input))
      modifies this`buffer, buffer
      ensures Valid() && (buffer == old(buffer) || fresh(buffer)) && (noalloc ==> buffer == old(buffer))
      ensures ok <==> old(offset) + |StringSpec.Quoted(Shown(input))| + 2 <= old(Limit())
      ensures ok ==> Holds(old(Done()), StringSpec.Quoted(Shown(input)))
    {
      hide StringSpec.Quoted, Holds;
      if input == None {
        EmptyQuoted();
        ok := EmitLast(Done(), [QUOTE, QUOTE], [QUOTE, QUOTE]);
      } else {
        ok := PrintCString(input.value);
      }
    }

    /** The first loop: one extra byte for a letter escape, five for a code point escape. */
    method CountEscapes(input: seq<byte>) returns (escapeCharacters: nat)
      ensures |input| + escapeCharacters == |StringSpec.Escape(input)|
    {
      escapeCharacters := 0;
      for i := 0 to |input|
        invariant i + escapeCharacters == |StringSpec.Escape(input[..i])|
      {
        StringSpec.EscapeGrows(input, i);
        if StringSpec.EscapeLetter(input[i]) >= 0 {
          escapeCharacters := escapeCharacters + 1;
        } else if input[i] < 32 {
          escapeCharacters := escapeCharacters + 5;
        }
      }
      assert input[..|input|] == input;
    }

    /** The second loop. sprintf leaves a NUL behind each code point escape, which the next write covers. */
    method WriteEscaped(at: nat, input: seq<byte>) returns (end: nat)
      requires at + |StringSpec.Escape(input)| + 1 <= buffer.Length
      modifies buffer
      ensures end == at + |StringSpec.Escape(input)|
      ensures buffer[..end] == old(buffer[..at]) + StringSpec.Escape(input)
    {
      hide StringSpec.Escape, StringSpec.HexLower;
      end := at;
      StringSpec.EscapeEmpty();
      assert input[..0] == [];
      for i := 0 to |input|
        invariant end == at + |StringSpec.Escape(input[..i])| <= at + |StringSpec.Escape(input)|
        invariant buffer[..end] == old(buffer[..at]) + StringSpec.Escape(input[..i])
      {
        StringSpec.EscapeGrows(input, i);
        StringSpec.EscapeMonotone(input, i + 1);
        Assoc3(old(buffer[..at]), StringSpec.Escape(input[..i]), StringSpec.EscapeByte(input[i]));
        var b := input[i];
        if b > 31 && b != QUOTE && b != BACKSLASH {
          Write(end, [b]);
          end := end + 1;
        } else if StringSpec.EscapeLetter(b) >= 0 {
          Write(end, [BACKSLASH, StringSpec.EscapeLetter(b)]);
          end := end + 2;
        } else {
          Write(end, StringSpec.EscapeByte(b) + [NUL]);
          assert buffer[..end + 6] == buffer[..end + 7][..end + 6];
          end := end + 6;
        }
      }
      assert input[..|input|] == input;
    }

    method PrintNumber(n: int) returns (ok: bool)
      requires Valid()
      modifies this`buffer, this`offset, buffer
      ensures Valid() && (buffer == old(buffer) || fresh(buffer)) && (noalloc ==> buffer == old(buffer))
      ensures ok <==> old(offset) + |NumberSpec.IntText(n)| + 2 <= old(Limit())
      ensures ok ==> Holds(old(Done()), NumberSpec.IntText(n))
    {
      var numberBuffer := NumberSpec.IntText(n);
      ok := EmitLast(Done(), numberBuffer, numberBuffer);
      if ok {
        offset := offset + |numberBuffer|;
      }
    }

    // -------------------------------------------------------------- values

    method PrintValue(item: Node, ghost t: Tree, ghost j: Json) returns (ok: bool)
      requires Valid() && WellFormed(j) && Stands(item, t) && Shows(t, j)
      modifies this`buffer, this`offset, this`depth, buffer
      ensures Valid() && (buffer == old(buffer) || fresh(buffer)) && (noalloc ==> buffer == old(buffer))
      ensures ok <==> old(offset) + |Text(j, format, old(depth))| + 2 <= old(Limit())
      ensures ok ==> Holds(old(Done()), Text(j, format, old(depth))) && depth == old(depth)
      decreases j, 2
    {
      hide Stands;
      Fields(item, t);
      if item.kind == KIND_NULL {
        ok := EmitLast(Done(), NULL_TEXT, NULL_TEXT);
      } else if item.kind == KIND_FALSE {
        ok := EmitLast(Done(), FALSE_TEXT, FALSE_TEXT);
      } else if item.kind == KIND_TRUE {
        ok := EmitLast(Done(), TRUE_TEXT, TRUE_TEXT);
      } else if item.kind == KIND_NUMBER {
        ok := PrintNumber(item.valueint);
      } else if item.kind == KIND_STRING {
        ok := PrintStringPtr(item.valuestring);
      } else if item.kind == KIND_ARRAY {
        ok := PrintArray(item, t, j.items);
      } else {
        ok := PrintObject(item, t, j.members);
      }
    }

    method PrintArray(item: Node, ghost t: Tree, ghost items: seq<Json>) returns (ok: bool)
      requires Valid() && AllWellFormed(items) && Stands(item, t) && Shows(t, Array(items))
      modifies this`buffer, this`offset, this`depth, buffer
      ensures Valid() && (buffer == old(buffer) || fresh(buffer)) && (noalloc ==> buffer == old(buffer))
      ensures ok <==> old(offset) + |Text(Array(items), format, old(depth))| + 2 <= old(Limit())
      ensures ok ==> Holds(old(Done()), Text(Array(items), format, old(depth))) && depth == old(depth)
      decreases items, 1
    {
      hide ItemsText, AllWellFormed, Stands, Shows, Text;
      ghost var before, text, level := Done(), Text(Array(items), format, depth), depth;
      ArrayPieces(before, items, format, level);
      ok := Emit([OPEN_BRACKET], 1);
      if !ok {
        return;
      }
      depth := depth + 1;
      ok := PrintItems(item, t, items);
      if !ok {
        return;
      }
      ok := EmitLast(before, text, [CLOSE_BRACKET]);
      depth := depth - 1;
    }

    /** One round: the element, and a separator if there is a next one. */
    method PrintItem(current: Node, ghost t: Tree, ghost j: Json) returns (ok: bool)
      requires Valid() && WellFormed(j) && Stands(current, t) && Shows(t, j)
      modifies this`buffer, this`offset, this`depth, buffer
      ensures Valid() && (buffer == old(buffer) || fresh(buffer)) && (noalloc ==> buffer == old(buffer))
      ensures var separator := if current.next != null then Separator(format) else [];
        && (ok ==> Done() == (old(Done()) + Text(j, format, old(depth))) + separator && depth == old(depth) && Ended())
        && (!ok ==> old(offset) + |Text(j, format, old(depth))| + |separator| + 2 > old(Limit()))
      decreases j, 3
    {
      hide Text, WellFormed, NulFree, Stands, Shows;
      ghost var here, text := Done(), Text(j, format, depth);
      ok := PrintValue(current, t, j);
      if !ok {
        return;
      }
      TextNulFree(j, format, depth);
      Settle(here, text);
      assert (here + text) + [] == here + text;
      if current.next != null {
        ok := EmitEnded(if format then [COMMA, SPACE] else [COMMA]);
      }
    }

    /** The loop over the elements. */
    method PrintItems(item: Node, ghost t: Tree, ghost items: seq<Json>) returns (ok: bool)
      requires Valid() && AllWellFormed(items) && Stands(item, t) && Shows(t, Array(items))
      modifies this`buffer, this`offset, this`depth, buffer
      ensures Valid() && (buffer == old(buffer) || fresh(buffer)) && (noalloc ==> buffer == old(buffer))
      ensures ok ==> Done() == old(Done()) + ItemsText(items, format, old(depth)) && depth == old(depth)
      ensures !ok ==> old(offset) + |ItemsText(items, format, old(depth))| + 2 > old(Limit())
      decreases items, 0
    {
      hide Text, ItemsText, AllWellFormed, WellFormed, NulFree, Stands;
      ghost var before, limit, i := Done(), Limit(), 0;
      NoItems(format, depth);
      FirstKid(item, t);
      var current := item.child;
      while current != null
        invariant i <= |items| == |item.kids| && current == ChildList.At(item.kids, i)
        invariant Valid() && (buffer == old(buffer) || fresh(buffer)) && (noalloc ==> buffer == old(buffer))
        invariant depth == old(depth) && AllWellFormed(items[i..]) && Limit() == limit
        invariant |before| + |ItemsText(items, format, depth)| == offset + |ItemsText(items[i..], format, depth)|
        invariant Done() + ItemsText(items[i..], format, depth) == before + ItemsText(items, format, depth)
        decreases |items| - i
      {
        Kid(item, t, i);
        ItemsSplit(items, i, format, depth, Done());
        ok := PrintItem(current, t.children[i], items[i]);
        if !ok {
          return;
        }
        current := current.next;
        i := i + 1;
      }
      ok := true;
      assert items[|items|..] == [] && Done() + [] == Done();
    }

    method PrintObject(item: Node, ghost t: Tree, ghost members: seq<Member>) returns (ok: bool)
      requires Valid() && AllMembersWellFormed(members) && Stands(item, t) && Shows(t, Object(members))
      modifies this`buffer, this`offset, this`depth, buffer
      ensures Valid() && (buffer == old(buffer) || fresh(buffer)) && (noalloc ==> buffer == old(buffer))
      ensures ok <==> old(offset) + |Text(Object(members), format, old(depth))| + 2 <= old(Limit())
      ensures ok ==> Holds(old(Done()), Text(Object(members), format, old(depth))) && depth == old(depth)
      decreases members, 1
    {
      hide MembersText, AllMembersWellFormed, Text, Stands, Shows;
      ghost var before, text, level := Done(), Text(Object(members), format, depth), depth;
      ObjectPieces(before, members, format, level);
      ok := Emit(if format then [OPEN_BRACE, NEWLINE] else [OPEN_BRACE], if format then 3 else 2);
      if !ok {
        return;
      }
      depth := depth + 1;
      ok := PrintMembers(item, t, members);
      if !ok {
        return;
      }
      ok := EmitLast(before, text, (if format then Tabs(depth - 1) else []) + [CLOSE_BRACE]);
      depth := depth - 1;
    }

    /** The loop over the members. */
    method PrintMembers(item: Node, ghost t: Tree, ghost members: seq<Member>) returns (ok: bool)
      requires Valid() && AllMembersWellFormed(members) && Stands(item, t) && Shows(t, Object(members))
      modifies this`buffer, this`offset, this`depth, buffer
      ensures Valid() && (buffer == old(buffer) || fresh(buffer)) && (noalloc ==> buffer == old(buffer))
      ensures ok ==> Done() == old(Done()) + MembersText(members, format, old(depth)) && depth == old(depth)
      ensures !ok ==> old(offset) + |MembersText(members, format, old(depth))| + 2 > old(Limit())
      decreases members, 0
    {
      hide MemberText, MembersText, AllMembersWellFormed, WellFormed, NulFree, LineEnd, Stands, ShowsMember;
      ghost var before, limit, i := Done(), Limit(), 0;
      NoMembersText(format, depth);
      FirstKid(item, t);
      var current := item.child;
      while current != null
        invariant i <= |members| == |item.kids| && current == ChildList.At(item.kids, i)
        invariant Valid() && (buffer == old(buffer) || fresh(buffer)) && (noalloc ==> buffer == old(buffer))
        invariant depth == old(depth) && AllMembersWellFormed(members[i..]) && Limit() == limit
        invariant |before| + |MembersText(members, format, depth)| ==
          offset + |MembersText(members[i..], format, depth)|
        invariant Done() + MembersText(members[i..], format, depth) == before + MembersText(members, format, depth)
        decreases |members| - i
      {
        Kid(item, t, i);
        MembersSplit(members, i, format, depth, Done());
        ok := PrintMember(current, t.children[i], members[i]);
        if !ok {
          return;
        }
        current := current.next;
        i := i + 1;
      }
      ok := true;
      assert members[|members|..] == [] && Done() + [] == Done();
    }

    /** One round: indentation, name, colon, value, comma and line end. */
    method PrintMember(current: Node, ghost t: Tree, ghost m: Member) returns (ok: bool)
      requires Valid() && NulFree(m.key) && WellFormed(m.value) && Stands(current, t) && ShowsMember(t, m)
      modifies this`buffer, this`offset, this`depth, buffer
      ensures Valid() && (buffer == old(buffer) || fresh(buffer)) && (noalloc ==> buffer == old(buffer))
      ensures var line := MemberText(m, format, old(depth)) + LineEnd(format, current.next == null);
        && (ok <==> old(offset) + |line| + 2 <= old(Limit()))
        && (ok ==> Done() == old(Done()) + line && depth == old(depth) && Ended())
      decreases m, 4
    {
      hide MemberText, WellFormed, LineEnd, Stands, ShowsMember, NulFree;
      ghost var before, text := Done(), MemberText(m, format, depth);
      ok := PrintNameAndValue(current, t, m);
      if !ok {
        return;
      }
      var last := current.next == null;
      LineEndIs(format, last);
      ok := EmitEnded((if !last then [COMMA] else []) + (if format then [NEWLINE] else []));
      Assoc3(before, text, LineEnd(format, last));
    }

    /** All of it but the line end. */
    method PrintNameAndValue(current: Node, ghost t: Tree, ghost m: Member) returns (ok: bool)
      requires Valid() && NulFree(m.key) && WellFormed(m.value) && Stands(current, t) && ShowsMember(t, m)
      modifies this`buffer, this`offset, this`depth, buffer
      ensures Valid() && (buffer == old(buffer) || fresh(buffer)) && (noalloc ==> buffer == old(buffer))
      ensures ok ==> Done() == old(Done()) + MemberText(m, format, old(depth)) && depth == old(depth)
      ensures !ok ==> old(offset) + |MemberText(m, format, old(depth))| + 2 > old(Limit())
      decreases m, 3
    {
      hide Text, WellFormed, NameText, Stands, Shows;
      ghost var before := Done();
      ghost var name, value := NameText(m.key, format, depth), Text(m.value, format, depth);
      SameNames(current, t);
      ok := PrintName(current.name);
      if !ok {
        return;
      }
      ghost var here := Done();
      ok := PrintValue(current, t, m.value);
      if !ok {
        return;
      }
      TextNulFree(m.value, format, depth);
      Settle(here, value);
      Assoc3(before, name, value);
    }

    /** The indentation, the name and its colon. */
    method PrintName(name: Option<seq<byte>>) returns (ok: bool)
      requires Valid() && NulFree(Shown(name))
      modifies this`buffer, this`offset, buffer
      ensures Valid() && (buffer == old(buffer) || fresh(buffer)) && (noalloc ==> buffer == old(buffer))
      ensures ok ==> Done() == old(Done()) + NameText(Shown(name), format, depth)
      ensures !ok ==> old(offset) + |NameText(Shown(name), format, depth)| + 2 > old(Limit())
    {
      hide StringSpec.Quoted, Tabs, Colon;
      ghost var key := Shown(name);
      ghost var before, indent := Done(), if format then Tabs(depth) else [];
      if format {
        ok := Emit(Tabs(depth), depth);
        if !ok {
          return;
        }
      }
      assert Done() == before + indent;
      ghost var here := Done();
      ok := PrintStringPtr(name);
      if !ok {
        return;
      }
      StringSpec.QuotedNulFree(key);
      Settle(here, StringSpec.Quoted(key));
      ColonIs(format);
      ok := Emit(if format then [COLON, TAB] else [COLON], if format then 2 else 1);
      LinePieces(before, indent, StringSpec.Quoted(key), Colon(format));
    }
  }

  /** A missing string is printed as two quotes. */
  lemma EmptyQuoted()
    ensures StringSpec.Quoted(Shown(None)) == StringSpec.Quoted([]) == [34, 34]
  {
  }

  lemma QuotedLength(s: seq<byte>)
    ensures |StringSpec.Quoted(s)| == |StringSpec.Escape(s)| + 2
  {
  }

  lemma ColonIs(format: bool)
    ensures Colon(format) == if format then [COLON, TAB] else [COLON]
  {
  }

  lemma LineEndIs(format: bool, last: bool)
    ensures LineEnd(format, last) == (if !last then [COMMA] else []) + (if format then [NEWLINE] else [])
  {
  }

  lemma LinePieces(before: seq<byte>, a: seq<byte>, b: seq<byte>, c: seq<byte>)
    ensures ((before + a) + b) + c == before + (a + b + c)
  {
  }

  lemma NoMembersText(format: bool, depth: nat)
    ensures MembersText([], format, depth) == []
  {
  }

  lemma ObjectPieces(before: seq<byte>, members: seq<Member>, format: bool, depth: nat)
    ensures (before + OpenObject(format) + MembersText(members, format, depth + 1)) + CloseObject(format, depth)
         == before + Text(Object(members), format, depth)
    ensures |Text(Object(members), format, depth)|
         == |OpenObject(format)| + |MembersText(members, format, depth + 1)| + |CloseObject(format, depth)|
  {
    hide MembersText, CloseObject;
  }

  /** Taking the i-th member off the text still to come. */
  lemma MembersSplit(members: seq<Member>, i: nat, format: bool, depth: nat, here: seq<byte>)
    requires i < |members| && AllMembersWellFormed(members[i..])
    ensures NulFree(members[i].key) && WellFormed(members[i].value) && AllMembersWellFormed(members[i + 1..])
    ensures var line := MemberText(members[i], format, depth) + LineEnd(format, i + 1 == |members|);
      && here + MembersText(members[i..], format, depth) == (here + line) + MembersText(members[i + 1..], format, depth)
      && |MembersText(members[i..], format, depth)| == |line| + |MembersText(members[i + 1..], format, depth)|
  {
    hide MemberText;
    assert members[i..][0] == members[i] && members[i..][1..] == members[i + 1..];
  }

  lemma NoItems(format: bool, depth: nat)
    ensures ItemsText([], format, depth) == []
  {
  }

  lemma ArrayPieces(before: seq<byte>, items: seq<Json>, format: bool, depth: nat)
    ensures (before + [OPEN_BRACKET] + ItemsText(items, format, depth + 1)) + [CLOSE_BRACKET]
         == before + Text(Array(items), format, depth)
    ensures |Text(Array(items), format, depth)| == |ItemsText(items, format, depth + 1)| + 2
  {
    hide ItemsText;
  }

  /** Taking the i-th item off the text still to come. */
  lemma ItemsSplit(items: seq<Json>, i: nat, format: bool, depth: nat, here: seq<byte>)
    requires i < |items| && AllWellFormed(items[i..])
    ensures WellFormed(items[i]) && AllWellFormed(items[i + 1..])
    ensures var text := Text(items[i], format, depth);
      var separator := if i + 1 < |items| then Separator(format) else [];
      && here + ItemsText(items[i..], format, depth) ==
         ((here + text) + separator) + ItemsText(items[i + 1..], format, depth)
      && |ItemsText(items[i..], format, depth)| == |text| + |separator| + |ItemsText(items[i + 1..], format, depth)|
      && (i + 1 < |items| ==> |ItemsText(items[i + 1..], format, depth)| > 0)
  {
    hide Text;
    assert items[i..][0] == items[i] && items[i..][1..] == items[i + 1..];
    if i + 1 < |items| {
      ItemsNonempty(items[i + 1..], format, depth);
    }
  }

  lemma ItemsNonempty(items: seq<Json>, format: bool, depth: nat)
    requires items != []
    ensures |ItemsText(items, format, depth)| > 0
  {
  }

  // ---------------------------------------------------------------- no NUL in printed text

  lemma {:induction false} TextNulFree(j: Json, format: bool, depth: nat)
    requires WellFormed(j)
    ensures NulFree(Text(j, format, depth))
    decreases j, 2
  {
    hide ItemsText, MembersText;
    match j
    case String(text) => StringSpec.EscapeNulFree(text);
    case Number(_, n) =>
      forall i | 0 <= i < |NumberSpec.IntText(n)| ensures NumberSpec.IntText(n)[i] != NUL {
        assert NumberSpec.IsNumberChar(NumberSpec.IntText(n)[i]);
      }
    case Array(items) => ItemsNulFree(items, format, depth + 1);
    case Object(members) => MembersNulFree(members, format, depth + 1);
    case _ =>
  }

  lemma {:induction false} ItemsNulFree(items: seq<Json>, format: bool, depth: nat)
    requires AllWellFormed(items)
    ensures NulFree(ItemsText(items, format, depth))
    decreases items, 1
  {
    hide Text;
    if items != [] {
      TextNulFree(items[0], format, depth);
      ItemsNulFree(items[1..], format, depth);
    }
  }

  lemma {:induction false} MembersNulFree(members: seq<Member>, format: bool, depth: nat)
    requires AllMembersWellFormed(members)
    ensures NulFree(MembersText(members, format, depth))
    decreases members, 1
  {
    hide Text, StringSpec.Quoted;
    if members != [] {
      var m := members[0];
      TextNulFree(m.value, format, depth);
      StringSpec.QuotedNulFree(m.key);
      MembersNulFree(members[1..], format, depth);
    }
  }

  lemma QuotedPieces(before: seq<byte>, escaped: seq<byte>)
    ensures before + ([QUOTE] + escaped) + [QUOTE, NUL] == (before + ([QUOTE] + escaped + [QUOTE])) + [NUL]
  {
  }

  // ---------------------------------------------------------------- entry points

  /** print(): cJSON_Print and cJSON_PrintUnformatted. Succeeds unless the text comes within two
      bytes of INT_MAX, and then returns it with its NUL and nothing else. */
  method Print(item: Node, format: bool, hasReallocate: bool, ghost t: Tree, ghost j: Json)
    returns (ok: bool, printed: array<byte>)
    requires WellFormed(j) && Stands(item, t) && Shows(t, j)
    ensures ok <==> |Text(j, format, 0)| + 2 <= INT_MAX
    ensures ok ==> fresh(printed) && printed[..] == Text(j, format, 0) + [NUL]
  {
    hide Text, WellFormed, NulFree, Stands, Shows;
    printed := new byte[256];
    var p := new PrintBuffer(printed, false, format, hasReallocate);
    ok := p.PrintValue(item, t, j);
    if !ok {
      return;
    }
    TextNulFree(j, format, 0);
    p.Settle([], Text(j, format, 0));
    assert p.Done() == Text(j, format, 0);
    assert p.buffer[..p.offset + 1] == p.Done() + [NUL];
    printed := p.CopyOut();
  }

  /** cJSON_PrintBuffered: the text does not depend on the caller's guess at its size. */
  method PrintBuffered(item: Node, prebuffer: int, format: bool, hasReallocate: bool, ghost t: Tree, ghost j: Json)
    returns (ok: bool, buffer: array<byte>)
    requires WellFormed(j) && Stands(item, t) && Shows(t, j) && prebuffer != 0 && prebuffer <= INT_MAX
    ensures ok <==> prebuffer > 0 && |Text(j, format, 0)| + 2 <= INT_MAX
    ensures ok ==>
      |Text(j, format, 0)| < buffer.Length && buffer[..|Text(j, format, 0)| + 1] == Text(j, format, 0) + [NUL]
  {
    hide Text, WellFormed, Stands, Shows;
    if prebuffer < 0 {
      buffer := new byte[0];
      return false, buffer;
    }
    buffer := new byte[prebuffer];
    var p := new PrintBuffer(buffer, false, format, hasReallocate);
    ok := p.PrintValue(item, t, j);
    buffer := p.buffer;
    assert ok ==> buffer[..|Text(j, format, 0)|] == [] + Text(j, format, 0) == Text(j, format, 0);
  }

  /** cJSON_PrintPreallocated: succeeds exactly when the caller's buffer has two bytes more than the
      text, so the five spare bytes the header asks for are always enough. */
  method PrintPreallocated(item: Node, buffer: array<byte>, format: bool, ghost t: Tree, ghost j: Json)
    returns (ok: bool)
    requires WellFormed(j) && Stands(item, t) && Shows(t, j) && buffer.Length <= INT_MAX
    modifies buffer
    ensures ok <==> |Text(j, format, 0)| + 2 <= buffer.Length
    ensures ok ==> buffer[..|Text(j, format, 0)| + 1] == Text(j, format, 0) + [NUL]
  {
    hide Text, WellFormed, Stands, Shows;
    var p := new PrintBuffer(buffer, true, format, false);
    ok := p.PrintValue(item, t, j);
    assert ok ==> buffer[..|Text(j, format, 0)|] == [] + Text(j, format, 0) == Text(j, format, 0);
  }
}
