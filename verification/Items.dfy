/** cJSON items on the heap: comparing and duplicating them, against CompareSpec's trees. */
module Items {
  import opened Sequences
  import opened Bytes
  import opened ChildList
  import opened CompareSpec

  /** The item is the root of a tree of nodes that reads as `t`. */
  ghost predicate Stands(n: Node, t: Tree)
    reads n`kind, n`valuestring, n`valueint, n`valuedouble, n`name, n`child, n`kids, n`below, n.below
    decreases t
  {
    && n.kind == t.kind && n.valuestring == t.valuestring && n.valueint == t.valueint
    && n.valuedouble == t.valuedouble && n.name == t.name
    && n !in n.below
    && |n.kids| == |t.children|
    && (forall i :: 0 <= i < |n.kids| ==> n.kids[i] in n.below)
    && (forall i :: 0 <= i < |n.kids| ==> n.kids[i].below <= n.below)
    && Children(n, n.kids)
    && (forall i :: 0 <= i < |n.kids| ==> Stands(n.kids[i], t.children[i]))
  }

  ghost function Nodes(n: Node): set<Node>
    reads n`below
  {
    {n} + n.below
  }

  lemma Kid(n: Node, t: Tree, i: nat)
    requires Stands(n, t) && i < |t.children|
    ensures i < |n.kids| && Stands(n.kids[i], t.children[i]) && n.kids[i].next == At(n.kids, i + 1)
    ensures n.kids[i] in n.below && Nodes(n.kids[i]) <= n.below
  {
  }

  lemma FirstKid(n: Node, t: Tree)
    requires Stands(n, t)
    ensures n.child == At(n.kids, 0) && |n.kids| == |t.children|
  {
  }

  // ---------------------------------------------------------------- cJSON_Duplicate

  /** A list of finished copies, not yet closed: nodes of different copies are different. */
  ghost predicate Copies(done: seq<Node>, ts: seq<Tree>, below: set<Node>)
    reads below
  {
    && |done| == |ts|
    && (forall i :: 0 <= i < |done| ==> done[i] in below)
    && (forall i :: 0 <= i < |done| ==> done[i].below <= below)
    && (forall i, j :: 0 <= i < |done| && 0 <= j < |done| ==> done[i] !in done[j].below)
    && Distinct(done)
    && (forall i :: 0 <= i < |done| ==> Stands(done[i], ts[i]))
  }

  /** `next` and `prev` follow the copies, but the first `prev` is open. */
  ghost predicate HalfLinked(done: seq<Node>)
    reads done`next, done`prev
  {
    && (forall i {:trigger done[i].next} :: 0 <= i < |done| ==> done[i].next == At(done, i + 1))
    && (forall i {:trigger done[i].prev} :: 0 < i < |done| ==> done[i].prev == done[i - 1])
  }

  /** One turn of the loop: the new copy goes behind the last one. */
  method AppendCopy(newitem: Node, next: Node?, newchild: Node, ghost done: seq<Node>, ghost ts: seq<Tree>,
                    ghost below: set<Node>, ghost t: Tree)
    requires Copies(done, ts, below) && HalfLinked(done) && newitem !in below && newitem.child == At(done, 0)
    requires next == At(done, |done| - 1)
    requires Stands(newchild, t) && newchild.next == null && newitem != newchild && newitem !in newchild.below
    requires newchild !in below && newchild.below !! below
    modifies newitem`child, Opt(next)`next, newchild`prev
    ensures newitem.child == At(done + [newchild], 0)
    ensures Copies(done + [newchild], ts + [t], below + Nodes(newchild)) && HalfLinked(done + [newchild])
  {
    hide Stands, Distinct;
    LastOf(done);
    Root(newchild, t);
    assert next != null ==> next in done;
    if next != null {
      next.next := newchild;
      newchild.prev := next;
    } else {
      newitem.child := newchild;
    }
    assert forall i :: 0 <= i < |done| ==> Stands(done[i], ts[i]);
    assert Stands(newchild, t);
    CopiesGrow(done, ts, below, newchild, t);
    HalfLinkedGrows(done, newchild);
  }

  lemma Root(n: Node, t: Tree)
    requires Stands(n, t)
    ensures n !in n.below
  {
  }

  lemma LastOf(done: seq<Node>)
    requires Distinct(done)
    ensures forall i :: 0 <= i < |done| - 1 ==> done[i] != done[|done| - 1]
    ensures forall i :: 0 < i < |done| ==> done[i] != done[0]
  {
  }

  lemma CopiesGrow(done: seq<Node>, ts: seq<Tree>, below: set<Node>, x: Node, t: Tree)
    requires Copies(done, ts, below) && Stands(x, t) && x !in x.below && x !in below && x.below !! below
    ensures Copies(done + [x], ts + [t], below + Nodes(x))
  {
    hide Stands;
  }

  lemma HalfLinkedGrows(done: seq<Node>, x: Node)
    requires forall i {:trigger done[i].next} :: 0 <= i < |done| - 1 ==> done[i].next == At(done, i + 1)
    requires forall i {:trigger done[i].prev} :: 0 < i < |done| ==> done[i].prev == done[i - 1]
    requires done != [] ==> done[|done| - 1].next == x && x.prev == done[|done| - 1]
    requires x.next == null
    ensures HalfLinked(done + [x])
  {
    var s := done + [x];
    forall i {:trigger s[i].next} | 0 <= i < |s| ensures s[i].next == At(s, i + 1) {
      if i < |done| { assert s[i] == done[i]; }
    }
    forall i {:trigger s[i].prev} | 0 < i < |s| ensures s[i].prev == s[i - 1] {
      if i < |done| { assert s[i] == done[i]; }
    }
  }

  /** A node as cJSON_New_Item leaves it, but for its kind and name. */
  ghost predicate Blank(n: Node)
    reads n`valuestring, n`valueint, n`valuedouble, n`child, n`kids, n`below
  {
    n.valuestring == None && n.valueint == 0 && n.valuedouble == 0.0 && n.child == null && n.kids == [] && n.below == {}
  }

  /** cJSON_New_Item */
  method NewItem() returns (n: Node)
    ensures fresh(n) && Blank(n) && n.next == n.prev == null && n.name == None
  {
    n := new Node();
  }

  /** The list under construction. */
  ghost predicate PartList(head: Node?, current: Node?, done: seq<Node>, ts: seq<Tree>, below: set<Node>)
    reads below, done`next, done`prev
  {
    && Copies(done, ts, below) && HalfLinked(done)
    && head == At(done, 0) && current == At(done, |done| - 1) && Opt(head) + Opt(current) <= below
  }

  lemma NoList()
    ensures PartList(null, null, [], [], {})
  {
  }

  lemma InList(head: Node?, current: Node?, done: seq<Node>, ts: seq<Tree>, below: set<Node>)
    requires PartList(head, current, done, ts, below)
    ensures Opt(current) <= below && Opt(head) <= below
  {
  }

  /** The node attached last has been filled. */
  lemma ListGrows(head: Node, x: Node, done: seq<Node>, ts: seq<Tree>, below: set<Node>, t: Tree)
    requires Copies(done, ts, below) && HalfLinked(done + [x]) && head == At(done + [x], 0)
    requires Stands(x, t) && x !in below && x.below !! below
    ensures PartList(head, x, done + [x], ts + [t], below + Nodes(x))
  {
    hide Stands, HalfLinked, Copies;
    Root(x, t);
    CopiesGrow(done, ts, below, x, t);
    InCopies(done, ts, below);
  }

  lemma InCopies(done: seq<Node>, ts: seq<Tree>, below: set<Node>)
    requires Copies(done, ts, below)
    ensures done != [] ==> done[0] in below && done[|done| - 1] in below
  {
    hide Stands;
  }

  /** "attach next item to list": the parser links a node before it fills it. */
  method AttachItem(head0: Node?, current0: Node?, newItem: Node, ghost done: seq<Node>, ghost ts: seq<Tree>,
                    ghost below: set<Node>)
    returns (head: Node, current: Node)
    requires PartList(head0, current0, done, ts, below) && newItem !in below && newItem.next == null
    modifies Opt(current0)`next, newItem`prev
    ensures head == At(done + [newItem], 0) && current == newItem
    ensures Copies(done, ts, below) && HalfLinked(done + [newItem])
  {
    hide Stands, Distinct;
    LastOf(done);
    assert current0 != null ==> current0 in done;
    if head0 == null {
      current, head := newItem, newItem;
    } else {
      head := head0;
      current0.next := newItem;
      newItem.prev := current0;
      current := newItem;
    }
    assert forall i :: 0 <= i < |done| ==> Stands(done[i], ts[i]);
    HalfLinkedGrows(done, newItem);
  }

  /** The copied fields; cJSON_IsReference is not part of `kind`. */
  method CopyFields(item: Node, ghost t: Tree) returns (newitem: Node)
    requires Stands(item, t)
    ensures fresh(newitem) && newitem.next == newitem.prev == newitem.child == null
    ensures newitem.kids == [] && newitem.below == {}
    ensures newitem.kind == t.kind && newitem.valuestring == t.valuestring && newitem.valueint == t.valueint
    ensures newitem.valuedouble == t.valuedouble && newitem.name == t.name
  {
    newitem := new Node();
    newitem.kind := item.kind;
    newitem.valueint := item.valueint;
    newitem.valuedouble := item.valuedouble;
    if item.valuestring.Some? { newitem.valuestring := item.valuestring; }
    if item.name.Some? { newitem.name := item.name; }
  }

  /** cJSON_Duplicate: the copy reads as the same tree, without children if not recursive, and is made of
      new nodes only. */
  method Duplicate(item: Node?, recurse: bool, ghost t: Tree) returns (copy: Node?)
    requires item != null ==> Stands(item, t)
    ensures copy == null <==> item == null
    ensures copy != null ==> Stands(copy, if recurse then t else t.(children := []))
    ensures copy != null ==> fresh(Nodes(copy)) && copy.next == copy.prev == null
    decreases t
  {
    hide Stands, Copies, HalfLinked, Distinct, Linked;
    if item == null { return null; }
    var newitem := CopyFields(item, t);
    if !recurse {
      Leaf(newitem, t.(children := []));
      return newitem;
    }
    FirstKid(item, t);
    var child, next, newchild := item.child, null, null;
    ghost var done: seq<Node>, below: set<Node> := [], {};
    NoCopies();
    while child != null
      invariant |done| <= |t.children| == |item.kids| && child == At(item.kids, |done|)
      invariant Copies(done, t.children[..|done|], below) && HalfLinked(done)
      invariant fresh(below) && newitem !in below && newitem.child == At(done, 0)
      invariant next == newchild == At(done, |done| - 1) && Opt(next) <= below && Opt(newitem.child) <= below
      invariant newitem.next == newitem.prev == null
      invariant newitem.kind == t.kind && newitem.valuestring == t.valuestring && newitem.valueint == t.valueint
      invariant newitem.valuedouble == t.valuedouble && newitem.name == t.name
      invariant Stands(item, t)
      decreases |t.children| - |done|
    {
      ghost var i := |done|;
      Kid(item, t, i);
      newchild := Duplicate(child, true, t.children[i]);
      AppendCopy(newitem, next, newchild, done, t.children[..i], below, t.children[i]);
      next := newchild;
      child := child.next;
      done, below := done + [newchild], below + Nodes(newchild);
      assert t.children[..i + 1] == t.children[..i] + [t.children[i]];
    }
    assert t.children[..|done|] == t.children;
    Close(newitem, newchild, done, below, t);
    return newitem;
  }

  lemma Leaf(n: Node, t: Tree)
    requires n.kind == t.kind && n.valuestring == t.valuestring && n.valueint == t.valueint
    requires n.valuedouble == t.valuedouble && n.name == t.name
    requires t.children == [] && n.kids == [] && n.below == {} && n.child == null
    ensures Stands(n, t)
  {
  }

  lemma NoCopies()
    ensures Copies([], [], {}) && HalfLinked([])
  {
  }

  /** The first copy's `prev` becomes the last one. */
  method Close(newitem: Node, newchild: Node?, ghost done: seq<Node>, ghost below: set<Node>, ghost t: Tree)
    requires Copies(done, t.children, below) && HalfLinked(done) && newitem !in below && newitem.child == At(done, 0)
    requires newchild == At(done, |done| - 1)
    requires newitem.kind == t.kind && newitem.valuestring == t.valuestring && newitem.valueint == t.valueint
    requires newitem.valuedouble == t.valuedouble && newitem.name == t.name
    modifies Opt(newitem.child)`prev, newitem`kids, newitem`below
    ensures Stands(newitem, t) && newitem.below == below
  {
    hide Stands, Distinct;
    LastOf(done);
    if newitem.child != null {
      newitem.child.prev := newchild;
    }
    assert forall i {:trigger done[i].prev} :: 0 < i < |done| ==> done[i].prev == done[i - 1];
    newitem.kids, newitem.below := done, below;
    assert forall i :: 0 <= i < |done| ==> Stands(done[i], t.children[i]);
    Closed(done);
    Whole(newitem, t);
  }

  lemma Closed(done: seq<Node>)
    requires forall i {:trigger done[i].next} :: 0 <= i < |done| ==> done[i].next == At(done, i + 1)
    requires forall i {:trigger done[i].prev} :: 0 < i < |done| ==> done[i].prev == done[i - 1]
    requires done != [] ==> done[0].prev == done[|done| - 1]
    ensures Linked(done)
  {
  }

  lemma Whole(n: Node, t: Tree)
    requires n.kind == t.kind && n.valuestring == t.valuestring && n.valueint == t.valueint
    requires n.valuedouble == t.valuedouble && n.name == t.name
    requires Copies(n.kids, t.children, n.below) && n !in n.below && Children(n, n.kids)
    ensures Stands(n, t)
  {
    hide Children, Distinct;
  }

  // ---------------------------------------------------------------- get_object_item and cJSON_Compare

  function Shift(r: Option<nat>, k: nat): Option<nat> { if r.Some? then Some(r.value + k) else None }

  lemma LookupStep(ts: seq<Tree>, name: seq<byte>, caseSensitive: bool, i: nat)
    requires i < |ts|
    ensures var u := ts[i].name;
      Lookup(ts[i..], Some(name), caseSensitive) ==
        if caseSensitive && u == None then None
        else if u.Some? && SameName(name, u.value, caseSensitive) then Some(0)
        else Shift(Lookup(ts[i + 1..], Some(name), caseSensitive), 1)
  {
    hide SameName;
    assert ts[i..][1..] == ts[i + 1..];
  }

  lemma FoundFirst(ts: seq<Tree>, name: Option<seq<byte>>, caseSensitive: bool)
    ensures var r := Lookup(ts, name, caseSensitive);
      && (r.Some? ==> FirstNamed(ts, name, caseSensitive, r.value))
      && (r == None ==> forall i: nat :: !FirstNamed(ts, name, caseSensitive, i))
  {
    hide Lookup, FirstNamed;
    forall i: nat ensures Lookup(ts, name, caseSensitive) == Some(i) <==> FirstNamed(ts, name, caseSensitive, i) {
      LookupFirst(ts, name, caseSensitive, i);
    }
  }

  /** get_object_item */
  method GetObjectItem(parent: Node?, name: Option<seq<byte>>, caseSensitive: bool, ghost t: Tree) returns (r: Node?)
    requires parent != null ==> Stands(parent, t)
    ensures parent == null ==> r == null
    ensures parent != null ==> match Lookup(t.children, name, caseSensitive)
      case None => r == null
      case Some(i) => i < |parent.kids| && r == parent.kids[i]
    ensures parent != null && r != null ==>
      exists i: nat :: FirstNamed(t.children, name, caseSensitive, i) && i < |parent.kids| && r == parent.kids[i]
    ensures parent != null && r == null ==> forall i: nat :: !FirstNamed(t.children, name, caseSensitive, i)
  {
    hide Stands, Lookup, SameName, FirstNamed;
    FoundFirst(t.children, name, caseSensitive);
    if parent == null || name == None {
      NoName(t.children, caseSensitive);
      return null;
    }
    FirstKid(parent, t);
    var current := parent.child;
    ghost var ts, i := t.children, 0;
    assert ts[0..] == ts;
    while current != null && (if caseSensitive
                              then current.name.Some? && !SameName(name.value, current.name.value, true)
                              else current.name == None || !SameName(name.value, current.name.value, false))
      invariant i <= |ts| == |parent.kids| && current == At(parent.kids, i)
      invariant Lookup(ts, name, caseSensitive) == Shift(Lookup(ts[i..], name, caseSensitive), i)
      decreases |ts| - i
    {
      Kid(parent, t, i);
      SameNames(current, ts[i]);
      LookupStep(ts, name.value, caseSensitive, i);
      current := current.next;
      i := i + 1;
    }
    if current == null {
      NoMembers(name, caseSensitive);
      return null;
    }
    Kid(parent, t, i);
    SameNames(current, ts[i]);
    LookupStep(ts, name.value, caseSensitive, i);
    if current.name == None { return null; }
    return current;
  }

  lemma NoName(ts: seq<Tree>, caseSensitive: bool)
    ensures Lookup(ts, None, caseSensitive) == None
  {
  }

  lemma NoMembers(name: Option<seq<byte>>, caseSensitive: bool)
    ensures Lookup([], name, caseSensitive) == None
  {
  }

  lemma SameNames(n: Node, t: Tree)
    requires Stands(n, t)
    ensures n.name == t.name
  {
  }

  ghost predicate Apart(a: Node, b: Node)
    reads a`below, b`below
  {
    Nodes(a) !! Nodes(b)
  }

  /** cJSON_Compare. An item is equal to itself whatever it holds, if its kind is known. */
  method CompareItems(a: Node?, b: Node?, caseSensitive: bool, ghost ta: Tree, ghost tb: Tree) returns (r: bool)
    requires a != null ==> Stands(a, ta)
    requires b != null ==> Stands(b, tb)
    ensures a == null || b == null ==> !r
    ensures a != null && b != null && Apart(a, b) ==> r == Compare(ta, tb, caseSensitive)
    ensures a != null && a == b ==> r == Known(a.kind)
    decreases Size(ta) + Size(tb), 1
  {
    hide Stands, Compare;
    if a == null || b == null { return false; }
    Fields(a, ta);
    Fields(b, tb);
    CompareByKind(ta, tb, caseSensitive);
    if a.kind != b.kind || !Known(a.kind) { return false; }
    if a == b { return true; }
    if a.kind == KIND_NUMBER {
      return CompareDouble(a.valuedouble, b.valuedouble);
    } else if a.kind == KIND_STRING || a.kind == KIND_RAW {
      if a.valuestring == None || b.valuestring == None { return false; }
      return a.valuestring.value == b.valuestring.value;
    } else if a.kind == KIND_ARRAY {
      r := CompareArrays(a, b, caseSensitive, ta, tb);
    } else if a.kind == KIND_OBJECT {
      r := CompareHalf(a, b, caseSensitive, ta, tb);
      if r { r := CompareHalf(b, a, caseSensitive, tb, ta); }
    } else {
      return true;
    }
  }

  lemma Fields(n: Node, t: Tree)
    requires Stands(n, t)
    ensures n.kind == t.kind && n.valuestring == t.valuestring && n.valueint == t.valueint &&
      n.valuedouble == t.valuedouble
  {
  }

  lemma CompareByKind(a: Tree, b: Tree, caseSensitive: bool)
    ensures Compare(a, b, caseSensitive) ==
      if a.kind != b.kind || !Known(a.kind) then false
      else if a.kind == KIND_NUMBER then CompareDouble(a.valuedouble, b.valuedouble)
      else if a.kind == KIND_STRING || a.kind == KIND_RAW then
        a.valuestring.Some? && b.valuestring.Some? && a.valuestring.value == b.valuestring.value
      else if a.kind == KIND_ARRAY then CompareElements(a.children, b.children, caseSensitive)
      else if a.kind == KIND_OBJECT then
        CompareMembers(a.children, b.children, caseSensitive) && CompareMembers(b.children, a.children, caseSensitive)
      else true
  {
    hide CompareElements, CompareMembers, CompareDouble;
  }

  lemma KidsApart(a: Node, b: Node, ta: Tree, tb: Tree, i: nat, j: nat)
    requires Stands(a, ta) && Stands(b, tb) && i < |ta.children| && j < |tb.children|
    ensures i < |a.kids| && j < |b.kids| && (Apart(a, b) ==> Apart(a.kids[i], b.kids[j]))
  {
    hide Stands;
    Kid(a, ta, i);
    Kid(b, tb, j);
  }

  lemma ElementsStep(xs: seq<Tree>, ys: seq<Tree>, caseSensitive: bool, i: nat)
    requires i < |xs| && i < |ys|
    ensures CompareElements(xs[i..], ys[i..], caseSensitive) ==
      (Compare(xs[i], ys[i], caseSensitive) && CompareElements(xs[i + 1..], ys[i + 1..], caseSensitive))
  {
    hide Compare;
    assert xs[i..][1..] == xs[i + 1..] && ys[i..][1..] == ys[i + 1..];
  }

  /** The loop over two arrays. */
  method CompareArrays(a: Node, b: Node, caseSensitive: bool, ghost ta: Tree, ghost tb: Tree) returns (r: bool)
    requires Stands(a, ta) && Stands(b, tb)
    ensures Apart(a, b) ==> r == CompareElements(ta.children, tb.children, caseSensitive)
    decreases Size(ta) + Size(tb), 0
  {
    hide Stands, Compare, CompareElements;
    FirstKid(a, ta);
    FirstKid(b, tb);
    var aElement, bElement := a.child, b.child;
    ghost var xs, ys, i := ta.children, tb.children, 0;
    assert xs[0..] == xs && ys[0..] == ys;
    while aElement != null && bElement != null
      invariant i <= |xs| == |a.kids| && i <= |ys| == |b.kids|
      invariant aElement == At(a.kids, i) && bElement == At(b.kids, i)
      invariant Apart(a, b) ==>
        CompareElements(xs, ys, caseSensitive) == CompareElements(xs[i..], ys[i..], caseSensitive)
      decreases |xs| - i
    {
      Kid(a, ta, i);
      Kid(b, tb, i);
      KidsApart(a, b, ta, tb, i, i);
      ChildSmaller(xs, i);
      ChildSmaller(ys, i);
      ElementsStep(xs, ys, caseSensitive, i);
      var same := CompareItems(aElement, bElement, caseSensitive, xs[i], ys[i]);
      if !same { return false; }
      aElement, bElement := aElement.next, bElement.next;
      i := i + 1;
    }
    ElementsEnd(xs[i..], ys[i..], caseSensitive);
    if Apart(a, b) { EndsDiffer(a, b, ta, tb, i); }
    return aElement == bElement;
  }

  lemma ElementsEnd(xs: seq<Tree>, ys: seq<Tree>, caseSensitive: bool)
    requires xs == [] || ys == []
    ensures CompareElements(xs, ys, caseSensitive) <==> xs == ys == []
  {
  }

  lemma EndsDiffer(a: Node, b: Node, ta: Tree, tb: Tree, i: nat)
    requires Stands(a, ta) && Stands(b, tb) && Apart(a, b) && i <= |ta.children| && i <= |tb.children|
    ensures |a.kids| == |ta.children| && |b.kids| == |tb.children|
    ensures At(a.kids, i) == At(b.kids, i) <==> i == |ta.children| == |tb.children|
  {
    hide Stands;
    FirstKid(a, ta);
    FirstKid(b, tb);
    if i < |ta.children| { Kid(a, ta, i); }
    if i < |tb.children| { Kid(b, tb, i); }
  }

  /** One of the two loops over objects. */
  method CompareHalf(a: Node, b: Node, caseSensitive: bool, ghost ta: Tree, ghost tb: Tree) returns (r: bool)
    requires Stands(a, ta) && Stands(b, tb)
    ensures Apart(a, b) ==> r == CompareMembers(ta.children, tb.children, caseSensitive)
    decreases Size(ta) + Size(tb), 0
  {
    hide Stands, Compare, CompareMembers, Lookup;
    FirstKid(a, ta);
    var aElement := a.child;
    ghost var xs, ys, i := ta.children, tb.children, 0;
    MembersIff(xs, ys, caseSensitive);
    while aElement != null
      invariant i <= |xs| == |a.kids| && aElement == At(a.kids, i)
      invariant Apart(a, b) ==> forall j :: 0 <= j < i ==> MemberMatches(xs[j], ys, caseSensitive)
      decreases |xs| - i
    {
      Kid(a, ta, i);
      SameNames(aElement, xs[i]);
      var bElement := GetObjectItem(b, aElement.name, caseSensitive, tb);
      if bElement == null {
        assert !MemberMatches(xs[i], ys, caseSensitive);
        return false;
      }
      ghost var j := Lookup(ys, xs[i].name, caseSensitive).value;
      Kid(b, tb, j);
      KidsApart(a, b, ta, tb, i, j);
      ChildSmaller(xs, i);
      ChildSmaller(ys, j);
      var same := CompareItems(aElement, bElement, caseSensitive, xs[i], ys[j]);
      assert Apart(a, b) ==> (same <==> MemberMatches(xs[i], ys, caseSensitive));
      if !same { return false; }
      aElement := aElement.next;
      i := i + 1;
    }
    return true;
  }

  /** Comparing an item with its own duplicate: equal exactly for steady trees, so for all proper ones. */
  method CompareWithCopy(item: Node, caseSensitive: bool, ghost t: Tree) returns (copy: Node, same: bool)
    requires Stands(item, t)
    ensures Stands(item, t) && Stands(copy, t) && fresh(Nodes(copy))
    ensures same <==> Steady(t, caseSensitive)
  {
    hide Stands, Compare, Steady;
    copy := Duplicate(item, true, t);
    same := CompareItems(item, copy, caseSensitive, t, t);
    CopyCompares(t, caseSensitive);
  }
}
