/** The child lists of cJSON items: doubly linked, with the tail behind the head's `prev`. */
module ChildList {
  import opened Bytes
  import opened Sequences

  datatype Option<T> = None | Some(value: T)

  const KIND_INVALID: nat := 0
  const KIND_FALSE: nat := 1
  const KIND_TRUE: nat := 2
  const KIND_NULL: nat := 4
  const KIND_NUMBER: nat := 8
  const KIND_STRING: nat := 16
  const KIND_ARRAY: nat := 32
  const KIND_OBJECT: nat := 64
  const KIND_RAW: nat := 128

  /** struct cJSON. `kind` is the low byte of `type`; a missing C string is None. */
  class Node {
    var next: Node?
    var prev: Node?
    var child: Node?
    var kind: nat
    var valuestring: Option<seq<byte>>
    var valueint: int
    var valuedouble: real
    var name: Option<seq<byte>>
    /** the children, in order */
    ghost var kids: seq<Node>
    /** every node strictly below this one */
    ghost var below: set<Node>

    /** cJSON_New_Item: all zero */
    constructor ()
      ensures next == prev == child == null && kind == KIND_INVALID && valuestring == name == None
      ensures valueint == 0 && valuedouble == 0.0
      ensures kids == [] && below == {}
    {
      next, prev, child := null, null, null;
      kind, valuestring, valueint, valuedouble, name := KIND_INVALID, None, 0, 0.0, None;
      kids, below := [], {};
    }
  }

  function At(s: seq<Node>, i: int): Node? { if 0 <= i < |s| then s[i] else null }

  /** What `prev` shows: the element before, and for the head the tail. */
  function Before(s: seq<Node>, i: nat): Node
    requires i < |s|
  {
    if i == 0 then s[|s| - 1] else s[i - 1]
  }

  /** `next` and `prev` follow the sequence. */
  ghost predicate Linked(s: seq<Node>)
    reads s`next, s`prev
  {
    forall i {:trigger s[i].next} {:trigger s[i].prev} :: 0 <= i < |s| ==>
      s[i].next == At(s, i + 1) && s[i].prev == Before(s, i)
  }

  /** The children of an item are exactly `s`, in order. */
  ghost predicate Children(parent: Node, s: seq<Node>)
    reads parent`child, s`next, s`prev
  {
    parent.child == At(s, 0) && Distinct(s) && Linked(s)
  }

  /** Taking out what was put in gives the old list, and putting back what was taken out too. */
  lemma InsertUndone(s: seq<Node>, k: nat, x: Node)
    requires k <= |s|
    ensures Without(Inserted(s, k, x), k) == s
    ensures k < |s| ==> Inserted(Without(s, k), k, s[k]) == s && Inserted(s, k, x)[k + 1] == s[k]
  {
  }

  /** A list has one reading: the links determine the sequence. */
  lemma OneReading(parent: Node, s: seq<Node>, t: seq<Node>)
    requires Children(parent, s) && Children(parent, t)
    ensures s == t
  {
    NotLonger(parent, s, t);
    NotLonger(parent, t, s);
    SamePrefix(parent, s, t, |s|);
    assert s[..|s|] == s && t[..|t|] == t;
  }

  lemma NotLonger(parent: Node, s: seq<Node>, t: seq<Node>)
    requires Children(parent, s) && Children(parent, t)
    ensures |t| <= |s|
  {
    hide Linked;
    if s != [] && |s| < |t| {
      var n := |s|;
      SamePrefix(parent, s, t, n);
      assert s[n - 1] == s[..n][n - 1] == t[n - 1];
      LinkAt(s, n - 1);
      LinkAt(t, n - 1);
    }
  }

  lemma LinkAt(s: seq<Node>, i: nat)
    requires Linked(s) && i < |s|
    ensures s[i].next == At(s, i + 1) && s[i].prev == Before(s, i)
  {
  }

  lemma {:induction false} SamePrefix(parent: Node, s: seq<Node>, t: seq<Node>, n: nat)
    requires Children(parent, s) && Children(parent, t) && n <= |s| && n <= |t|
    ensures s[..n] == t[..n]
  {
    hide Linked, Distinct;
    if n > 1 {
      SamePrefix(parent, s, t, n - 1);
      assert s[..n - 1][n - 2] == t[..n - 1][n - 2];
      LinkAt(s, n - 2);
      LinkAt(t, n - 2);
      assert s[..n] == s[..n - 1] + [s[n - 1]] && t[..n] == t[..n - 1] + [t[n - 1]];
    }
  }

  // ---------------------------------------------------------------- the operations

  function Opt(x: Node?): set<Node> { if x == null then {} else {x} }

  /** get_array_item */
  method GetArrayItem(parent: Node?, index: nat, ghost s: seq<Node>) returns (current: Node?)
    requires parent != null ==> Children(parent, s)
    ensures current == if parent == null then null else At(s, index)
  {
    hide Distinct;
    if parent == null { return null; }
    current := parent.child;
    var i := index;
    ghost var k := 0;
    while current != null && i > 0
      invariant i + k == index && current == At(s, k)
    {
      assert current == s[k];
      i, k := i - 1, k + 1;
      current := current.next;
    }
    assert i > 0 ==> |s| <= k;
    assert i == 0 ==> k == index;
  }

  /** add_item_to_array, with an item that is in no list. */
  method AddItemToArray(parent: Node?, item: Node?, ghost s: seq<Node>) returns (ok: bool)
    requires parent != null ==> Children(parent, s)
    requires item != null ==> item !in s && item.next == null
    modifies Opt(parent)`child, Opt(item)`next, Opt(item)`prev, s`next, s`prev
    ensures ok <==> item != null && parent != null && parent != item
    ensures parent != null ==> Children(parent, if ok then s + [item] else s)
  {
    hide Distinct;
    if item == null || parent == null || parent == item { return false; }
    var child := parent.child;
    if child == null {
      parent.child := item;
      item.prev := item;
      item.next := null;
    } else if child.prev != null {
      FirstAndLast(s);
      child.prev.next := item;
      item.prev := child.prev;
      parent.child.prev := item;
      assert forall i {:trigger s[i].next} :: 0 <= i < |s| - 1 ==> s[i].next == At(s, i + 1);
      assert forall i {:trigger s[i].prev} :: 0 < i < |s| ==> s[i].prev == s[i - 1];
    }
    AppendLinked(s, item);
    return true;
  }

  lemma FirstAndLast(s: seq<Node>)
    requires Distinct(s) && s != []
    ensures forall i :: 0 < i < |s| ==> s[i] != s[0]
    ensures forall i :: 0 <= i < |s| - 1 ==> s[i] != s[|s| - 1]
  {
  }

  lemma AppendLinked(s: seq<Node>, x: Node)
    requires Distinct(s) && x !in s && x.next == null
    requires x.prev == if s == [] then x else s[|s| - 1]
    requires s != [] ==> s[0].prev == x && s[|s| - 1].next == x
    requires forall i {:trigger s[i].next} :: 0 <= i < |s| - 1 ==> s[i].next == At(s, i + 1)
    requires forall i {:trigger s[i].prev} :: 0 < i < |s| ==> s[i].prev == s[i - 1]
    ensures Distinct(s + [x]) && Linked(s + [x])
  {
    var t := s + [x];
    forall i {:trigger t[i].next} {:trigger t[i].prev} | 0 <= i < |t|
      ensures t[i].next == At(t, i + 1) && t[i].prev == Before(t, i)
    {
      if i < |s| { assert t[i] == s[i]; }
    }
  }

  /** cJSON_InsertItemInArray: behind the end means at the end. */
  method InsertItemInArray(parent: Node?, which: int, newitem: Node?, ghost s: seq<Node>) returns (ok: bool)
    requires parent != null ==> Children(parent, s)
    requires newitem != null ==> newitem !in s && newitem.next == null
    requires parent != null && 0 <= which < |s| ==> newitem != null
    modifies Opt(parent)`child, Opt(newitem)`next, Opt(newitem)`prev, s`next, s`prev
    ensures ok <==> which >= 0 && newitem != null && parent != null && (which < |s| || parent != newitem)
    ensures parent != null ==>
      Children(parent, if !ok then s else Inserted(s, if which < |s| then which else |s|, newitem))
  {
    hide Distinct;
    if which < 0 { return false; }
    var afterInserted := GetArrayItem(parent, which, s);
    if afterInserted == null {
      ok := AddItemToArray(parent, newitem, s);
      assert newitem != null ==> s + [newitem] == Inserted(s, |s|, newitem);
      return;
    }
    LinkAt(s, which);
    Neighbours(s, which);
    newitem.next := afterInserted;
    newitem.prev := afterInserted.prev;
    afterInserted.prev := newitem;
    if afterInserted == parent.child {
      parent.child := newitem;
    } else {
      newitem.prev.next := newitem;
    }
    assert forall i {:trigger s[i].next} :: 0 <= i < |s| && i != which - 1 ==> s[i].next == At(s, i + 1);
    assert forall i {:trigger s[i].prev} :: 0 <= i < |s| && i != which ==> s[i].prev == Before(s, i);
    InsertLinked(s, which, newitem);
    return true;
  }

  /** With distinct elements an element is found at one index only. */
  lemma Neighbours(s: seq<Node>, k: nat)
    requires Distinct(s) && k < |s|
    ensures forall i :: 0 <= i < |s| && i != k ==> s[i] != s[k]
    ensures k > 0 ==> forall i :: 0 <= i < |s| && i != k - 1 ==> s[i] != s[k - 1]
    ensures k + 1 < |s| ==> forall i :: 0 <= i < |s| && i != k + 1 ==> s[i] != s[k + 1]
    ensures forall i :: 0 < i < |s| ==> s[i] != s[0]
    ensures forall i :: 0 <= i < |s| - 1 ==> s[i] != s[|s| - 1]
  {
  }

  lemma InsertLinked(s: seq<Node>, k: nat, x: Node)
    requires Distinct(s) && k < |s| && x !in s
    requires x.next == s[k] && x.prev == Before(s, k) && s[k].prev == x
    requires k > 0 ==> s[k - 1].next == x
    requires forall i {:trigger s[i].next} :: 0 <= i < |s| && i != k - 1 ==> s[i].next == At(s, i + 1)
    requires forall i {:trigger s[i].prev} :: 0 <= i < |s| && i != k ==> s[i].prev == Before(s, i)
    ensures Distinct(Inserted(s, k, x)) && Linked(Inserted(s, k, x))
  {
    var t := Inserted(s, k, x);
    forall i {:trigger t[i].next} {:trigger t[i].prev} | 0 <= i < |t|
      ensures t[i].next == At(t, i + 1) && t[i].prev == Before(t, i)
    {
      if i < k { assert t[i] == s[i]; } else if i > k { assert t[i] == s[i - 1]; }
    }
    forall i, j | 0 <= i < j < |t| ensures t[i] != t[j] {
      assert i != k ==> t[i] == s[if i < k then i else i - 1];
      assert j != k ==> t[j] == s[if j < k then j else j - 1];
    }
  }

  /** cJSON_DetachItemViaPointer */
  method DetachItemViaPointer(parent: Node?, item: Node?, ghost s: seq<Node>, ghost k: nat) returns (out: Node?)
    requires parent != null && item != null ==> Children(parent, s) && k < |s| && s[k] == item
    modifies Opt(parent)`child, s`next, s`prev
    ensures out == if parent == null then null else item
    ensures out != null ==> Children(parent, Without(s, k)) && item.next == null && item.prev == null
    ensures out == null && parent != null && old(Children(parent, s)) ==> Children(parent, s)
  {
    hide Distinct;
    if parent == null || item == null { return null; }
    LinkAt(s, k);
    Neighbours(s, k);
    if item != parent.child {
      item.prev.next := item.next;
    }
    if item.next != null {
      item.next.prev := item.prev;
    }
    if item == parent.child {
      parent.child := item.next;
    } else if item.next == null {
      parent.child.prev := item.prev;
    }
    item.prev := null;
    item.next := null;
    assert forall i {:trigger s[i].next} :: 0 <= i < |s| && i != k - 1 && i != k ==> s[i].next == At(s, i + 1);
    assert forall i {:trigger s[i].prev} :: 0 < i < |s| && i != k + 1 && i != k ==> s[i].prev == s[i - 1];
    WithoutLinked(s, k);
    return item;
  }

  lemma WithoutLinked(s: seq<Node>, k: nat)
    requires Distinct(s) && k < |s|
    requires k > 0 ==> s[k - 1].next == At(s, k + 1)
    requires k > 0 && k + 1 < |s| ==> s[k + 1].prev == s[k - 1]
    requires |s| > 1 ==> Without(s, k)[0].prev == Without(s, k)[|s| - 2]
    requires forall i {:trigger s[i].next} :: 0 <= i < |s| && i != k - 1 && i != k ==> s[i].next == At(s, i + 1)
    requires forall i {:trigger s[i].prev} :: 0 < i < |s| && i != k + 1 && i != k ==> s[i].prev == s[i - 1]
    ensures Distinct(Without(s, k)) && Linked(Without(s, k))
  {
    var t := Without(s, k);
    forall i {:trigger t[i].next} {:trigger t[i].prev} | 0 <= i < |t|
      ensures t[i].next == At(t, i + 1) && t[i].prev == Before(t, i)
    {
      assert t[i] == s[if i < k then i else i + 1];
    }
    forall i, j | 0 <= i < j < |t| ensures t[i] != t[j] {
      assert t[i] == s[if i < k then i else i + 1];
      assert t[j] == s[if j < k then j else j + 1];
    }
  }

  /** cJSON_ReplaceItemViaPointer. The replaced item, which cJSON_Delete frees, is left linked to nothing. */
  method ReplaceItemViaPointer(parent: Node?, item: Node?, replacement: Node?, ghost s: seq<Node>, ghost k: nat)
    returns (ok: bool)
    requires parent != null && item != null ==> Children(parent, s) && k < |s| && s[k] == item
    requires parent != null && item != null && replacement != null && replacement != item ==> replacement !in s
    modifies Opt(parent)`child, Opt(replacement)`next, Opt(replacement)`prev, s`next, s`prev
    ensures ok <==> parent != null && item != null && replacement != null
    ensures ok ==> Children(parent, s[k := replacement])
    ensures ok && item != replacement ==> item.next == null && item.prev == null
    ensures !ok && parent != null && old(Children(parent, s)) ==> Children(parent, s)
  {
    hide Distinct;
    if parent == null || replacement == null || item == null { return false; }
    if replacement == item {
      assert s[k := replacement] == s;
      return true;
    }
    LinkAt(s, k);
    Neighbours(s, k);
    replacement.next := item.next;
    replacement.prev := item.prev;
    if replacement.next != null {
      replacement.next.prev := replacement;
    }
    if parent.child == item {
      if parent.child.prev == parent.child {
        replacement.prev := replacement;
      }
      parent.child := replacement;
    } else {
      if replacement.prev != null {
        replacement.prev.next := replacement;
      }
      if replacement.next == null {
        parent.child.prev := replacement;
      }
    }
    item.next := null;
    item.prev := null;
    assert forall i {:trigger s[i].next} :: 0 <= i < |s| && i != k - 1 && i != k ==> s[i].next == At(s, i + 1);
    assert forall i {:trigger s[i].prev} :: 0 < i < |s| && i != k + 1 && i != k ==> s[i].prev == s[i - 1];
    ReplacedLinked(s, k, replacement);
    return true;
  }

  lemma ReplacedLinked(s: seq<Node>, k: nat, x: Node)
    requires Distinct(s) && k < |s| && x !in s
    requires x.next == At(s, k + 1) && x.prev == Before(s[k := x], k)
    requires k > 0 ==> s[k - 1].next == x && s[0].prev == Before(s[k := x], 0)
    requires k + 1 < |s| ==> s[k + 1].prev == x
    requires forall i {:trigger s[i].next} :: 0 <= i < |s| && i != k - 1 && i != k ==> s[i].next == At(s, i + 1)
    requires forall i {:trigger s[i].prev} :: 0 < i < |s| && i != k + 1 && i != k ==> s[i].prev == s[i - 1]
    ensures Distinct(s[k := x]) && Linked(s[k := x])
  {
    var t := s[k := x];
    forall i {:trigger t[i].next} {:trigger t[i].prev} | 0 <= i < |t|
      ensures t[i].next == At(t, i + 1) && t[i].prev == Before(t, i)
    {
      if i != k { assert t[i] == s[i]; }
    }
  }

  /** cJSON_DetachItemFromArray */
  method DetachItemFromArray(parent: Node?, which: int, ghost s: seq<Node>) returns (out: Node?)
    requires parent != null ==> Children(parent, s)
    modifies Opt(parent)`child, s`next, s`prev
    ensures out == if parent == null then null else At(s, which)
    ensures parent != null ==> Children(parent, if 0 <= which < |s| then Without(s, which) else s)
  {
    hide Distinct, Linked;
    if which < 0 { return null; }
    var item := GetArrayItem(parent, which, s);
    out := DetachItemViaPointer(parent, item, s, which);
  }

  /** cJSON_ReplaceItemInArray */
  method ReplaceItemInArray(parent: Node?, which: int, newitem: Node?, ghost s: seq<Node>) returns (ok: bool)
    requires parent != null ==> Children(parent, s)
    requires parent != null && newitem != null && newitem in s ==> newitem == At(s, which)
    modifies Opt(parent)`child, Opt(newitem)`next, Opt(newitem)`prev, s`next, s`prev
    ensures ok <==> parent != null && newitem != null && 0 <= which < |s|
    ensures parent != null ==> Children(parent, if ok then s[which := newitem] else s)
  {
    hide Distinct, Linked;
    if which < 0 { return false; }
    var item := GetArrayItem(parent, which, s);
    ok := ReplaceItemViaPointer(parent, item, newitem, s, which);
  }
}
