/** HASH_ADD_INORDER: an item goes in front of the first one that compares greater. Building a table this
    way gives the order that appending everything and sorting gives. */
module UthashInorder {
  import opened Uthash
  import opened MergeSpec
  import opened Sequences
  import opened UthashSort

  // ---------------------------------------------------------------- the insertion point

  /** The insertion is the merge with a list of one. */
  lemma {:induction false} MergeOne<T>(cmp: Cmp<T>, s: seq<T>, x: T, k: nat)
    requires k <= |s| && (forall i :: 0 <= i < k ==> cmp(s[i], x) <= 0) && (k < |s| ==> cmp(s[k], x) > 0)
    ensures Merge(cmp, s, [x]) == Inserted(s, k, x)
    decreases k
  {
    hide Inserted;
    if k > 0 {
      MergeOne(cmp, s[1..], x, k - 1);
      InsertedTail(s, k, x);
    } else {
      InsertedFirst(s, x);
    }
  }

  lemma InsertedTail<T>(s: seq<T>, k: nat, x: T)
    requires 0 < k <= |s|
    ensures Inserted(s, k, x) == [s[0]] + Inserted(s[1..], k - 1, x)
  {
    assert s[..k] == [s[0]] + s[1..][..k - 1];
  }

  lemma InsertedFirst<T>(s: seq<T>, x: T)
    ensures Inserted(s, 0, x) == [x] + s
    ensures s == [] ==> Inserted(s, 0, x) == [x]
  {
  }

  /** Everything added in order, from the first on. */
  function AddedInOrder<T>(cmp: Cmp<T>, s: seq<T>): seq<T> {
    if s == [] then [] else Merge(cmp, AddedInOrder(cmp, s[..|s| - 1]), [s[|s| - 1]])
  }

  lemma {:induction false} AddedPermutes<T>(cmp: Cmp<T>, s: seq<T>)
    ensures multiset(AddedInOrder(cmp, s)) == multiset(s)
  {
    if s != [] {
      hide Merge;
      var n := |s| - 1;
      AddedPermutes(cmp, s[..n]);
      MergePermutes(cmp, AddedInOrder(cmp, s[..n]), [s[n]]);
      assert s == s[..n] + [s[n]];
    }
  }

  lemma AddedMembers<T>(cmp: Cmp<T>, s: seq<T>, x: T)
    requires x in AddedInOrder(cmp, s)
    ensures x in s
  {
    AddedPermutes(cmp, s);
    assert x in multiset(AddedInOrder(cmp, s));
  }

  lemma {:induction false} AddedSorts<T>(cmp: Cmp<T>, s: seq<T>)
    requires Preorder(cmp, s)
    ensures Sorted(cmp, AddedInOrder(cmp, s))
  {
    if s != [] {
      hide Merge, Preorder;
      var n := |s| - 1;
      var a := AddedInOrder(cmp, s[..n]);
      PreorderPart(cmp, s, s[..n]);
      AddedSorts(cmp, s[..n]);
      forall x | x in a ensures x in s { AddedMembers(cmp, s[..n], x); }
      PreorderPart(cmp, s, a + [s[n]]);
      MergeSorts(cmp, a, [s[n]]);
    }
  }

  lemma {:induction false} AddedStable<T>(cmp: Cmp<T>, x: T, s: seq<T>)
    requires Preorder(cmp, [x] + s)
    ensures Ties(cmp, x, AddedInOrder(cmp, s)) == Ties(cmp, x, s)
  {
    hide Merge, Preorder, Ties, Sorted;
    if s != [] {
      var n := |s| - 1;
      var a := AddedInOrder(cmp, s[..n]);
      PreorderPart(cmp, [x] + s, [x] + s[..n]);
      PreorderPart(cmp, [x] + s, s[..n]);
      AddedStable(cmp, x, s[..n]);
      AddedSorts(cmp, s[..n]);
      forall y | y in a ensures y in s { AddedMembers(cmp, s[..n], y); }
      PreorderPart(cmp, [x] + s, [x] + a + [s[n]]);
      MergeStable(cmp, x, a, [s[n]]);
      TiesConcat(cmp, x, s[..n], [s[n]]);
      assert s == s[..n] + [s[n]];
    }
  }

  // ---------------------------------------------------------------- one sorted, stable order

  lemma TiesHead<T>(cmp: Cmp<T>, x: T, s: seq<T>)
    requires s != []
    ensures Ties(cmp, x, s) == (if Tied(cmp, x, s[0]) then [s[0]] else []) + Ties(cmp, x, s[1..])
  {
  }

  lemma MultisetTail<T>(s: seq<T>)
    requires s != []
    ensures multiset(s[1..]) == multiset(s) - multiset{s[0]}
  {
    assert s == [s[0]] + s[1..];
  }

  /** Heads of sorted lists of the same elements are tied. */
  lemma HeadsTied<T>(cmp: Cmp<T>, a: seq<T>, b: seq<T>)
    requires a != [] && b != [] && Preorder(cmp, a) && Sorted(cmp, a) && Sorted(cmp, b) && multiset(a) == multiset(b)
    ensures Tied(cmp, a[0], a[0]) && Tied(cmp, a[0], b[0])
  {
    assert a[0] in a && b[0] in b;
    assert b[0] in multiset(a) && a[0] in multiset(b);
    var i :| 0 <= i < |a| && a[i] == b[0];
    var j :| 0 <= j < |b| && b[j] == a[0];
    assert cmp(a[0], a[0]) <= 0;
    assert i == 0 || cmp(a[0], a[i]) <= 0;
    assert j == 0 || cmp(b[0], b[j]) <= 0;
  }

  /** A sorted order that keeps ties as they were is the only one. */
  lemma {:induction false} OneStableOrder<T>(cmp: Cmp<T>, a: seq<T>, b: seq<T>)
    requires Preorder(cmp, a) && Sorted(cmp, a) && Sorted(cmp, b) && multiset(a) == multiset(b)
    requires forall x :: x in a ==> Ties(cmp, x, a) == Ties(cmp, x, b)
    ensures a == b
  {
    hide Preorder, Tied, Ties;
    assert |multiset(a)| == |a| && |multiset(b)| == |b|;
    if a != [] {
      HeadsTied(cmp, a, b);
      TiesHead(cmp, a[0], a);
      TiesHead(cmp, a[0], b);
      assert Ties(cmp, a[0], a)[0] == a[0] && Ties(cmp, a[0], b)[0] == b[0];
      MultisetTail(a);
      MultisetTail(b);
      PreorderPart(cmp, a, a[1..]);
      forall x | x in a[1..] ensures Ties(cmp, x, a[1..]) == Ties(cmp, x, b[1..]) {
        TiesHead(cmp, x, a);
        TiesHead(cmp, x, b);
        SameTail(if Tied(cmp, x, a[0]) then [a[0]] else [], Ties(cmp, x, a[1..]), Ties(cmp, x, b[1..]));
      }
      OneStableOrder(cmp, a[1..], b[1..]);
    }
  }

  lemma SameTail<T>(h: seq<T>, s: seq<T>, t: seq<T>)
    requires h + s == h + t
    ensures s == t
  {
    assert (h + s)[|h|..] == s && (h + t)[|h|..] == t;
  }

  /** Adding in order is appending and sorting afterwards. */
  lemma InOrderIsSort<T>(cmp: Cmp<T>, s: seq<T>)
    requires Preorder(cmp, s)
    ensures AddedInOrder(cmp, s) == SortFrom(cmp, s, 1)
  {
    hide Preorder, Sorted, Ties, SortFrom, AddedInOrder;
    var a, b := AddedInOrder(cmp, s), SortFrom(cmp, s, 1);
    SortCorrect(cmp, s);
    AddedPermutes(cmp, s);
    AddedSorts(cmp, s);
    forall x | x in a ensures x in s && Ties(cmp, x, a) == Ties(cmp, x, b) {
      AddedMembers(cmp, s, x);
      PreorderPart(cmp, s, [x] + s);
      AddedStable(cmp, x, s);
    }
    PreorderPart(cmp, s, a);
    OneStableOrder(cmp, a, b);
  }

  // ---------------------------------------------------------------- the operation

  /** HASH_AKBI_INNER_LOOP: the first item that compares greater than x, or the end. */
  method FirstGreater(t: HashTable, cmp: Cmp<Item>, x: Item) returns (iter: Item?, ghost k: nat)
    requires t.OrderFor(t.items) && t.head != null
    ensures k <= |t.order| && iter == At(t.order, k)
    ensures iter == null ==> forall y :: y in t.order ==> cmp(y, x) <= 0
    ensures iter != null ==> cmp(iter, x) > 0
    ensures (forall i :: 0 <= i < k ==> cmp(t.order[i], x) <= 0) && (k < |t.order| ==> cmp(t.order[k], x) > 0)
  {
    hide Distinct, DistinctKeys;
    iter, k := t.head, 0;
    while iter != null
      invariant k <= |t.order| && iter == At(t.order, k)
      invariant forall i :: 0 <= i < k ==> cmp(t.order[i], x) <= 0
      decreases |t.order| - k
    {
      if cmp(iter, x) > 0 { break; }
      assert iter == t.order[k] && iter.next == At(t.order, k + 1);
      iter := iter.next;
      k := k + 1;
    }
  }

  /** The links of x in front of `iter`. */
  method HookBefore(t: HashTable, x: Item, iter: Item, ghost k: nat)
    requires Listed(t.order) && Distinct(t.order) && k < |t.order| && t.order[k] == iter && x !in t.order
    requires t.head == At(t.order, 0) && DistinctKeys(t.order)
    requires forall i :: 0 <= i < |t.order| ==> t.order[i].key != x.key
    modifies t`head, x`prev, x`next, t.order`prev, t.order`next
    ensures var s := Inserted(t.order, k, x);
      && Listed(s) && Distinct(s) && DistinctKeys(s) && (forall y :: y in s <==> y in t.order || y == x)
      && s[|s| - 1] == t.order[|t.order| - 1] && t.head == At(s, 0)
  {
    hide DistinctKeys, Distinct, Inserted;
    ghost var o := t.order;
    Neighbours(o, k);
    assert iter.prev == At(o, k - 1);
    x.next := iter;
    x.prev := iter.prev;
    if x.prev != null {
      x.prev.next := x;
    } else {
      t.head := x;
    }
    iter.prev := x;
    assert forall j {:trigger o[j].prev} :: 0 <= j < |o| && j != k ==> o[j].prev == At(o, j - 1);
    assert forall j {:trigger o[j].next} :: 0 <= j < |o| && j != k - 1 ==> o[j].next == At(o, j + 1);
    InsertedListed(o, k, x);
  }

  /** x goes in front of `iter`. */
  method LinkBefore(t: HashTable, x: Item, iter: Item, ghost k: nat)
    requires t.OrderFor(t.items) && k < |t.order| && t.order[k] == iter && x !in t.items
    requires forall i :: 0 <= i < |t.order| ==> t.order[i].key != x.key
    modifies t`head, t`order, x`prev, x`next, t.items`prev, t.items`next
    ensures t.OrderFor(t.items + {x}) && t.order == Inserted(old(t.order), k, x)
  {
    hide DistinctKeys, Distinct, Listed, Inserted, HashTable.OrderFor;
    HeadOf(t);
    TailOf(t);
    HookBefore(t, x, iter, k);
    t.order := Inserted(t.order, k, x);
    Rethreaded(t, t.items + {x});
  }

  lemma TailOf(t: HashTable)
    requires t.OrderFor(t.items)
    ensures t.order != [] ==> t.tail == At(t.order, |t.order| - 1)
  {
  }

  lemma Rethreaded(t: HashTable, items: set<Item>)
    requires t.order != [] && t.head == At(t.order, 0) && t.tail == At(t.order, |t.order| - 1)
    requires Distinct(t.order) && DistinctKeys(t.order) && Listed(t.order)
    requires forall x :: x in t.order <==> x in items
    ensures t.OrderFor(items)
  {
  }

  lemma InsertedListed(o: seq<Item>, k: nat, x: Item)
    requires k < |o| && x !in o && Distinct(o) && DistinctKeys(o) && forall i :: 0 <= i < |o| ==> o[i].key != x.key
    requires x.next == o[k] && x.prev == At(o, k - 1) && o[k].prev == x && (k > 0 ==> o[k - 1].next == x)
    requires forall j {:trigger o[j].prev} :: 0 <= j < |o| && j != k ==> o[j].prev == At(o, j - 1)
    requires forall j {:trigger o[j].next} :: 0 <= j < |o| && j != k - 1 ==> o[j].next == At(o, j + 1)
    ensures var s := Inserted(o, k, x);
      && Listed(s) && Distinct(s) && DistinctKeys(s) && (forall y :: y in s <==> y in o || y == x)
      && |s| == |o| + 1 && s[0] == (if k == 0 then x else o[0]) && s[|o|] == o[|o| - 1]
  {
    var s := Inserted(o, k, x);
    forall i {:trigger s[i].prev} {:trigger s[i].next} | 0 <= i < |s|
      ensures s[i].prev == At(s, i - 1) && s[i].next == At(s, i + 1)
    {
      if i < k { assert s[i] == o[i]; } else if i > k { assert s[i] == o[i - 1]; }
    }
    forall i, j | 0 <= i < j < |s| ensures s[i] != s[j] && s[i].key != s[j].key {
      assert i != k ==> s[i] == o[if i < k then i else i - 1];
      assert j != k ==> s[j] == o[if j < k then j else j - 1];
    }
    forall y | y in o ensures y in s {
      var i :| 0 <= i < |o| && o[i] == y;
      assert s[if i < k then i else i + 1] == y;
    }
  }

  /** The list half of the addition to a table that is not empty. */
  method PlaceInorder(t: HashTable, x: Item, cmp: Cmp<Item>)
    requires t.OrderFor(t.items) && t.head != null && x !in t.items
    requires forall i :: 0 <= i < |t.order| ==> t.order[i].key != x.key
    modifies t`head, t`tail, t`order, x`prev, x`next, t.items`prev, t.items`next
    ensures t.order == Merge(cmp, old(t.order), [x]) && t.OrderFor(t.items + {x})
  {
    hide HashTable.OrderFor, Merge;
    ghost var o := t.order;
    var iter, k := FirstGreater(t, cmp, x);
    MergeOne(cmp, o, x, k);
    if iter != null {
      LinkBefore(t, x, iter, k);
    } else {
      assert Inserted(o, k, x) == o + [x];
      t.HeadNull();
      t.AppendList(x);
    }
  }

  /** The first half of HASH_ADD_KEYPTR_BYHASHVALUE_INORDER. */
  method EnlistInorder(t: HashTable, x: Item, cmp: Cmp<Item>)
    requires t.Valid() && x !in t.items && x.key !in Stored(t.order)
    requires t.order != [] ==> t.log2NumBuckets < 31
    modifies t, x`hashv, x`prev, x`next, t.items`prev, t.items`next
    ensures t.order == Merge(cmp, old(t.order), [x]) && t.items == old(t.items) && t.OrderFor(t.items + {x})
    ensures t.BucketsOk() && t.PlacedOk() && t.HashesOk() && t.numItems == |t.items| == SumLengths(t.chains)
    ensures x.hashv == t.hash(x.key) && t.log2NumBuckets < 31 && (t.buckets == old(t.buckets) || fresh(t.buckets))
  {
    hide HashTable.BucketsOk, HashTable.PlacedOk, HashTable.HashesOk, HashTable.OrderFor, Stored, SumLengths, Merge;
    NewKey(t.order, x);
    t.HeadNull();
    x.hashv := t.hash(x.key);
    if t.head == null {
      MergeNone(cmp, x);
      t.StartTable(x);
    } else {
      PlaceInorder(t, x, cmp);
    }
  }

  lemma MergeNone(cmp: Cmp<Item>, x: Item)
    ensures Merge(cmp, [], [x]) == [x]
  {
  }

  lemma KeysOf(t: HashTable, items: set<Item>)
    requires t.OrderFor(items)
    ensures DistinctKeys(t.order)
  {
  }

  /** Merging a new item in adds it to the map. */
  lemma MergedStored(cmp: Cmp<Item>, was: seq<Item>, x: Item)
    requires DistinctKeys(was) && x.key !in Stored(was) && DistinctKeys(Merge(cmp, was, [x]))
    ensures Stored(Merge(cmp, was, [x])) == Stored(was)[x.key := x]
  {
    hide Stored, Merge, DistinctKeys;
    var s, t := was + [x], Merge(cmp, was, [x]);
    MergePermutes(cmp, was, [x]);
    assert forall y :: y in t <==> y in multiset(t);
    assert forall y :: y in s <==> y in multiset(s);
    NewKey(was, x);
    AppendDistinct(was, x);
    SameStored(s, t);
    StoredAppend(was, x);
  }

  /** HASH_ADD_KEYPTR_INORDER with a new key: merged into the order; a sorted order stays sorted. */
  method AddInorder(t: HashTable, x: Item, cmp: Cmp<Item>)
    requires t.Valid() && x !in t.items && x.key !in Stored(t.order)
    requires t.order != [] ==> t.log2NumBuckets < 31
    modifies t, t.buckets, x, t.items
    ensures t.Valid() && t.order == Merge(cmp, old(t.order), [x]) && t.items == old(t.items) + {x}
    ensures t.buckets == old(t.buckets) || fresh(t.buckets)
    ensures Stored(t.order) == Stored(old(t.order))[x.key := x]
  {
    hide HashTable.BucketsOk, HashTable.PlacedOk, HashTable.HashesOk, HashTable.OrderFor, Stored, SumLengths, Merge,
      DistinctKeys;
    KeysOf(t, t.items);
    EnlistInorder(t, x, cmp);
    KeysOf(t, t.items + {x});
    MergedStored(cmp, old(t.order), x);
    t.AddToTable(x);
  }

  /** HASH_REPLACE_INORDER, also of an item by itself. */
  method ReplaceInorder(t: HashTable, x: Item, cmp: Cmp<Item>) returns (replaced: Item?, ghost k: nat)
    requires t.Valid()
    requires t.order != [] ==> t.log2NumBuckets < 31
    modifies t, t.buckets, x, t.items
    ensures t.Valid() && t.items == old(t.items) - {replaced} + {x}
    ensures replaced == if x.key in Stored(old(t.order)) then Stored(old(t.order))[x.key] else null
    ensures Stored(t.order) == Stored(old(t.order))[x.key := x]
    ensures replaced == null ==> t.order == Merge(cmp, old(t.order), [x])
    ensures replaced != null ==>
      k < |old(t.order)| && old(t.order)[k] == replaced && t.order == Merge(cmp, Without(old(t.order), k), [x])
    ensures t.buckets == old(t.buckets) || fresh(t.buckets)
  {
    hide HashTable.Valid, Stored, Without, Merge;
    MapPut(Stored(t.order), x.key, x);
    t.UnderOwnKey(x);
    replaced := t.Find(x.key);
    k := 0;
    if replaced != null {
      t.Holds(replaced);
      k := t.Delete(replaced);
    }
    AddInorder(t, x, cmp);
  }
}
