/** Whole runs of a table: it never disagrees with a plain map and a plain sequence. */
module UthashRun {
  import opened Sequences
  import opened Uthash
  import opened MergeSpec
  import opened UthashSort
  import opened UthashInorder

  /** HASH_REPLACE (an addition, when the key is new), HASH_REPLACE_INORDER, HASH_FIND and HASH_DELETE, HASH_SORT */
  datatype Op = Put(item: Item) | PutInorder(item: Item, cmp: Cmp<Item>) | Remove(key: Key) | SortBy(cmp: Cmp<Item>)

  /** The items an operation brings to the table. */
  function Brings(op: Op): set<Item> { if op.Put? || op.PutInorder? then {op.item} else {} }

  /** The order without the items under `key`. */
  function Others(order: seq<Item>, key: Key): (r: seq<Item>)
    ensures forall x :: x in r ==> x in order && x.key != key
    ensures forall x :: x in order && x.key != key ==> x in r
  {
    if order == [] then []
    else (if order[0].key == key then [] else [order[0]]) + Others(order[1..], key)
  }

  /** What an operation does to the application order. */
  function Reordered(order: seq<Item>, op: Op): seq<Item> {
    match op
    case Put(x) => Others(order, x.key) + [x]
    case PutInorder(x, cmp) => Merge(cmp, Others(order, x.key), [x])
    case Remove(key) => Others(order, key)
    case SortBy(cmp) => SortFrom(cmp, order, 1)
  }

  function ReorderedAll(order: seq<Item>, ops: seq<Op>): seq<Item> {
    if ops == [] then order else Reordered(ReorderedAll(order, ops[..|ops| - 1]), ops[|ops| - 1])
  }

  /** What it does to the map. */
  function Updated(m: map<Key, Item>, op: Op): map<Key, Item> {
    match op
    case Put(x) => m[x.key := x]
    case PutInorder(x, _) => m[x.key := x]
    case Remove(key) => m - {key}
    case SortBy(_) => m
  }

  function UpdatedAll(m: map<Key, Item>, ops: seq<Op>): map<Key, Item> {
    if ops == [] then m else Updated(UpdatedAll(m, ops[..|ops| - 1]), ops[|ops| - 1])
  }

  lemma {:induction false} NoOthers(order: seq<Item>, key: Key)
    requires forall x :: x in order ==> x.key != key
    ensures Others(order, key) == order
  {
    if order != [] {
      assert order[0] in order;
      NoOthers(order[1..], key);
    }
  }

  lemma {:induction false} OthersWithout(order: seq<Item>, k: nat)
    requires k < |order| && DistinctKeys(order)
    ensures Others(order, order[k].key) == Without(order, k)
  {
    hide Without, DistinctKeys;
    TailKeys(order, k);
    if k == 0 {
      NoOthers(order[1..], order[0].key);
    } else {
      OthersWithout(order[1..], k - 1);
    }
  }

  lemma TailKeys(order: seq<Item>, k: nat)
    requires k < |order| && DistinctKeys(order)
    ensures DistinctKeys(order[1..]) && (forall x :: x in order[1..] ==> x.key != order[0].key)
    ensures k == 0 ==> Without(order, k) == order[1..]
    ensures k > 0 ==>
      order[1..][k - 1] == order[k] && order[0].key != order[k].key &&
        Without(order, k) == [order[0]] + Without(order[1..], k - 1)
  {
  }

  lemma Keys(t: HashTable)
    requires t.Valid()
    ensures DistinctKeys(t.order)
    ensures forall x :: x in t.order <==> x in t.items
    ensures t.head == null <==> t.order == []
    ensures t.head != null ==> t.numItems == |t.order|
  {
    hide Stored;
  }

  /** One operation. It is skipped, and reported, when the bucket count or the item count has reached
      what their 32-bit fields can hold. */
  method Step(t: HashTable, op: Op) returns (ok: bool)
    requires t.Valid()
    modifies t, t.buckets, t.items, Brings(op)
    ensures t.Valid()
    ensures ok ==> t.order == Reordered(old(t.order), op) && Stored(t.order) == Updated(Stored(old(t.order)), op)
    ensures t.items <= old(t.items) + Brings(op)
    ensures t.buckets == old(t.buckets) || fresh(t.buckets)
    ensures !ok ==> t.order == old(t.order) && (t.log2NumBuckets >= 31 || |t.order| >= UNSIGNED)
  {
    hide HashTable.Valid, Stored, DistinctKeys, Without, SortFrom;
    Keys(t);
    ghost var o := t.order;
    match op
    case Put(x) =>
      if t.head != null && t.log2NumBuckets >= 31 { return false; }
      var replaced, k := t.Replace(x);
      if replaced == null {
        NoOthers(o, x.key);
      } else {
        OthersWithout(o, k);
      }
      return true;
    case PutInorder(x, cmp) =>
      if t.head != null && t.log2NumBuckets >= 31 { return false; }
      var replaced, k := ReplaceInorder(t, x, cmp);
      if replaced == null {
        NoOthers(o, x.key);
      } else {
        OthersWithout(o, k);
      }
      return true;
    case Remove(key) =>
      var x := t.Find(key);
      if x != null {
        ghost var k := t.Delete(x);
        OthersWithout(o, k);
      } else {
        NoOthers(o, key);
      }
      return true;
    case SortBy(cmp) =>
      if t.head != null && t.numItems >= UNSIGNED { return false; }
      Sort(t, cmp);
      return true;
  }

  function ItemsOf(ops: seq<Op>): set<Item> { set i, x | 0 <= i < |ops| && x in Brings(ops[i]) :: x }

  lemma OneMore(order: seq<Item>, m: map<Key, Item>, ops: seq<Op>, n: nat)
    requires n < |ops|
    ensures ReorderedAll(order, ops[..n + 1]) == Reordered(ReorderedAll(order, ops[..n]), ops[n])
    ensures UpdatedAll(m, ops[..n + 1]) == Updated(UpdatedAll(m, ops[..n]), ops[n])
  {
    hide Reordered, Updated;
    assert ops[..n + 1][..n] == ops[..n];
  }

  lemma BroughtSoFar(ops: seq<Op>, n: nat)
    requires n < |ops|
    ensures ItemsOf(ops[..n + 1]) == ItemsOf(ops[..n]) + Brings(ops[n])
    ensures ItemsOf(ops[..n]) <= ItemsOf(ops) && Brings(ops[n]) <= ItemsOf(ops)
  {
    hide Brings;
    var a, b := ItemsOf(ops[..n + 1]), ItemsOf(ops[..n]);
    forall x | x in Brings(ops[n]) ensures x in a {
      assert x in Brings(ops[..n + 1][n]);
    }
    forall x | x in b ensures x in a && x in ItemsOf(ops) {
      var i :| 0 <= i < n && x in Brings(ops[..n][i]);
      assert x in Brings(ops[..n + 1][i]) && x in Brings(ops[i]);
    }
  }

  /** Any run, items put back after their removal and items put again included: the operations done leave
      the table in agreement with the same operations on a plain map and a plain sequence. It stops early only
      when a 32-bit counter is used up. */
  method Run(t: HashTable, ops: seq<Op>) returns (done: nat)
    requires t.Valid()
    modifies t, t.buckets, t.items, ItemsOf(ops)
    ensures t.Valid() && done <= |ops|
    ensures t.order == ReorderedAll(old(t.order), ops[..done])
    ensures Stored(t.order) == UpdatedAll(Stored(old(t.order)), ops[..done])
    ensures done < |ops| ==> t.log2NumBuckets >= 31 || |t.order| >= UNSIGNED
  {
    hide HashTable.Valid, Stored, Reordered, Updated, ItemsOf, Brings;
    done := 0;
    ghost var was, items := t.order, t.items;
    StartRun(was, ops);
    while done < |ops|
      invariant t.Valid() && done <= |ops|
      invariant t.order == ReorderedAll(was, ops[..done])
      invariant Stored(t.order) == UpdatedAll(Stored(was), ops[..done])
      invariant t.items <= items + ItemsOf(ops[..done])
      invariant ItemsOf(ops[..done]) <= ItemsOf(ops)
      invariant t.buckets == old(t.buckets) || fresh(t.buckets)
    {
      BroughtSoFar(ops, done);
      OneMore(was, Stored(was), ops, done);
      var ok := Step(t, ops[done]);
      if !ok { return; }
      done := done + 1;
    }
  }

  lemma StartRun(order: seq<Item>, ops: seq<Op>)
    ensures ReorderedAll(order, ops[..0]) == order
    ensures UpdatedAll(Stored(order), ops[..0]) == Stored(order)
    ensures ItemsOf(ops[..0]) == {}
  {
    hide Stored;
  }
}
