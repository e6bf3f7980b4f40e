/** The intrusive hash table of uthash.h: every item is threaded through two doubly linked lists, the
    chain of its bucket and the application order. HASH_FSCK's checks are part of the invariant. */
module Uthash {
  import opened Bits
  import opened Sequences

  type Key = seq<int>

  /** An element with its UT_hash_handle. */
  class Item {
    const key: Key
    var hashv: nat
    var prev: Item?
    var next: Item?
    var hhPrev: Item?
    var hhNext: Item?

    constructor (key: Key)
      ensures this.key == key
    {
      this.key := key;
      hashv := 0;
      prev, next, hhPrev, hhNext := null, null, null, null;
    }
  }

  /** UT_hash_bucket */
  datatype Bucket = Bucket(hhHead: Item?, count: nat, expandMult: nat)

  const INITIAL_NUM_BUCKETS: nat := 32
  const INITIAL_LOG2: nat := 5
  const CAPACITY_THRESH: nat := 10

  // ---------------------------------------------------------------- sequences of items

  /** What a neighbour pointer shows: the i-th element, or null outside. */
  function At(s: seq<Item>, i: int): Item? { if 0 <= i < |s| then s[i] else null }

  ghost predicate DistinctKeys(s: seq<Item>) {
    forall i, j :: 0 <= i < j < |s| ==> s[i].key != s[j].key
  }

  /** `prev` and `next` follow the sequence. */
  ghost predicate Listed(s: seq<Item>)
    reads s`prev, s`next
  {
    forall i {:trigger s[i].prev} {:trigger s[i].next} :: 0 <= i < |s| ==>
      s[i].prev == At(s, i - 1) && s[i].next == At(s, i + 1)
  }

  /** `hh_prev` and `hh_next` follow the sequence. */
  ghost predicate Chained(c: seq<Item>)
    reads c`hhPrev, c`hhNext
  {
    forall i {:trigger c[i].hhPrev} {:trigger c[i].hhNext} :: 0 <= i < |c| ==>
      c[i].hhPrev == At(c, i - 1) && c[i].hhNext == At(c, i + 1)
  }

  lemma WithoutAt(s: seq<Item>, k: nat, i: nat)
    requires k < |s| && i + 1 < |s|
    ensures var t := Without(s, k);
      && t[i] == (if i < k then s[i] else s[i + 1])
      && At(t, i - 1) == (if i <= k then At(s, i - 1) else At(s, i))
      && At(t, i + 1) == (if i + 1 < k then At(s, i + 1) else At(s, i + 2))
  {
  }

  lemma WithoutDistinct(s: seq<Item>, k: nat)
    requires k < |s| && Distinct(s)
    ensures Distinct(Without(s, k)) && s[k] !in Without(s, k)
    ensures forall x :: x in s && x != s[k] ==> x in Without(s, k)
    ensures forall x :: x in Without(s, k) ==> x in s
  {
    forall x | x in s && x != s[k] ensures x in Without(s, k) {
      var i :| 0 <= i < |s| && s[i] == x;
      assert Without(s, k)[if i < k then i else i - 1] == x;
    }
  }

  // ---------------------------------------------------------------- the map a table stands for

  /** The plain map: the item stored under each key. */
  function Stored(order: seq<Item>): (m: map<Key, Item>)
    ensures forall x :: x in order ==> x.key in m
    ensures forall k :: k in m ==> m[k] in order && m[k].key == k
  {
    if order == [] then map[] else
    var n := |order| - 1;
    Stored(order[..n])[order[n].key := order[n]]
  }

  /** With distinct keys every item is found under its own. */
  lemma {:induction false} StoredItem(order: seq<Item>, x: Item)
    requires DistinctKeys(order) && x in order
    ensures Stored(order)[x.key] == x
  {
    var y := Stored(order)[x.key];
    assert y in order && y.key == x.key;
  }

  lemma EmptyStored(order: seq<Item>)
    requires order == []
    ensures Stored(order) == map[]
  {
  }

  lemma StoredAppend(order: seq<Item>, x: Item)
    ensures Stored(order + [x]) == Stored(order)[x.key := x]
  {
    assert (order + [x])[..|order|] == order;
  }

  lemma WithoutIndex(s: seq<Item>, k: nat, x: Item) returns (j: nat)
    requires k < |s| && x in Without(s, k)
    ensures j < |s| && j != k && s[j] == x
  {
    var i :| 0 <= i < |Without(s, k)| && Without(s, k)[i] == x;
    j := if i < k then i else i + 1;
  }

  lemma WithoutKeeps(s: seq<Item>, k: nat, x: Item)
    requires k < |s| && x in s && x != s[k]
    ensures x in Without(s, k)
  {
    var i :| 0 <= i < |s| && s[i] == x;
    assert Without(s, k)[if i < k then i else i - 1] == x;
  }

  lemma KeysWithout(order: seq<Item>, k: nat)
    requires k < |order| && DistinctKeys(order)
    ensures DistinctKeys(Without(order, k))
  {
    var t := Without(order, k);
    forall i, j | 0 <= i < j < |t| ensures t[i].key != t[j].key {
      assert t[i] == order[if i < k then i else i + 1];
      assert t[j] == order[if j < k then j else j + 1];
    }
  }

  lemma StoredWithout(order: seq<Item>, k: nat)
    requires k < |order| && DistinctKeys(order)
    ensures Stored(Without(order, k)) == Stored(order) - {order[k].key}
  {
    hide Stored, Without, DistinctKeys;
    var t := Without(order, k);
    KeysWithout(order, k);
    var m, m' := Stored(order) - {order[k].key}, Stored(t);
    forall q | q in m ensures q in m' && m'[q] == m[q] {
      WithoutKeeps(order, k, m[q]);
      StoredItem(t, m[q]);
    }
    forall q | q in m' ensures q in m {
      var j := WithoutIndex(order, k, m'[q]);
      KeyElsewhere(order, j, k);
    }
  }

  lemma KeyElsewhere(order: seq<Item>, j: nat, k: nat)
    requires j < |order| && k < |order| && j != k && DistinctKeys(order)
    ensures order[j].key != order[k].key
  {
  }

  // ---------------------------------------------------------------- chains

  function SumLengths(chains: seq<seq<Item>>): nat {
    if chains == [] then 0 else SumLengths(chains[..|chains| - 1]) + |chains[|chains| - 1]|
  }

  lemma {:induction false} SumUpdate(chains: seq<seq<Item>>, b: nat, c: seq<Item>)
    requires b < |chains|
    ensures SumLengths(chains[b := c]) == SumLengths(chains) - |chains[b]| + |c|
  {
    var n := |chains| - 1;
    if b < n {
      SumUpdate(chains[..n], b, c);
      assert chains[b := c][..n] == chains[..n][b := c];
    } else {
      assert chains[b := c][..n] == chains[..n];
    }
  }

  /** A bucket agrees with its chain. */
  ghost predicate BucketOk(b: Bucket, c: seq<Item>)
    reads c`hhPrev, c`hhNext
  {
    b.hhHead == At(c, 0) && b.count == |c| && Chained(c)
  }

  /** Every item is in the chain of its own bucket, once, and nothing else is. */
  ghost predicate Placed(chains: seq<seq<Item>>, items: set<Item>, hash: Key -> nat) {
    && |chains| > 0
    && (forall b :: 0 <= b < |chains| ==> Distinct(chains[b]))
    && (forall b, x :: 0 <= b < |chains| && x in chains[b] ==> x in items && hash(x.key) % |chains| == b)
    && (forall x :: x in items ==> x in chains[hash(x.key) % |chains|])
  }

  lemma PlacedPush(chains: seq<seq<Item>>, items: set<Item>, hash: Key -> nat, b: nat, x: Item)
    requires Placed(chains, items, hash) && b < |chains| && x !in items && hash(x.key) % |chains| == b
    ensures Placed(chains[b := [x] + chains[b]], items + {x}, hash)
  {
    var c := [x] + chains[b];
    assert Distinct(c);
    assert forall y :: y in c <==> y == x || y in chains[b];
  }

  lemma PlacedRemove(chains: seq<seq<Item>>, items: set<Item>, hash: Key -> nat, b: nat, k: nat)
    requires Placed(chains, items, hash) && b < |chains| && k < |chains[b]|
    ensures Placed(chains[b := Without(chains[b], k)], items - {chains[b][k]}, hash)
  {
    hide Distinct, Without;
    var c, x := Without(chains[b], k), chains[b][k];
    WithoutMembers(chains[b], k);
    WithoutDistinct(chains[b], k);
    var chains', items' := chains[b := c], items - {x};
    assert hash(x.key) % |chains| == b;
    forall i, y | 0 <= i < |chains'| && y in chains'[i] ensures y in items' && hash(y.key) % |chains'| == i {
      if i == b { assert y in chains[b] && y != x; } else { assert y in chains[i]; }
    }
    forall y | y in items' ensures y in chains'[hash(y.key) % |chains'|] {
      assert y in chains[hash(y.key) % |chains|];
    }
  }

  // ---------------------------------------------------------------- doubling the buckets

  /** The bucket of n that the items of new bucket j (of 2n) come from. */
  function Source(j: nat, n: nat): nat { if j < n then j else j - n }

  /** Pushing onto new bucket j, one by one, the items of a chain that belong there. */
  function PushAll(c: seq<Item>, hash: Key -> nat, m: nat, j: nat): (r: seq<Item>)
    requires m > 0
    ensures forall x :: x in r ==> x in c && hash(x.key) % m == j
  {
    if c == [] then [] else
    var x, r := c[|c| - 1], PushAll(c[..|c| - 1], hash, m, j);
    if hash(x.key) % m == j then [x] + r else r
  }

  lemma {:induction false} PushAllKeeps(c: seq<Item>, hash: Key -> nat, m: nat, j: nat, x: Item)
    requires m > 0 && x in c && hash(x.key) % m == j
    ensures x in PushAll(c, hash, m, j)
  {
    var n := |c| - 1;
    if c[n] != x {
      assert c == c[..n] + [c[n]];
      PushAllKeeps(c[..n], hash, m, j, x);
    }
  }

  /** A new chain is the old one's items that belong there, in reverse. */
  lemma {:induction false} PushAllReverses(c: seq<Item>, hash: Key -> nat, m: nat, j: nat)
    requires m > 0 && c != []
    ensures PushAll(c, hash, m, j) == PushAll(c[1..], hash, m, j) + (if hash(c[0].key) % m == j then [c[0]] else [])
  {
    var n := |c| - 1;
    if n > 0 {
      PushAllReverses(c[..n], hash, m, j);
      assert c[1..][..n - 1] == c[..n][1..];
      assert c[1..][n - 1] == c[n] && c[..n][0] == c[0];
    } else {
      assert PushAll(c[..n], hash, m, j) == [] && PushAll(c[1..], hash, m, j) == [];
    }
  }

  /** Doubling sends an item of bucket i to bucket i or i + n. */
  lemma Split(h: nat, n: nat)
    requires n > 0
    ensures h % (2 * n) == h % n || h % (2 * n) == h % n + n
    ensures Source(h % (2 * n), n) == h % n
  {
    var q, r := h / n, h % n;
    var p, e := q / 2, q % 2;
    assert h == n * q + r;
    HalfProduct(n, p, e);
    assert q == 2 * p + e;
    DivModUnique(h, 2 * n, p, n * e + r);
  }

  lemma HalfProduct(n: nat, p: nat, e: nat)
    requires e < 2
    ensures n * (2 * p + e) == (2 * n) * p + n * e
    ensures n * e == if e == 0 then 0 else n
  {
  }

  function CeilDiv(a: nat, d: nat): nat
    requires d > 0
  {
    a / d + (if a % d != 0 then 1 else 0)
  }

  /** ceil(a / d) is the least multiple count of d that reaches a. */
  lemma CeilDivIs(a: nat, d: nat, q: nat)
    requires d > 0
    ensures a <= d * q <==> CeilDiv(a, d) <= q
  {
    var e := CeilDiv(a, d);
    assert a == d * (a / d) + a % d;
    if q >= e {
      MulMonotone(d, e, q);
    } else {
      MulMonotone(d, q + 1, e);
    }
  }

  lemma MulMonotone(d: nat, a: nat, b: nat)
    requires a <= b
    ensures d * a <= d * b
    ensures d * (a + 1) == d * a + d
  {
  }

  function Excess(count: nat, ideal: nat): nat { if count > ideal then count - ideal else 0 }

  /** Items beyond the ideal chain length, over all chains. */
  function SumExcess(chains: seq<seq<Item>>, ideal: nat): nat {
    if chains == [] then 0 else SumExcess(chains[..|chains| - 1], ideal) + Excess(|chains[|chains| - 1]|, ideal)
  }

  /** The ends of the chains, without the first `ideal` items of each. */
  function Beyond(chains: seq<seq<Item>>, ideal: nat): (r: seq<seq<Item>>)
    ensures |r| == |chains|
  {
    seq(|chains|, b requires 0 <= b < |chains| => if |chains[b]| > ideal then chains[b][ideal..] else [])
  }

  /** So it is the number of items that stand behind the first `ideal` of their chain. */
  lemma {:induction false} ExcessIs(chains: seq<seq<Item>>, ideal: nat)
    ensures SumExcess(chains, ideal) == SumLengths(Beyond(chains, ideal))
  {
    if chains != [] {
      var n := |chains| - 1;
      ExcessIs(chains[..n], ideal);
      assert Beyond(chains, ideal)[..n] == Beyond(chains[..n], ideal);
    }
  }

  lemma {:induction false} ExcessUpdate(chains: seq<seq<Item>>, ideal: nat, b: nat, c: seq<Item>)
    requires b < |chains|
    ensures SumExcess(chains[b := c], ideal) ==
      SumExcess(chains, ideal) - Excess(|chains[b]|, ideal) + Excess(|c|, ideal)
  {
    var n := |chains| - 1;
    if b < n {
      ExcessUpdate(chains[..n], ideal, b, c);
      assert chains[b := c][..n] == chains[..n][b := c];
    } else {
      assert chains[b := c][..n] == chains[..n];
    }
  }

  /** expand_mult after filling a bucket to `count`: 0 up to the ideal length; 1 for one item more; from then on
      the number of ideal lengths the chain takes, but one less when the ideal length is 1. */
  predicate MultOk(count: nat, mult: nat, ideal: nat) {
    if count <= ideal then mult == 0
    else if ideal == 1 then mult == count - 1
    else if count == ideal + 1 then mult == 1
    else ideal * (mult - 1) < count <= ideal * mult
  }

  lemma MultStep(count: nat, mult: nat, ideal: nat)
    requires MultOk(count, mult, ideal) && ideal > 0
    ensures count + 1 <= ideal ==> MultOk(count + 1, mult, ideal)
    ensures count + 1 > ideal && count + 1 > mult * ideal ==> MultOk(count + 1, mult + 1, ideal)
    ensures count + 1 > ideal && count + 1 <= mult * ideal ==> MultOk(count + 1, mult, ideal)
  {
    assert mult * ideal == ideal * mult;
    assert ideal * (mult + 1) == ideal * mult + ideal;
    assert ideal * (mult - 1) == ideal * mult - ideal;
    if count == ideal + 1 { assert ideal * 1 == ideal; }
  }

  /** So expand_mult is ceil(count / ideal) for a chain longer than ideal, but one less for the first item beyond
      it and where the ideal length is 1. */
  lemma MultBound(count: nat, mult: nat, ideal: nat)
    requires MultOk(count, mult, ideal) && ideal > 0
    ensures count > ideal ==> mult == CeilDiv(count, ideal) - if ideal == 1 || count == ideal + 1 then 1 else 0
  {
    if count > ideal + 1 && ideal > 1 {
      if mult > 0 { CeilDivIs(count, ideal, mult - 1); }
      CeilDivIs(count, ideal, mult);
    } else if count == ideal + 1 && ideal > 1 {
      CeilDivIs(count, ideal, 1);
      CeilDivIs(count, ideal, 2);
    }
  }

  lemma {:induction false} EmptySums(chains: seq<seq<Item>>, ideal: nat)
    requires forall b :: 0 <= b < |chains| ==> chains[b] == []
    ensures SumLengths(chains) == 0 && SumExcess(chains, ideal) == 0
  {
    if chains != [] { EmptySums(chains[..|chains| - 1], ideal); }
  }

  /** The new bucket array agrees with the new chains, and so do the counters. */
  ghost predicate Filled(bs: seq<Bucket>, news: seq<seq<Item>>, items: set<Item>, ideal: nat, nonideal: nat)
    reads items`hhPrev, items`hhNext
  {
    && |bs| == |news|
    && (forall j, x :: 0 <= j < |news| && x in news[j] ==> x in items)
    && (forall j :: 0 <= j < |news| ==> BucketOk(bs[j], news[j]))
    && (forall j :: 0 <= j < |news| ==> MultOk(|news[j]|, bs[j].expandMult, ideal))
    && nonideal == SumExcess(news, ideal)
  }

  lemma FilledStart(bs: seq<Bucket>, news: seq<seq<Item>>, items: set<Item>, ideal: nat)
    requires |bs| == |news|
    requires forall j :: 0 <= j < |bs| ==> bs[j] == Bucket(null, 0, 0) && news[j] == []
    ensures Filled(bs, news, items, ideal, 0)
  {
    EmptySums(news, ideal);
  }

  /** The items still to be moved are linked as before. */
  ghost predicate Waiting(olds: seq<seq<Item>>, moved: set<Item>, items: set<Item>)
    reads items`hhNext
  {
    forall b, t {:trigger olds[b][t].hhNext} ::
      0 <= b < |olds| && 0 <= t < |olds[b]| && olds[b][t] in items && olds[b][t] !in moved ==>
      olds[b][t].hhNext == At(olds[b], t + 1)
  }

  lemma NextWaiting(olds: seq<seq<Item>>, moved: set<Item>, items: set<Item>, i: nat, k: nat)
    requires Waiting(olds, moved, items) && i < |olds| && k < |olds[i]| && olds[i][k] in items && olds[i][k] !in moved
    ensures olds[i][k].hhNext == At(olds[i], k + 1)
  {
  }

  // ---------------------------------------------------------------- the table

  /** The user's head pointer and the table it leads to. */
  class HashTable {
    /** HASH_FUNCTION, arbitrary */
    const hash: Key -> nat
    var head: Item?
    var tail: Item?
    var buckets: array<Bucket>
    var numBuckets: nat
    var log2NumBuckets: nat
    var numItems: nat
    var idealChainMaxlen: nat
    var nonidealItems: nat
    var ineffExpands: nat
    var noexpand: bool
    /** the application order */
    ghost var order: seq<Item>
    /** the bucket chains */
    ghost var chains: seq<seq<Item>>
    /** the items threaded through the table */
    ghost var items: set<Item>

    constructor (hash: Key -> nat)
      ensures this.hash == hash && Valid() && order == [] && head == null
    {
      this.hash := hash;
      head, tail := null, null;
      buckets := new Bucket[0];
      numBuckets, log2NumBuckets, numItems := 0, 0, 0;
      idealChainMaxlen, nonidealItems, ineffExpands, noexpand := 0, 0, 0, false;
      order, chains, items := [], [], {};
    }

    /** The application order threads exactly the items of `members`. */
    ghost predicate OrderFor(members: set<Item>)
      reads this`head, this`tail, this`order, members`prev, members`next
    {
      && head == At(order, 0)
      && (order != [] ==> tail == At(order, |order| - 1))
      && (forall x :: x in order ==> x in members) && (forall x :: x in members ==> x in order)
      && Distinct(order) && DistinctKeys(order) && Listed(order)
    }

    ghost predicate HashesOk()
      reads this`items, items`hashv
    {
      forall x :: x in items ==> x.hashv == hash(x.key)
    }

    /** The bucket array agrees with the chains. */
    ghost predicate BucketsOk()
      reads this`buckets, this`numBuckets, this`log2NumBuckets, this`chains, this`items, buckets, items`hhPrev,
        items`hhNext
    {
      && numBuckets == Pow2(log2NumBuckets) == buckets.Length == |chains|
      && (forall b, x :: 0 <= b < |chains| && x in chains[b] ==> x in items)
      && (forall b :: 0 <= b < |chains| ==> BucketOk(buckets[b], chains[b]))
    }

    /** Every item is in the chain of its own bucket, once, and nothing else is. */
    ghost predicate PlacedOk()
      reads this`chains, this`items
    {
      Placed(chains, items, hash)
    }

    ghost predicate Valid()
      reads this, buckets, items
    {
      && OrderFor(items) && HashesOk() && |order| == |items|
      && (order != [] ==> BucketsOk() && PlacedOk() && numItems == |order| == SumLengths(chains))
    }

    /** HASH_TO_BKT: the mask is a remainder because the bucket count is a power of two. */
    function BucketOf(hashv: nat): (b: nat)
      requires numBuckets == Pow2(log2NumBuckets)
      reads this`numBuckets, this`log2NumBuckets
      ensures b == hashv % numBuckets && b < numBuckets
    {
      AndMask(hashv, log2NumBuckets);
      And(hashv, numBuckets - 1)
    }

    // -------------------------------------------------------------- the application order

    /** HASH_APPEND_LIST */
    method AppendList(x: Item)
      requires OrderFor(items) && order != [] && x !in items
      requires forall i :: 0 <= i < |order| ==> order[i].key != x.key
      modifies this`tail, this`order, x`prev, x`next, items`next
      ensures OrderFor(items + {x}) && order == old(order) + [x]
    {
      hide DistinctKeys, Distinct, Stored;
      ghost var o := order;
      AppendDistinct(o, x);
      Neighbours(o, |o|);
      assert tail == o[|o| - 1];
      x.next := null;
      x.prev := tail;
      tail.next := x;
      tail := x;
      assert forall j {:trigger o[j].prev} :: 0 <= j < |o| ==> o[j].prev == At(o, j - 1);
      assert forall j {:trigger o[j].next} :: 0 <= j < |o| - 1 ==> o[j].next == At(o, j + 1);
      LinkedBehind(o, x);
      order := o + [x];
    }

    /** The list half of HASH_DELETE_HH, for an item that is not alone. The chains still hold it. */
    method UnlinkFromList(x: Item, ghost k: nat)
      requires OrderFor(items) && k < |order| && order[k] == x && |order| > 1
      modifies this`head, this`tail, this`order, items`next, items`prev
      ensures OrderFor(items - {x}) && order == Without(old(order), k)
    {
      hide DistinctKeys, Distinct, Stored, Without;
      ghost var o := order;
      assert x.prev == At(o, k - 1) && x.next == At(o, k + 1);
      Neighbours(o, k);
      if x == tail {
        tail := x.prev;
      }
      assert tail == if k == |o| - 1 then At(o, k - 1) else At(o, |o| - 1);
      if x.prev != null {
        x.prev.next := x.next;
      } else {
        head := x.next;
      }
      if x.next != null {
        x.next.prev := x.prev;
      }
      order := Without(o, k);
      assert forall j {:trigger o[j].prev} :: 0 <= j < |o| && j != k + 1 ==> o[j].prev == At(o, j - 1);
      assert forall j {:trigger o[j].next} :: 0 <= j < |o| && j != k - 1 ==> o[j].next == At(o, j + 1);
      Relinked(o, k);
      KeysWithout(o, k);
      WithoutMembers(o, k);
      assert head == At(order, 0);
      assert tail == At(order, |order| - 1);
      assert Listed(order) && Distinct(order);
    }

    // -------------------------------------------------------------- the chains

    /** The first half of HASH_ADD_TO_BKT: x becomes the head of its chain. */
    method PushToBucket(b: nat, x: Item)
      requires BucketsOk() && PlacedOk() && b < |chains|
      requires x !in items && hash(x.key) % |chains| == b
      modifies this`chains, this`items, buckets, x`hhPrev, x`hhNext, items`hhPrev
      ensures BucketsOk() && PlacedOk()
      ensures items == old(items) + {x} && chains == old(chains)[b := [x] + old(chains[b])]
      ensures forall i :: 0 <= i < buckets.Length && i != b ==> buckets[i] == old(buckets[i])
      ensures buckets[b].expandMult == old(buckets[b].expandMult)
    {
      hide Placed, Distinct, Chained, Pow2;
      ghost var c, was := chains[b], chains;
      PlacedPush(chains, items, hash, b, x);
      Apart(chains, items, hash, b);
      ChainedAt(c);
      assert BucketOk(buckets[b], c);
      buckets[b] := buckets[b].(count := buckets[b].count + 1);
      x.hhNext := buckets[b].hhHead;
      x.hhPrev := null;
      if buckets[b].hhHead != null {
        buckets[b].hhHead.hhPrev := x;
      }
      buckets[b] := buckets[b].(hhHead := x);
      chains := chains[b := [x] + c];
      items := items + {x};
      ChainedInFront(c, x);
      forall i | 0 <= i < |chains| ensures BucketOk(buckets[i], chains[i]) {
        if i != b {
          assert old(BucketOk(buckets[i], was[i]));
          assert x !in was[i] && (c != [] ==> c[0] in was[b] && c[0] !in was[i]);
        }
      }
    }

    /** HASH_DEL_IN_BKT */
    method DelInBucket(b: nat, x: Item, ghost k: nat)
      requires BucketsOk() && PlacedOk() && b < |chains| && k < |chains[b]| && chains[b][k] == x
      modifies this`chains, this`items, buckets, items`hhPrev, items`hhNext
      ensures BucketsOk() && PlacedOk()
      ensures items == old(items) - {x} && chains == old(chains)[b := Without(old(chains[b]), k)]
      ensures forall i :: 0 <= i < buckets.Length && i != b ==> buckets[i] == old(buckets[i])
      ensures buckets[b].expandMult == old(buckets[b].expandMult)
    {
      hide Placed, Distinct, Chained, Pow2, Without;
      ghost var c, was := chains[b], chains;
      PlacedRemove(chains, items, hash, b, k);
      Apart(chains, items, hash, b);
      ChainedAt(c);
      Neighbours(c, k);
      assert BucketOk(buckets[b], c);
      buckets[b] := buckets[b].(count := buckets[b].count - 1);
      if buckets[b].hhHead == x {
        buckets[b] := buckets[b].(hhHead := x.hhNext);
      }
      if x.hhPrev != null {
        x.hhPrev.hhNext := x.hhNext;
      }
      if x.hhNext != null {
        x.hhNext.hhPrev := x.hhPrev;
      }
      assert forall j {:trigger c[j].hhPrev} :: 0 <= j < |c| && j != k + 1 ==> c[j].hhPrev == At(c, j - 1);
      assert forall j {:trigger c[j].hhNext} :: 0 <= j < |c| && j != k - 1 ==> c[j].hhNext == At(c, j + 1);
      chains := chains[b := Without(c, k)];
      items := items - {x};
      Rechained(c, k);
      Apart(chains, items, hash, b);
      forall i | 0 <= i < |chains| ensures BucketOk(buckets[i], chains[i]) {
        if i != b {
          assert old(BucketOk(buckets[i], was[i]));
          assert k > 0 ==> c[k - 1] in was[b] && c[k - 1] !in was[i];
          assert k + 1 < |c| ==> c[k + 1] in was[b] && c[k + 1] !in was[i];
        }
      }
    }

    /** HASH_FIND_BYHASHVALUE with the key's own hash value, and HASH_FIND_IN_BKT. */
    method Find(key: Key) returns (out: Item?)
      requires Valid()
      ensures out == if key in Stored(order) then Stored(order)[key] else null
    {
      hide Stored, Distinct, Pow2, Listed, SumLengths;
      if head == null {
        EmptyStored(order);
        return null;
      }
      var hashv := hash(key);
      var b := BucketOf(hashv);
      ghost var c, i := chains[b], 0;
      assert BucketOk(buckets[b], c);
      out := buckets[b].hhHead;
      while out != null
        invariant 0 <= i <= |c| && out == At(c, i)
        invariant forall j :: 0 <= j < i ==> c[j].key != key
        decreases |c| - i
      {
        assert out == c[i] && out in items && out.hhNext == At(c, i + 1);
        if out.hashv == hashv && |out.key| == |key| && out.key == key {
          StoredItem(order, out);
          return;
        }
        out := out.hhNext;
        i := i + 1;
      }
      assert forall x :: x in c ==> x.key != key;
    }

    // -------------------------------------------------------------- HASH_EXPAND_BUCKETS

    /** The counters of a new bucket that gets one more item. */
    method CountItem(newBuckets: array<Bucket>, b: nat)
      requires b < newBuckets.Length && idealChainMaxlen > 0
      requires MultOk(newBuckets[b].count, newBuckets[b].expandMult, idealChainMaxlen)
      modifies newBuckets, this`nonidealItems
      ensures newBuckets[b].hhHead == old(newBuckets[b].hhHead) && newBuckets[b].count == old(newBuckets[b].count) + 1
      ensures MultOk(newBuckets[b].count, newBuckets[b].expandMult, idealChainMaxlen)
      ensures nonidealItems == old(nonidealItems) + Excess(newBuckets[b].count, idealChainMaxlen)
                             - Excess(old(newBuckets[b].count), idealChainMaxlen)
      ensures forall j :: 0 <= j < newBuckets.Length && j != b ==> newBuckets[j] == old(newBuckets[j])
    {
      hide MultOk;
      MultStep(newBuckets[b].count, newBuckets[b].expandMult, idealChainMaxlen);
      newBuckets[b] := newBuckets[b].(count := newBuckets[b].count + 1);
      if newBuckets[b].count > idealChainMaxlen {
        nonidealItems := nonidealItems + 1;
        if newBuckets[b].count > newBuckets[b].expandMult * idealChainMaxlen {
          newBuckets[b] := newBuckets[b].(expandMult := newBuckets[b].expandMult + 1);
        }
      }
    }

    /** Its links. */
    method LinkItem(newBuckets: array<Bucket>, b: nat, x: Item, ghost c: seq<Item>)
      requires b < newBuckets.Length && newBuckets[b].hhHead == At(c, 0)
      requires Chained(c) && Distinct(c) && x !in c
      modifies newBuckets, x`hhPrev, x`hhNext, c[..if c == [] then 0 else 1]`hhPrev
      ensures newBuckets[b] == old(newBuckets[b]).(hhHead := x) && Chained([x] + c)
      ensures forall j :: 0 <= j < newBuckets.Length && j != b ==> newBuckets[j] == old(newBuckets[j])
    {
      hide Distinct, Chained;
      ChainedAt(c);
      x.hhPrev := null;
      x.hhNext := newBuckets[b].hhHead;
      if newBuckets[b].hhHead != null {
        newBuckets[b].hhHead.hhPrev := x;
      }
      newBuckets[b] := newBuckets[b].(hhHead := x);
      ChainedInFront(c, x);
    }

    lemma FilledAt(bs: seq<Bucket>, news: seq<seq<Item>>, ideal: nat, nonideal: nat, b: nat)
      requires Filled(bs, news, items, ideal, nonideal) && b < |news|
      ensures |bs| == |news| && BucketOk(bs[b], news[b]) && Chained(news[b]) &&
        MultOk(bs[b].count, bs[b].expandMult, ideal)
    {
    }

    /** The body of the inner loop: one item goes to the head of its new chain. */
    method MoveItem(newBuckets: array<Bucket>, b: nat, x: Item, ghost olds: seq<seq<Item>>, ghost news: seq<seq<Item>>,
                    ghost moved: set<Item>)
      requires Waiting(olds, moved, items) && Filled(newBuckets[..], news, items, idealChainMaxlen, nonidealItems) &&
        Placed(news, moved, hash) && moved <= items
      requires b < |news| && x in items && x !in moved && idealChainMaxlen > 0
      requires newBuckets != buckets
      modifies newBuckets, this`nonidealItems, items`hhPrev, items`hhNext
      ensures Filled(newBuckets[..], news[b := [x] + news[b]], items, idealChainMaxlen, nonidealItems)
      ensures Waiting(olds, moved + {x}, items)
    {
      hide Placed, Distinct, Chained, MultOk, SumExcess;
      ghost var c := news[b];
      NotInChains(news, moved, hash, x);
      Apart(news, moved, hash, b);
      FilledAt(newBuckets[..], news, idealChainMaxlen, nonidealItems, b);
      ExcessUpdate(news, idealChainMaxlen, b, [x] + c);
      assert newBuckets[..][b] == newBuckets[b];
      CountItem(newBuckets, b);
      LinkItem(newBuckets, b, x, c);
      ghost var news' := news[b := [x] + c];
      assert BucketOk(newBuckets[..][b], news'[b]);
      forall j | 0 <= j < |news'| && j != b ensures BucketOk(newBuckets[..][j], news'[j]) {
        assert old(BucketOk(newBuckets[..][j], news[j]));
        assert newBuckets[..][j] == old(newBuckets[..][j]);
        assert x !in news[j] && (c != [] ==> c[0] in news[b] && c[0] !in news[j]);
      }
    }

    /** The new bucket array, filled; the old one is still in place. */
    method BuildBuckets() returns (newBuckets: array<Bucket>, ghost news: seq<seq<Item>>)
      requires BucketsOk() && PlacedOk() && HashesOk() && numItems == |items| > 0
      modifies this`idealChainMaxlen, this`nonidealItems, items`hhPrev, items`hhNext
      ensures fresh(newBuckets) && newBuckets.Length == 2 * numBuckets == |news|
      ensures forall j :: 0 <= j < |news| ==> news[j] == PushAll(chains[Source(j, |chains|)], hash, |news|, j)
      ensures Placed(news, items, hash) && SumLengths(news) == |items|
      ensures idealChainMaxlen == CeilDiv(numItems, 2 * numBuckets) > 0
      ensures Filled(newBuckets[..], news, items, idealChainMaxlen, nonidealItems)
    {
      hide Placed, Distinct, Chained, SumLengths, SumExcess, MultOk, PushAll, Source, Pow2, Filled, BucketOk, And,
        Shr, CeilDiv;
      newBuckets := new Bucket[2 * numBuckets](_ => Bucket(null, 0, 0));
      IdealLength(numItems, log2NumBuckets);
      idealChainMaxlen := Shr(numItems, log2NumBuckets + 1) + (if And(numItems, 2 * numBuckets - 1) != 0 then 1 else 0);
      nonidealItems := 0;
      news := Redistribute(newBuckets);
    }

    /** HASH_EXPAND_BUCKETS: twice the buckets, the same items. */
    method ExpandBuckets()
      requires BucketsOk() && PlacedOk() && HashesOk() && numItems == |items| > 0 && log2NumBuckets < 31
      modifies this`buckets, this`numBuckets, this`log2NumBuckets, this`idealChainMaxlen, this`nonidealItems,
        this`ineffExpands, this`noexpand, this`chains, items`hhPrev, items`hhNext
      ensures BucketsOk() && PlacedOk() && fresh(buckets)
      ensures numBuckets == 2 * old(numBuckets) && log2NumBuckets == old(log2NumBuckets) + 1
      ensures forall j :: 0 <= j < |chains| ==>
        chains[j] == PushAll(old(chains)[Source(j, old(numBuckets))], hash, numBuckets, j)
      ensures SumLengths(chains) == |items|
      ensures idealChainMaxlen == CeilDiv(numItems, numBuckets) > 0
      ensures Filled(buckets[..], chains, items, idealChainMaxlen, nonidealItems)
      ensures ineffExpands == if nonidealItems > numItems / 2 then old(ineffExpands) + 1 else 0
      ensures noexpand == (old(noexpand) || ineffExpands > 1)
    {
      hide Placed, SumLengths, PushAll, Source, Pow2, Filled, CeilDiv, BucketsOk, PlacedOk, HashesOk;
      Shape();
      ghost var news;
      var newBuckets;
      newBuckets, news := BuildBuckets();
      Pow2Next(log2NumBuckets);
      numBuckets, log2NumBuckets, buckets, chains := numBuckets * 2, log2NumBuckets + 1, newBuckets, news;
      FilledBuckets();
      NowPlaced();
      RecordEffect();
    }

    /** Two ineffective expansions in a row switch expansion off. */
    method RecordEffect()
      modifies this`ineffExpands, this`noexpand
      ensures ineffExpands == if nonidealItems > numItems / 2 then old(ineffExpands) + 1 else 0
      ensures noexpand == (old(noexpand) || ineffExpands > 1)
    {
      ineffExpands := if nonidealItems > Shr(numItems, 1) then ineffExpands + 1 else 0;
      HalfOf(numItems);
      if ineffExpands > 1 {
        noexpand := true;
      }
    }

    lemma NowPlaced()
      requires Placed(chains, items, hash)
      ensures PlacedOk()
    {
    }

    lemma FilledBuckets()
      requires Filled(buckets[..], chains, items, idealChainMaxlen, nonidealItems) &&
        numBuckets == Pow2(log2NumBuckets) == |chains|
      ensures BucketsOk()
    {
      assert forall j :: 0 <= j < |chains| ==> buckets[..][j] == buckets[j];
    }

    /** The outer loop over the old buckets. */
    method Redistribute(newBuckets: array<Bucket>) returns (ghost news: seq<seq<Item>>)
      requires BucketsOk() && PlacedOk() && HashesOk() && idealChainMaxlen > 0 && nonidealItems == 0
      requires newBuckets != buckets && newBuckets.Length == 2 * numBuckets
      requires forall j :: 0 <= j < newBuckets.Length ==> newBuckets[j] == Bucket(null, 0, 0)
      modifies newBuckets, this`nonidealItems, items`hhPrev, items`hhNext
      ensures Filled(newBuckets[..], news, items, idealChainMaxlen, nonidealItems) && Placed(news, items, hash) &&
        |news| == 2 * numBuckets
      ensures forall j :: 0 <= j < |news| ==> news[j] == PushAll(chains[Source(j, |chains|)], hash, |news|, j)
      ensures SumLengths(news) == |items|
    {
      hide Placed, Distinct, Chained, Progress, SumLengths, SumExcess, MultOk, PushAll, Filled, Waiting, Source;
      ghost var olds := chains;
      var n := numBuckets;
      news := seq(2 * n, _ => []);
      ghost var moved: set<Item> := {};
      AllWaiting();
      ProgressStart(olds, news, items, hash);
      FilledStart(newBuckets[..], news, items, idealChainMaxlen);
      var i := 0;
      while i < n
        invariant 0 <= i <= n
        invariant Progress(olds, news, moved, items, hash, i, 0) && Waiting(olds, moved, items)
        invariant Filled(newBuckets[..], news, items, idealChainMaxlen, nonidealItems) && newBuckets.Length == |news|
      {
        news, moved := DrainBucket(newBuckets, i, olds, news, moved);
        ProgressNext(olds, news, moved, items, hash, i);
        i := i + 1;
      }
      ProgressDone(olds, news, moved, items, hash);
      ProgressPlaced(olds, news, moved, items, hash, n, 0);
    }

    lemma AllWaiting()
      requires BucketsOk()
      ensures Waiting(chains, {}, items)
    {
      forall b, t | 0 <= b < |chains| && 0 <= t < |chains[b]|
        ensures chains[b][t] in items && chains[b][t].hhNext == At(chains[b], t + 1)
      {
        assert chains[b][t] in chains[b] && BucketOk(buckets[b], chains[b]);
      }
    }

    /** HASH_TO_BKT for the doubled table. */
    function NewBucketOf(hashv: nat): (b: nat)
      requires numBuckets == Pow2(log2NumBuckets)
      reads this`numBuckets, this`log2NumBuckets
      ensures b == hashv % (2 * numBuckets) && b < 2 * numBuckets
    {
      AndMask(hashv, log2NumBuckets + 1);
      Pow2Next(log2NumBuckets);
      And(hashv, numBuckets * 2 - 1)
    }

    /** The inner loop over old bucket i. */
    method DrainBucket(newBuckets: array<Bucket>, i: nat, ghost olds: seq<seq<Item>>, ghost news: seq<seq<Item>>,
                       ghost moved: set<Item>)
      returns (ghost news': seq<seq<Item>>, ghost moved': set<Item>)
      requires olds == chains && Placed(olds, items, hash) && HashesOk() &&
        numBuckets == Pow2(log2NumBuckets) == |olds| == buckets.Length
      requires i < |olds| && buckets[i].hhHead == At(olds[i], 0)
      requires Progress(olds, news, moved, items, hash, i, 0) && Waiting(olds, moved, items)
      requires Filled(newBuckets[..], news, items, idealChainMaxlen, nonidealItems) && newBuckets.Length == |news| &&
        newBuckets != buckets && idealChainMaxlen > 0
      modifies newBuckets, this`nonidealItems, items`hhPrev, items`hhNext
      ensures Progress(olds, news', moved', items, hash, i, |olds[i]|) && Waiting(olds, moved', items)
      ensures Filled(newBuckets[..], news', items, idealChainMaxlen, nonidealItems) && |news'| == |news|
    {
      hide Placed, Distinct, Chained, Progress, Filled, Waiting, Pow2, SumLengths, PushAll, And, Source, NewBucketOf;
      news', moved' := news, moved;
      var thh := buckets[i].hhHead;
      ghost var k := 0;
      while thh != null
        invariant k <= |olds[i]| && thh == At(olds[i], k)
        invariant Progress(olds, news', moved', items, hash, i, k) && Waiting(olds, moved', items)
        invariant Filled(newBuckets[..], news', items, idealChainMaxlen, nonidealItems) && |news'| == newBuckets.Length
        decreases |olds[i]| - k
      {
        ghost var x := olds[i][k];
        NextItem(olds, news', moved', items, hash, i, k);
        ProgressStep(olds, news', moved', items, hash, i, k);
        ProgressPlaced(olds, news', moved', items, hash, i, k);
        NextWaiting(olds, moved', items, i, k);
        var next := thh.hhNext;
        var b := NewBucketOf(thh.hashv);
        MoveItem(newBuckets, b, thh, olds, news', moved');
        news', moved' := news'[b := [x] + news'[b]], moved' + {x};
        k := k + 1;
        thh := next;
      }
    }

    // -------------------------------------------------------------- the operations

    /** HASH_MAKE_TABLE, for a first item x. */
    method MakeTable(x: Item)
      modifies this`tail, this`buckets, this`numBuckets, this`log2NumBuckets, this`numItems, this`idealChainMaxlen,
        this`nonidealItems, this`ineffExpands, this`noexpand, this`chains, this`items
      ensures tail == x && numItems == 0 && items == {} && SumLengths(chains) == 0 && fresh(buckets)
      ensures numBuckets == INITIAL_NUM_BUCKETS && log2NumBuckets == INITIAL_LOG2 && !noexpand && ineffExpands == 0
      ensures BucketsOk() && PlacedOk()
      ensures forall b :: 0 <= b < buckets.Length ==> buckets[b] == Bucket(null, 0, 0)
    {
      hide SumLengths, Pow2;
      InitialPower();
      ghost var none: seq<seq<Item>> := seq(INITIAL_NUM_BUCKETS, _ => []);
      EmptySums(none, 0);
      buckets := new Bucket[INITIAL_NUM_BUCKETS](_ => Bucket(null, 0, 0));
      numItems, idealChainMaxlen, nonidealItems, ineffExpands, noexpand := 0, 0, 0, 0, false;
      tail, numBuckets, log2NumBuckets := x, INITIAL_NUM_BUCKETS, INITIAL_LOG2;
      chains, items := none, {};
    }

    /** HASH_ADD_TO_TABLE: count, push, and double the buckets when the chain has grown too long. */
    method AddToTable(x: Item)
      requires BucketsOk() && PlacedOk() && HashesOk() && numItems == |items| == SumLengths(chains)
      requires x !in items && x.hashv == hash(x.key) && log2NumBuckets < 31
      modifies this`buckets, this`numBuckets, this`log2NumBuckets, this`numItems, this`idealChainMaxlen,
        this`nonidealItems, this`ineffExpands, this`noexpand, this`chains, this`items, buckets,
        x`hhPrev, x`hhNext, items`hhPrev, items`hhNext
      ensures BucketsOk() && PlacedOk() && HashesOk() && items == old(items) + {x}
      ensures numItems == |items| == SumLengths(chains)
      ensures buckets == old(buckets) || fresh(buckets)
      ensures var b := old(buckets[hash(x.key) % numBuckets]);
        numBuckets == if b.count + 1 >= (b.expandMult + 1) * CAPACITY_THRESH && !old(noexpand)
                      then 2 * old(numBuckets) else old(numBuckets)
    {
      hide Placed, Distinct, Chained, SumLengths, PushAll, Source, Pow2, Filled, CeilDiv, BucketOk;
      numItems := numItems + 1;
      var b := BucketOf(x.hashv);
      CountOf(b);
      SumUpdate(chains, b, [x] + chains[b]);
      PushToBucket(b, x);
      CountOf(b);
      if buckets[b].count >= (buckets[b].expandMult + 1) * CAPACITY_THRESH && !noexpand {
        ExpandBuckets();
      }
    }

    lemma CountOf(b: nat)
      requires BucketsOk() && b < |chains|
      ensures buckets[b].count == |chains[b]|
    {
      assert BucketOk(buckets[b], chains[b]);
    }

    /** The first half of HASH_ADD_KEYPTR_BYHASHVALUE: a table for a first item, or the end of the list. */
    method Enlist(x: Item)
      requires Valid() && x !in items && x.key !in Stored(order)
      requires order != [] ==> log2NumBuckets < 31
      modifies this, x`hashv, x`prev, x`next, items`next
      ensures order == old(order) + [x] && items == old(items) && OrderFor(items + {x})
      ensures BucketsOk() && PlacedOk() && HashesOk() && numItems == |items| == SumLengths(chains)
      ensures x.hashv == hash(x.key) && log2NumBuckets < 31 && (buckets == old(buckets) || fresh(buckets))
    {
      hide BucketsOk, PlacedOk, HashesOk, Stored, SumLengths, OrderFor;
      NewKey(order, x);
      HeadNull();
      x.hashv := hash(x.key);
      if head == null {
        StartTable(x);
      } else {
        AppendList(x);
      }
    }

    /** The table that a first item brings. */
    method StartTable(x: Item)
      modifies this, x`prev, x`next
      ensures order == [x] && items == {} && OrderFor({x}) && fresh(buckets)
      ensures BucketsOk() && PlacedOk() && HashesOk() && numItems == 0 == SumLengths(chains) && log2NumBuckets < 31
    {
      hide BucketsOk, PlacedOk, OrderFor, SumLengths;
      x.next := null;
      x.prev := null;
      MakeTable(x);
      head, order := x, [x];
      FirstOrder(x);
    }

    lemma HeadNull()
      requires OrderFor(items)
      ensures head == null <==> order == []
      ensures order == [] ==> items == {}
    {
    }

    lemma FirstOrder(x: Item)
      requires head == tail == x && order == [x] && x.prev == null && x.next == null
      ensures OrderFor({x})
    {
    }

    /** HASH_ADD_KEYPTR with an item whose key is not in the table yet. */
    method Add(x: Item)
      requires Valid() && x !in items && x.key !in Stored(order)
      requires order != [] ==> log2NumBuckets < 31
      modifies this, buckets, x, items
      ensures Valid() && order == old(order) + [x] && items == old(items) + {x}
      ensures buckets == old(buckets) || fresh(buckets)
      ensures Stored(order) == Stored(old(order))[x.key := x]
    {
      hide BucketsOk, PlacedOk, HashesOk, OrderFor, Stored, SumLengths;
      ghost var o := order;
      StoredAppend(o, x);
      Enlist(x);
      AddToTable(x);
    }

    /** HASH_DELETE_HH: the last item takes the table with it. */
    method Delete(x: Item) returns (ghost k: nat)
      requires Valid() && x in items
      modifies this, buckets, items
      ensures Valid() && k < |old(order)| && old(order)[k] == x && order == Without(old(order), k)
      ensures items == old(items) - {x} && buckets == old(buckets) && log2NumBuckets == old(log2NumBuckets)
      ensures Stored(order) == Stored(old(order)) - {x.key}
    {
      hide BucketsOk, PlacedOk, Stored, DistinctKeys, Distinct, SumLengths, Without;
      k :| 0 <= k < |order| && order[k] == x;
      StoredWithout(order, k);
      assert x.prev == At(order, k - 1) && x.next == At(order, k + 1);
      if x.prev == null && x.next == null {
        LastItem(k);
        head := null;
        order, chains, items := [], [], {};
        NoItems();
      } else {
        Detach(x, k);
      }
    }

    lemma NoItems()
      requires head == null && order == []
      ensures OrderFor({})
    {
    }

    lemma LastItem(k: nat)
      requires OrderFor(items) && k < |order| && At(order, k - 1) == null && At(order, k + 1) == null
      ensures order == [order[k]] && items == {order[k]} && Without(order, k) == []
    {
    }

    /** The other branch: out of the list, out of its chain, one item less. */
    method Detach(x: Item, ghost k: nat)
      requires Valid() && k < |order| && order[k] == x && x in items && |order| > 1
      modifies this`head, this`tail, this`order, this`items, this`chains, this`numItems, buckets, items
      ensures OrderFor(items) && order == Without(old(order), k) && items == old(items) - {x}
      ensures HashesOk() && BucketsOk() && PlacedOk() && numItems == |order| == SumLengths(chains) == |items|
    {
      hide BucketsOk, PlacedOk, Stored, DistinctKeys, Distinct, SumLengths, Without, OrderFor;
      Shape();
      UnlinkFromList(x, k);
      var b := BucketOf(x.hashv);
      ghost var j := PlaceOf(b, x);
      SumUpdate(chains, b, Without(chains[b], j));
      DelInBucket(b, x, j);
      numItems := numItems - 1;
    }

    lemma Shape()
      requires BucketsOk()
      ensures numBuckets == Pow2(log2NumBuckets) == buckets.Length == |chains|
    {
    }

    lemma PlaceOf(b: nat, x: Item) returns (j: nat)
      requires PlacedOk() && x in items && b == hash(x.key) % |chains|
      ensures b < |chains| && j < |chains[b]| && chains[b][j] == x
    {
      j :| 0 <= j < |chains[b]| && chains[b][j] == x;
    }

    /** An item in the table is the one stored under its key. */
    lemma UnderOwnKey(x: Item)
      requires Valid()
      ensures x in items ==> x.key in Stored(order) && Stored(order)[x.key] == x
    {
      hide Stored;
      if x in items { StoredItem(order, x); }
    }

    lemma Holds(x: Item)
      requires Valid() && x in Stored(order).Values
      ensures x in items
    {
      hide Stored;
    }

    /** HASH_REPLACE. An item already in the table replaces itself, and moves to the end. */
    method Replace(x: Item) returns (replaced: Item?, ghost k: nat)
      requires Valid()
      requires order != [] ==> log2NumBuckets < 31
      modifies this, buckets, x, items
      ensures Valid() && items == old(items) - {replaced} + {x}
      ensures replaced == if x.key in Stored(old(order)) then Stored(old(order))[x.key] else null
      ensures Stored(order) == Stored(old(order))[x.key := x]
      ensures replaced == null ==> order == old(order) + [x]
      ensures replaced != null ==>
        k < |old(order)| && old(order)[k] == replaced && order == Without(old(order), k) + [x]
      ensures buckets == old(buckets) || fresh(buckets)
    {
      hide Valid, Stored, Without;
      MapPut(Stored(order), x.key, x);
      UnderOwnKey(x);
      replaced := Find(x.key);
      k := 0;
      if replaced != null {
        Holds(replaced);
        k := Delete(replaced);
      }
      Add(x);
    }
  }

  lemma MapPut(m: map<Key, Item>, key: Key, x: Item)
    ensures (m - {key})[key := x] == m[key := x]
  {
  }

  lemma InitialPower()
    ensures Pow2(INITIAL_LOG2) == INITIAL_NUM_BUCKETS
  {
  }

  lemma NewKey(order: seq<Item>, x: Item)
    requires x.key !in Stored(order)
    ensures forall i :: 0 <= i < |order| ==> order[i].key != x.key
  {
    hide Stored;
    assert forall i :: 0 <= i < |order| ==> order[i] in order;
  }

  lemma IdealLength(numItems: nat, log2: nat)
    ensures Shr(numItems, log2 + 1) + (if And(numItems, 2 * Pow2(log2) - 1) != 0 then 1 else 0)
         == CeilDiv(numItems, 2 * Pow2(log2))
    ensures numItems > 0 ==> CeilDiv(numItems, 2 * Pow2(log2)) > 0
  {
    ShrLow(numItems, log2 + 1);
    AndMask(numItems, log2 + 1);
  }

  lemma Pow2Next(k: nat)
    ensures Pow2(k + 1) == 2 * Pow2(k)
  {
  }

  lemma HalfOf(n: nat)
    ensures Shr(n, 1) == n / 2
  {
    assert Shr(n, 1) == Shr(n / 2, 0);
  }

  lemma ProgressPlaced(olds: seq<seq<Item>>, news: seq<seq<Item>>, moved: set<Item>, items: set<Item>, hash: Key -> nat,
                       i: nat, k: nat)
    requires Progress(olds, news, moved, items, hash, i, k)
    ensures Placed(news, moved, hash) && moved <= items && SumLengths(news) == |moved| && |news| == 2 * |olds|
  {
  }

  lemma NotInChains(chains: seq<seq<Item>>, items: set<Item>, hash: Key -> nat, x: Item)
    requires Placed(chains, items, hash) && x !in items
    ensures forall i :: 0 <= i < |chains| ==> x !in chains[i]
  {
  }

  /** How far the redistribution has come: the items of old buckets below i and the first k of old
      bucket i have been pushed, one by one, onto the new chains. */
  ghost predicate Progress(olds: seq<seq<Item>>, news: seq<seq<Item>>, moved: set<Item>, items: set<Item>,
                           hash: Key -> nat, i: nat, k: nat)
  {
    && 0 < |olds| && |news| == 2 * |olds| && i <= |olds| && k <= (if i < |olds| then |olds[i]| else 0)
    && moved <= items && Placed(news, moved, hash)
    && (forall x :: x in items ==> (x in moved <==> Passed(olds, hash, x, i, k)))
    && (forall j :: 0 <= j < |news| ==> news[j] == PushAll(Taken(olds, j, i, k), hash, |news|, j))
    && SumLengths(news) == |moved|
  }

  /** The part of new bucket j's source that has been moved. */
  function Taken(olds: seq<seq<Item>>, j: nat, i: nat, k: nat): seq<Item>
    requires i <= |olds| && k <= (if i < |olds| then |olds[i]| else 0) && j < 2 * |olds|
  {
    var b := Source(j, |olds|);
    if b < i then olds[b] else if b == i then olds[b][..k] else []
  }

  predicate Passed(olds: seq<seq<Item>>, hash: Key -> nat, x: Item, i: nat, k: nat)
    requires |olds| > 0 && i <= |olds| && k <= (if i < |olds| then |olds[i]| else 0)
  {
    var b := hash(x.key) % |olds|;
    b < i || (b == i && x in olds[i][..k])
  }

  lemma ProgressStart(olds: seq<seq<Item>>, news: seq<seq<Item>>, items: set<Item>, hash: Key -> nat)
    requires |olds| > 0 && |news| == 2 * |olds| && forall j :: 0 <= j < |news| ==> news[j] == []
    ensures Progress(olds, news, {}, items, hash, 0, 0)
  {
    EmptySums(news, 0);
  }

  /** The next item to move has not been moved, and goes to a new bucket its chain is the source of. */
  lemma NextItem(olds: seq<seq<Item>>, news: seq<seq<Item>>, moved: set<Item>, items: set<Item>,
                 hash: Key -> nat, i: nat, k: nat)
    requires Placed(olds, items, hash) && Progress(olds, news, moved, items, hash, i, k)
    requires i < |olds| && k < |olds[i]|
    ensures var x := olds[i][k];
      var j := hash(x.key) % |news|;
      x in items && x !in moved && hash(x.key) % |olds| == i && Source(j, |olds|) == i
  {
    hide SumLengths, PushAll, Distinct;
    var x := olds[i][k];
    assert x in olds[i];
    Split(hash(x.key), |olds|);
    NotYetMoved(olds[i], k);
  }

  lemma PushStep(olds: seq<seq<Item>>, news: seq<seq<Item>>, hash: Key -> nat, i: nat, k: nat, b: nat)
    requires |news| == 2 * |olds| && i < |olds| && k < |olds[i]| && b < |news|
    requires news[b] == PushAll(Taken(olds, b, i, k), hash, |news|, b)
    requires Source(hash(olds[i][k].key) % |news|, |olds|) == i
    ensures PushAll(Taken(olds, b, i, k + 1), hash, |news|, b) ==
      if hash(olds[i][k].key) % |news| == b then [olds[i][k]] + news[b] else news[b]
  {
    if Source(b, |olds|) == i {
      assert olds[i][..k + 1][..k] == olds[i][..k];
    }
  }

  lemma PassedStep(olds: seq<seq<Item>>, hash: Key -> nat, i: nat, k: nat, y: Item)
    requires i < |olds| && k < |olds[i]| && hash(olds[i][k].key) % |olds| == i
    ensures Passed(olds, hash, y, i, k + 1) <==> Passed(olds, hash, y, i, k) || y == olds[i][k]
  {
    assert olds[i][..k + 1] == olds[i][..k] + [olds[i][k]];
  }

  lemma ProgressStep(olds: seq<seq<Item>>, news: seq<seq<Item>>, moved: set<Item>, items: set<Item>,
                     hash: Key -> nat, i: nat, k: nat)
    requires Placed(olds, items, hash) && Progress(olds, news, moved, items, hash, i, k)
    requires i < |olds| && k < |olds[i]|
    ensures var x := olds[i][k];
      var j := hash(x.key) % |news|;
      x in items && x !in moved && Progress(olds, news[j := [x] + news[j]], moved + {x}, items, hash, i, k + 1)
  {
    hide SumLengths, Distinct, Placed, PushAll, Passed, Taken, Source;
    var x := olds[i][k];
    var j := hash(x.key) % |news|;
    NextItem(olds, news, moved, items, hash, i, k);
    PlacedPush(news, moved, hash, j, x);
    SumUpdate(news, j, [x] + news[j]);
    var news' := news[j := [x] + news[j]];
    forall b | 0 <= b < |news'| ensures news'[b] == PushAll(Taken(olds, b, i, k + 1), hash, |news|, b) {
      PushStep(olds, news, hash, i, k, b);
    }
    forall y | y in items ensures y in moved + {x} <==> Passed(olds, hash, y, i, k + 1) {
      PassedStep(olds, hash, i, k, y);
    }
  }

  lemma NotYetMoved(c: seq<Item>, k: nat)
    requires k < |c| && Distinct(c)
    ensures c[k] !in c[..k]
  {
  }

  lemma ProgressNext(olds: seq<seq<Item>>, news: seq<seq<Item>>, moved: set<Item>, items: set<Item>,
                     hash: Key -> nat, i: nat)
    requires Placed(olds, items, hash) && i < |olds| && Progress(olds, news, moved, items, hash, i, |olds[i]|)
    ensures Progress(olds, news, moved, items, hash, i + 1, 0)
  {
    hide SumLengths, Distinct, PushAll;
    assert olds[i][..|olds[i]|] == olds[i];
    if i + 1 < |olds| { assert olds[i + 1][..0] == []; }
  }

  lemma ProgressDone(olds: seq<seq<Item>>, news: seq<seq<Item>>, moved: set<Item>, items: set<Item>, hash: Key -> nat)
    requires Placed(olds, items, hash) && Progress(olds, news, moved, items, hash, |olds|, 0)
    ensures moved == items
    ensures forall j :: 0 <= j < |news| ==> news[j] == PushAll(olds[Source(j, |olds|)], hash, |news|, j)
  {
    hide SumLengths, Distinct, PushAll;
  }

  /** Chains of different buckets share nothing. */
  lemma Apart(chains: seq<seq<Item>>, items: set<Item>, hash: Key -> nat, b: nat)
    requires Placed(chains, items, hash) && b < |chains|
    ensures forall i, x :: 0 <= i < |chains| && i != b && x in chains[b] ==> x !in chains[i]
    ensures forall i, x :: 0 <= i < |chains| && x in chains[i] ==> x in items
    ensures Distinct(chains[b])
  {
    hide Distinct;
    forall i, x | 0 <= i < |chains| && i != b && x in chains[b] ensures x !in chains[i] {
      assert hash(x.key) % |chains| == b;
    }
  }

  lemma ChainedAt(c: seq<Item>)
    requires Chained(c) && Distinct(c)
    ensures forall i {:trigger c[i].hhPrev} {:trigger c[i].hhNext} :: 0 <= i < |c| ==>
      c[i].hhPrev == At(c, i - 1) && c[i].hhNext == At(c, i + 1)
    ensures forall i :: 1 <= i < |c| ==> c[i] != c[0]
  {
  }

  /** A new item hooked to the last one extends the list. */
  lemma LinkedBehind(o: seq<Item>, x: Item)
    requires o != [] && Distinct(o) && x !in o
    requires forall j {:trigger o[j].prev} :: 0 <= j < |o| ==> o[j].prev == At(o, j - 1)
    requires forall j {:trigger o[j].next} :: 0 <= j < |o| - 1 ==> o[j].next == At(o, j + 1)
    requires o[|o| - 1].next == x && x.prev == o[|o| - 1] && x.next == null
    ensures Listed(o + [x]) && Distinct(o + [x])
  {
    var t := o + [x];
    forall i | 0 <= i < |t| ensures t[i].prev == At(t, i - 1) && t[i].next == At(t, i + 1) {
      if i < |o| { assert t[i] == o[i]; }
    }
  }

  lemma Neighbours(o: seq<Item>, k: nat)
    requires k <= |o| && Distinct(o)
    ensures forall j :: 0 <= j < |o| && j != k - 1 ==> o[j] != At(o, k - 1)
    ensures forall j :: 0 <= j < |o| && j != k + 1 ==> o[j] != At(o, k + 1)
    ensures k < |o| ==> (o[k] == At(o, |o| - 1) <==> k == |o| - 1)
    ensures k < |o| ==> (o[k] == At(o, 0) <==> k == 0)
  {
  }

  /** Hooking the neighbours of the k-th item to each other takes it out of the list. */
  lemma Relinked(o: seq<Item>, k: nat)
    requires k < |o| && Distinct(o)
    requires forall j {:trigger o[j].prev} :: 0 <= j < |o| && j != k + 1 ==> o[j].prev == At(o, j - 1)
    requires forall j {:trigger o[j].next} :: 0 <= j < |o| && j != k - 1 ==> o[j].next == At(o, j + 1)
    requires k + 1 < |o| ==> o[k + 1].prev == At(o, k - 1)
    requires k > 0 ==> o[k - 1].next == At(o, k + 1)
    ensures Listed(Without(o, k)) && Distinct(Without(o, k))
    ensures |o| > 1 ==> At(Without(o, k), 0) == if k == 0 then At(o, 1) else At(o, 0)
    ensures |o| > 1 ==> At(Without(o, k), |Without(o, k)| - 1) == if k == |o| - 1 then At(o, k - 1) else At(o, |o| - 1)
  {
    var t := Without(o, k);
    forall i | 0 <= i < |t| ensures t[i].prev == At(t, i - 1) && t[i].next == At(t, i + 1) {
      WithoutAt(o, k, i);
    }
    WithoutDistinct(o, k);
  }

  /** The same for a bucket chain. */
  lemma Rechained(c: seq<Item>, k: nat)
    requires k < |c| && Distinct(c)
    requires forall j {:trigger c[j].hhPrev} :: 0 <= j < |c| && j != k + 1 ==> c[j].hhPrev == At(c, j - 1)
    requires forall j {:trigger c[j].hhNext} :: 0 <= j < |c| && j != k - 1 ==> c[j].hhNext == At(c, j + 1)
    requires k + 1 < |c| ==> c[k + 1].hhPrev == At(c, k - 1)
    requires k > 0 ==> c[k - 1].hhNext == At(c, k + 1)
    ensures Chained(Without(c, k))
    ensures At(Without(c, k), 0) == if k == 0 then At(c, 1) else At(c, 0)
  {
    var t := Without(c, k);
    forall i | 0 <= i < |t| ensures t[i].hhPrev == At(t, i - 1) && t[i].hhNext == At(t, i + 1) {
      WithoutAt(c, k, i);
    }
  }

  lemma WithoutMembers(o: seq<Item>, k: nat)
    requires k < |o| && Distinct(o)
    ensures forall x :: x in Without(o, k) ==> x in o && x != o[k]
    ensures forall x :: x in o && x != o[k] ==> x in Without(o, k)
  {
    WithoutDistinct(o, k);
  }

  lemma ChainedInFront(c: seq<Item>, x: Item)
    requires x !in c
    requires forall i {:trigger c[i].hhPrev} :: 1 <= i < |c| ==> c[i].hhPrev == At(c, i - 1)
    requires forall i {:trigger c[i].hhNext} :: 0 <= i < |c| ==> c[i].hhNext == At(c, i + 1)
    requires c != [] ==> c[0].hhPrev == x
    requires x.hhPrev == null && x.hhNext == At(c, 0)
    ensures Chained([x] + c)
  {
    var t := [x] + c;
    forall i | 0 <= i < |t| ensures t[i].hhPrev == At(t, i - 1) && t[i].hhNext == At(t, i + 1) {
      if i > 0 { assert t[i] == c[i - 1]; }
    }
  }

  lemma AppendDistinct(s: seq<Item>, x: Item)
    requires forall i :: 0 <= i < |s| ==> s[i].key != x.key
    ensures DistinctKeys(s) ==> DistinctKeys(s + [x])
  {
  }
}
