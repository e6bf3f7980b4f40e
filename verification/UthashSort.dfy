/** HASH_SRT: the merge sort that relinks the application order in place, against MergeSpec. */
module UthashSort {
  import opened Bits
  import opened Uthash
  import opened MergeSpec
  import opened Sequences

  const UNSIGNED: nat := 0x1_0000_0000

  // ---------------------------------------------------------------- half-built lists

  /** `next` follows the sequence, up to its last element. */
  ghost predicate Forward(s: seq<Item>)
    reads s`next
  {
    forall i {:trigger s[i].next} :: 0 <= i < |s| - 1 ==> s[i].next == s[i + 1]
  }

  /** `prev` follows the sequence. */
  ghost predicate Backward(s: seq<Item>)
    reads s`prev
  {
    forall i {:trigger s[i].prev} :: 0 <= i < |s| ==> s[i].prev == At(s, i - 1)
  }

  ghost predicate Ended(s: seq<Item>)
    reads s`next
  {
    s != [] ==> s[|s| - 1].next == null
  }

  /** The finished part, the rest of the first run and everything behind it share no element. */
  ghost predicate Apart3(out: seq<Item>, p: seq<Item>, q: seq<Item>) {
    && Distinct(out) && Distinct(p) && Distinct(q)
    && (forall x :: x in out ==> x !in p && x !in q)
    && (forall x :: x in p ==> x !in q)
  }

  ghost predicate Within(out: seq<Item>, p: seq<Item>, q: seq<Item>, items: set<Item>) {
    && (forall x :: x in out ==> x in items)
    && (forall x :: x in p ==> x in items)
    && (forall x :: x in q ==> x in items)
  }

  /** The lists as the merge keeps them. */
  ghost predicate Lists(list: Item?, tail: Item?, out: seq<Item>, p: seq<Item>, q: seq<Item>, items: set<Item>)
    reads items`next, items`prev
  {
    && Within(out, p, q, items)
    && Apart3(out, p, q)
    && list == At(out, 0) && tail == At(out, |out| - 1)
    && Forward(out) && Backward(out)
    && Forward(p) && Forward(q) && Ended(q)
  }

  /** e goes behind the finished part. */
  method Attach(list: Item?, tail: Item?, e: Item, ghost out: seq<Item>, ghost p: seq<Item>, ghost q: seq<Item>,
                ghost items: set<Item>) returns (list': Item?)
    requires Within(out, p, q, items) && Apart3(out, p, q) && e !in out && e !in p && e !in q && e in items
    requires list == At(out, 0) && tail == At(out, |out| - 1)
    requires Forward(out) && Backward(out) && Forward(p) && Forward(q) && Ended(q)
    modifies items`next, items`prev
    ensures Lists(list', e, out + [e], p, q, items)
  {
    hide Distinct;
    NotLast(out);
    list' := list;
    assert out != [] ==> out[|out| - 1] in out;
    if tail != null {
      tail.next := e;
    } else {
      list' := e;
    }
    e.prev := tail;
    assert forall i {:trigger out[i].next} :: 0 <= i < |out| - 1 ==> out[i].next == out[i + 1];
    Grown(out, p, q, e);
    Extended(out, e);
  }

  lemma Grown(out: seq<Item>, p: seq<Item>, q: seq<Item>, e: Item)
    requires Apart3(out, p, q) && e !in out && e !in p && e !in q
    ensures Apart3(out + [e], p, q)
  {
  }

  lemma NotLast(s: seq<Item>)
    requires Distinct(s)
    ensures forall i :: 0 <= i < |s| - 1 ==> s[i] != s[|s| - 1]
  {
  }

  lemma Extended(out: seq<Item>, e: Item)
    requires Forward(out) && Backward(out)
    requires out != [] ==> out[|out| - 1].next == e
    requires e.prev == At(out, |out| - 1)
    ensures Forward(out + [e]) && Backward(out + [e])
  {
    var s := out + [e];
    forall i {:trigger s[i].next} | 0 <= i < |s| - 1 ensures s[i].next == s[i + 1] {
      assert s[i] == out[i];
      if i + 1 < |out| { assert s[i + 1] == out[i + 1]; }
    }
    forall i {:trigger s[i].prev} | 0 <= i < |s| ensures s[i].prev == At(s, i - 1) {
      if i < |out| { assert s[i] == out[i]; }
    }
  }

  // ---------------------------------------------------------------- merging two runs

  lemma TakeP(list: Item?, tail: Item?, out: seq<Item>, p: seq<Item>, q: seq<Item>, items: set<Item>)
    requires Lists(list, tail, out, p, q, items) && p != []
    ensures Within(out, p[1..], q, items) && Apart3(out, p[1..], q) && Forward(p[1..])
    ensures p[0] in items && p[0] !in out && p[0] !in p[1..] && p[0] !in q
    ensures |p| > 1 ==> p[0].next == p[1]
  {
    DropFirst(p);
    ForwardDrop(p, 1);
  }

  lemma TakeQ(list: Item?, tail: Item?, out: seq<Item>, p: seq<Item>, q: seq<Item>, items: set<Item>)
    requires Lists(list, tail, out, p, q, items) && q != []
    ensures Within(out, p, q[1..], items) && Apart3(out, p, q[1..]) && Forward(q[1..]) && Ended(q[1..])
    ensures q[0] in items && q[0] !in out && q[0] !in p && q[0] !in q[1..]
    ensures q[0].next == At(q[1..], 0)
  {
    DropFirst(q);
    ForwardDrop(q, 1);
  }

  lemma DropFirst(s: seq<Item>)
    requires s != [] && Distinct(s)
    ensures Distinct(s[1..]) && s[0] !in s[1..]
  {
  }

  lemma ForwardDrop(s: seq<Item>, k: nat)
    requires Forward(s) && k <= |s|
    ensures Forward(s[k..]) && (Ended(s) ==> Ended(s[k..]))
  {
    var r := s[k..];
    forall i {:trigger r[i].next} | 0 <= i < |r| - 1 ensures r[i].next == r[i + 1] {
      assert r[i] == s[k + i];
    }
    assert r != [] ==> r[|r| - 1] == s[|s| - 1];
  }

  lemma ForwardTake(s: seq<Item>, k: nat)
    requires Forward(s) && k <= |s|
    ensures Forward(s[..k])
  {
    var r := s[..k];
    forall i {:trigger r[i].next} | 0 <= i < |r| - 1 ensures r[i].next == r[i + 1] {
      assert r[i] == s[i];
    }
  }

  lemma FirstGoes(cmp: Cmp<Item>, p: seq<Item>, q: seq<Item>, b: nat)
    requires p != [] && b <= |q| && (b > 0 ==> cmp(p[0], q[0]) <= 0)
    ensures Merge(cmp, p, q[..b]) == [p[0]] + Merge(cmp, p[1..], q[..b])
  {
    if b == 0 { assert Merge(cmp, p[1..], []) == p[1..]; }
  }

  lemma SecondGoes(cmp: Cmp<Item>, p: seq<Item>, q: seq<Item>, b: nat)
    requires 0 < b <= |q| && (p != [] ==> cmp(p[0], q[0]) > 0)
    ensures Merge(cmp, p, q[..b]) == [q[0]] + Merge(cmp, p, q[1..][..b - 1])
    ensures q[1..][b - 1..] == q[b..]
  {
    assert q[..b][1..] == q[1..][..b - 1];
    if p == [] { assert q[..b] == [q[0]] + q[1..][..b - 1]; }
  }

  /** What is finished and what the rest of the merge will add. */
  ghost predicate Owed(cmp: Cmp<Item>, out: seq<Item>, p: seq<Item>, q: seq<Item>, qsize: nat, all: seq<Item>,
                       rest: seq<Item>) {
    var b := Min(qsize, |q|);
    out + Merge(cmp, p, q[..b]) == all && q[b..] == rest
  }

  lemma OwedFirst(cmp: Cmp<Item>, out: seq<Item>, p: seq<Item>, q: seq<Item>, qsize: nat, all: seq<Item>,
                  rest: seq<Item>)
    requires Owed(cmp, out, p, q, qsize, all, rest) && p != []
    requires qsize > 0 && q != [] ==> cmp(p[0], q[0]) <= 0
    ensures Owed(cmp, out + [p[0]], p[1..], q, qsize, all, rest)
  {
    hide Merge;
    FirstGoes(cmp, p, q, Min(qsize, |q|));
    Assoc3(out, [p[0]], Merge(cmp, p[1..], q[..Min(qsize, |q|)]));
  }

  lemma OwedSecond(cmp: Cmp<Item>, out: seq<Item>, p: seq<Item>, q: seq<Item>, qsize: nat, all: seq<Item>,
                   rest: seq<Item>)
    requires Owed(cmp, out, p, q, qsize, all, rest) && qsize > 0 && q != []
    requires p != [] ==> cmp(p[0], q[0]) > 0
    ensures Owed(cmp, out + [q[0]], p, q[1..], qsize - 1, all, rest)
  {
    hide Merge;
    var b := Min(qsize, |q|);
    SecondGoes(cmp, p, q, b);
    Assoc3(out, [q[0]], Merge(cmp, p, q[1..][..b - 1]));
  }

  /** The inner while loop: the run at p and the run of at most `insize` at q, merged onto the finished part. */
  method MergeRuns(cmp: Cmp<Item>, p0: Item, psize0: nat, q0: Item?, insize: nat, list0: Item?, tail0: Item?,
                   ghost out0: seq<Item>, ghost run: seq<Item>, ghost behind: seq<Item>, ghost items: set<Item>)
    returns (list: Item?, tail: Item?, q: Item?, ghost out: seq<Item>)
    requires Lists(list0, tail0, out0, run, behind, items)
    requires psize0 == |run| > 0 && p0 == run[0] && q0 == At(behind, 0)
    modifies items`next, items`prev
    ensures var b := Min(insize, |behind|);
      && out == out0 + Merge(cmp, run, behind[..b])
      && Lists(list, tail, out, [], behind[b..], items)
      && q == At(behind[b..], 0)
  {
    hide Lists, Within, Apart3, Forward, Backward, Ended, Distinct, Merge, Owed;
    var psize, qsize := psize0, insize;
    var p: Item? := p0;
    list, tail, q, out := list0, tail0, q0, out0;
    ghost var ps, qs := run, behind;
    ghost var all, rest := out0 + Merge(cmp, run, behind[..Min(insize, |behind|)]), behind[Min(insize, |behind|)..];
    OwedStart(cmp, out0, run, behind, insize);
    while psize != 0 || (qsize != 0 && q != null)
      invariant Lists(list, tail, out, ps, qs, items) && Owed(cmp, out, ps, qs, qsize, all, rest)
      invariant psize == |ps| && (psize > 0 ==> p == ps[0]) && q == At(qs, 0)
      decreases psize + |qs|
    {
      ghost var second := psize == 0 || (qsize != 0 && q != null && cmp(p, q) > 0);
      if second {
        TakeQ(list, tail, out, ps, qs, items);
        OwedSecond(cmp, out, ps, qs, qsize, all, rest);
      } else {
        TakeP(list, tail, out, ps, qs, items);
        OwedFirst(cmp, out, ps, qs, qsize, all, rest);
      }
      var e: Item;
      if psize == 0 {
        e := q;
        q := q.next;
        qsize := qsize - 1;
      } else if qsize == 0 || q == null {
        e := p;
        p := p.next;
        psize := psize - 1;
      } else if cmp(p, q) <= 0 {
        e := p;
        p := p.next;
        psize := psize - 1;
      } else {
        e := q;
        q := q.next;
        qsize := qsize - 1;
      }
      OpenLists(list, tail, out, ps, qs, items);
      if second { qs := qs[1..]; } else { ps := ps[1..]; }
      list := Attach(list, tail, e, out, ps, qs, items);
      tail, out := e, out + [e];
    }
    OwedEnd(cmp, out, qs, qsize, all, rest);
  }

  lemma OpenLists(list: Item?, tail: Item?, out: seq<Item>, p: seq<Item>, q: seq<Item>, items: set<Item>)
    requires Lists(list, tail, out, p, q, items)
    ensures list == At(out, 0) && tail == At(out, |out| - 1) && Forward(out) && Backward(out)
    ensures Forward(p) && Forward(q) && Ended(q)
  {
  }

  lemma OwedStart(cmp: Cmp<Item>, out: seq<Item>, p: seq<Item>, q: seq<Item>, qsize: nat)
    ensures Owed(cmp, out, p, q, qsize, out + Merge(cmp, p, q[..Min(qsize, |q|)]), q[Min(qsize, |q|)..])
  {
  }

  lemma OwedEnd(cmp: Cmp<Item>, out: seq<Item>, q: seq<Item>, qsize: nat, all: seq<Item>, rest: seq<Item>)
    requires Owed(cmp, out, [], q, qsize, all, rest) && (qsize == 0 || q == [])
    ensures out == all && q == rest
  {
  }

  // ---------------------------------------------------------------- one pass

  /** The for loop: steps over a run of at most `insize`. */
  method StepOver(p: Item, insize: nat, ghost s: seq<Item>) returns (psize: nat, q: Item?)
    requires s != [] && p == s[0] && Forward(s) && Ended(s) && insize > 0
    ensures psize == Min(insize, |s|) && q == At(s, psize)
  {
    q, psize := p, 0;
    var i := 0;
    while i < insize
      invariant psize == i <= insize && i <= |s|
      invariant i < insize ==> i < |s|
      invariant q == At(s, i)
    {
      psize := psize + 1;
      assert q == s[i] && q.next == At(s, i + 1);
      q := q.next;
      if q == null { break; }
      i := i + 1;
    }
  }

  lemma SplitLists(list: Item?, tail: Item?, out: seq<Item>, s: seq<Item>, a: nat, items: set<Item>)
    requires Lists(list, tail, out, [], s, items) && a <= |s|
    ensures Lists(list, tail, out, s[..a], s[a..], items)
  {
    ForwardTake(s, a);
    ForwardDrop(s, a);
  }

  lemma PassStep(cmp: Cmp<Item>, s: seq<Item>, w: nat, behind: seq<Item>, b: nat)
    requires w > 0 && s != [] && behind == s[Min(w, |s|)..] && b == Min(w, |behind|)
    ensures Pass(cmp, s, w) == Merge(cmp, s[..Min(w, |s|)], behind[..b]) + Pass(cmp, behind[b..], w)
    ensures |behind[b..]| == |s| - Min(2 * w, |s|)
  {
    hide Merge, Pass;
    DropDrop(s, Min(w, |s|), b);
    assert Min(w, |s|) + b == Min(2 * w, |s|);
    PassUnfolds(cmp, s, w);
  }

  lemma PassUnfolds(cmp: Cmp<Item>, s: seq<Item>, w: nat)
    requires w > 0 && s != []
    ensures var a, b := Min(w, |s|), Min(2 * w, |s|);
      Pass(cmp, s, w) == Merge(cmp, s[..a], s[a..b]) + Pass(cmp, s[b..], w)
  {
    hide Merge;
  }

  /** The middle while loop and the closing of the list behind it. */
  method RunPass(cmp: Cmp<Item>, list0: Item, insize: nat, ghost s: seq<Item>, ghost items: set<Item>)
    returns (list: Item?, tail: Item?, nmerges: nat, ghost out: seq<Item>)
    requires insize > 0 && s != [] && list0 == s[0]
    requires Lists(null, null, [], [], s, items)
    modifies items`next, items`prev
    ensures out == Pass(cmp, s, insize)
    ensures Lists(list, tail, out, [], [], items) && Ended(out)
    ensures nmerges <= 1 <==> |s| <= 2 * insize
  {
    hide Lists, Within, Apart3, Forward, Backward, Ended, Distinct, Merge, Pass;
    var p: Item? := list0;
    list, tail, nmerges, out := null, null, 0, [];
    ghost var rest := s;
    while p != null
      invariant Lists(list, tail, out, [], rest, items) && p == At(rest, 0)
      invariant out + Pass(cmp, rest, insize) == Pass(cmp, s, insize)
      invariant nmerges == 0 ==> rest == s
      invariant nmerges == 1 ==> |rest| == |s| - Min(2 * insize, |s|)
      invariant nmerges >= 2 ==> |s| > 2 * insize
      decreases |rest|
    {
      nmerges := nmerges + 1;
      OpenLists(list, tail, out, [], rest, items);
      var psize, q := StepOver(p, insize, rest);
      SplitLists(list, tail, out, rest, psize, items);
      ghost var behind := rest[psize..];
      ghost var b := Min(insize, |behind|);
      PassStep(cmp, rest, insize, behind, b);
      Assoc3(out, Merge(cmp, rest[..psize], behind[..b]), Pass(cmp, behind[b..], insize));
      list, tail, q, out := MergeRuns(cmp, p, psize, q, insize, list, tail, out, rest[..psize], behind, items);
      p := q;
      rest := behind[b..];
    }
    NoPass(cmp, insize);
    Close(list, tail, out, items);
  }

  lemma NoPass(cmp: Cmp<Item>, w: nat)
    requires w > 0
    ensures Pass(cmp, [], w) == []
  {
  }

  /** The last element of a pass gets its null. */
  method Close(list: Item?, tail: Item?, ghost out: seq<Item>, ghost items: set<Item>)
    requires Lists(list, tail, out, [], [], items)
    modifies items`next
    ensures Lists(list, tail, out, [], [], items) && Ended(out)
  {
    hide Distinct;
    NotLast(out);
    assert out != [] ==> out[|out| - 1] in out;
    if tail != null {
      tail.next := null;
    }
    assert forall i {:trigger out[i].next} :: 0 <= i < |out| - 1 ==> out[i].next == out[i + 1];
  }

  // ---------------------------------------------------------------- the whole sort

  lemma StartLists(s: seq<Item>, items: set<Item>)
    requires Listed(s) && Distinct(s) && forall x :: x in s ==> x in items
    ensures Lists(null, null, [], [], s, items)
  {
    hide Distinct;
    assert Distinct<Item>([]) by { NoneDistinct(); }
    forall i {:trigger s[i].next} | 0 <= i < |s| - 1 ensures s[i].next == s[i + 1] {}
    assert s != [] ==> s[|s| - 1].next == null;
  }

  lemma NoneDistinct()
    ensures Distinct<Item>([])
  {
  }

  /** After a pass the lists are as before it. */
  lemma NextPass(list: Item?, tail: Item?, s: seq<Item>, items: set<Item>)
    requires Lists(list, tail, s, [], [], items) && Ended(s)
    ensures Lists(null, null, [], [], s, items) && list == At(s, 0) && tail == At(s, |s| - 1) && Listed(s)
  {
    hide Distinct;
    forall i {:trigger s[i].prev} {:trigger s[i].next} | 0 <= i < |s|
      ensures s[i].prev == At(s, i - 1) && s[i].next == At(s, i + 1)
    {
      if i + 1 < |s| { assert s[i].next == s[i + 1]; }
    }
  }

  /** A permutation threads the same items under the same keys. */
  lemma SameItems(s: seq<Item>, t: seq<Item>)
    requires multiset(s) == multiset(t) && DistinctKeys(s) && Distinct(t)
    ensures forall x :: x in s <==> x in t
    ensures DistinctKeys(t)
  {
    assert forall x :: x in s <==> x in multiset(s);
    assert forall x :: x in t <==> x in multiset(t);
    forall i, j | 0 <= i < j < |t| ensures t[i].key != t[j].key {
      assert t[i] in s && t[j] in s && t[i] != t[j];
    }
  }

  lemma SameStored(s: seq<Item>, t: seq<Item>)
    requires DistinctKeys(s) && DistinctKeys(t) && forall x :: x in s <==> x in t
    ensures Stored(s) == Stored(t)
  {
    hide Stored, DistinctKeys;
    forall k | k in Stored(s) ensures k in Stored(t) && Stored(t)[k] == Stored(s)[k] {
      StoredItem(t, Stored(s)[k]);
    }
    forall k | k in Stored(t) ensures k in Stored(s) {
      assert Stored(t)[k] in s;
    }
  }

  /** The outer loop. The run length never wraps around to 0 while it is used, even at 32 bits. */
  method SortList(t: HashTable, cmp: Cmp<Item>, ghost was: seq<Item>, ghost items: set<Item>)
    returns (ghost s: seq<Item>)
    requires was != [] && t.head == was[0] && |was| < UNSIGNED
    requires Listed(was) && Lists(null, null, [], [], was, items)
    modifies t`head, t`tail, items`next, items`prev
    ensures s == SortFrom(cmp, was, 1) && |s| == |was|
    ensures Listed(s) && Lists(null, null, [], [], s, items)
    ensures t.head == At(s, 0) && t.tail == At(s, |s| - 1)
  {
    hide Lists, Within, Apart3, Forward, Backward, Ended, Distinct, Merge, Pass, SortFrom, Listed;
    s := was;
    var insize, looping := 1, true;
    var list := t.head;
    while looping
      invariant Listed(s) && Lists(null, null, [], [], s, items)
      invariant |s| == |was|
      invariant looping ==> 0 < insize < UNSIGNED && list == s[0] && SortFrom(cmp, s, insize) == SortFrom(cmp, was, 1)
      invariant !looping ==> s == SortFrom(cmp, was, 1) && t.head == At(s, 0) && t.tail == At(s, |s| - 1)
      decreases looping, if |s| > insize then |s| - insize else 0
    {
      SortUnfolds(cmp, s, insize);
      var tail, nmerges;
      list, tail, nmerges, s := RunPass(cmp, list, insize, s, items);
      NextPass(list, tail, s, items);
      if nmerges <= 1 {
        looping := false;
        t.tail := tail;
        t.head := list;
      }
      insize := insize * 2 % UNSIGNED;
    }
  }

  /** The application order alone. */
  method Relink(t: HashTable, cmp: Cmp<Item>)
    requires t.OrderFor(t.items) && |t.order| < UNSIGNED
    modifies t`head, t`tail, t`order, t.items`next, t.items`prev
    ensures t.OrderFor(t.items) && t.order == SortFrom(cmp, old(t.order), 1)
    ensures |t.order| == |old(t.order)| && Stored(t.order) == Stored(old(t.order))
  {
    hide Lists, SortFrom, DistinctKeys, Distinct, Listed, Stored, HashTable.OrderFor;
    HeadOf(t);
    if t.head != null {
      StartLists(t.order, t.items);
      SortPermutes(cmp, t.order, 1);
      ghost var s := SortList(t, cmp, t.order, t.items);
      ApartNow(s, t.items);
      SameItems(t.order, s);
      SameStored(t.order, s);
      t.order := s;
      Threads(t, old(t.order));
    } else {
      SortNothing(cmp);
    }
  }

  /** HASH_SRT: the order becomes the merge-sorted order; chains, buckets and every lookup stay. */
  method Sort(t: HashTable, cmp: Cmp<Item>)
    requires t.Valid() && |t.order| < UNSIGNED
    modifies t`head, t`tail, t`order, t.items`next, t.items`prev
    ensures t.Valid() && t.order == SortFrom(cmp, old(t.order), 1)
    ensures Stored(t.order) == Stored(old(t.order))
  {
    hide SortFrom, Stored, SumLengths, HashTable.OrderFor, HashTable.HashesOk, HashTable.BucketsOk, HashTable.PlacedOk;
    Relink(t, cmp);
  }

  lemma HeadOf(t: HashTable)
    requires t.OrderFor(t.items)
    ensures t.head == At(t.order, 0) && Listed(t.order) && Distinct(t.order) && DistinctKeys(t.order)
    ensures forall x :: x in t.order <==> x in t.items
  {
  }

  lemma Threads(t: HashTable, was: seq<Item>)
    requires t.head == At(t.order, 0) && t.tail == At(t.order, |t.order| - 1)
    requires Listed(t.order) && Distinct(t.order) && DistinctKeys(t.order)
    requires forall x :: x in was <==> x in t.items
    requires forall x :: x in was <==> x in t.order
    ensures t.OrderFor(t.items)
  {
  }

  lemma ApartNow(s: seq<Item>, items: set<Item>)
    requires Lists(null, null, [], [], s, items)
    ensures Distinct(s)
  {
  }

  lemma SortNothing(cmp: Cmp<Item>)
    ensures SortFrom(cmp, [], 1) == []
  {
  }
}
