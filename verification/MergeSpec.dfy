/** The bottom-up merge sort of HASH_SRT as functions on sequences, and what it guarantees: a sorted,
    stable permutation under any total preorder on the elements. */
module MergeSpec {
  import opened Bits
  import opened Sequences

  type Cmp<!T> = (T, T) -> int

  /** `cmp` orders the elements of `s` totally and transitively. */
  ghost predicate Preorder<T>(cmp: Cmp<T>, s: seq<T>) {
    && (forall x, y :: x in s && y in s ==> cmp(x, y) <= 0 || cmp(y, x) <= 0)
    && (forall x, y, z :: x in s && y in s && z in s && cmp(x, y) <= 0 && cmp(y, z) <= 0 ==> cmp(x, z) <= 0)
  }

  ghost predicate Sorted<T>(cmp: Cmp<T>, s: seq<T>) {
    forall i, j :: 0 <= i < j < |s| ==> cmp(s[i], s[j]) <= 0
  }

  // ---------------------------------------------------------------- the algorithm

  /** Ties go to the first list. */
  function Merge<T>(cmp: Cmp<T>, p: seq<T>, q: seq<T>): (r: seq<T>)
    ensures |r| == |p| + |q|
    decreases |p| + |q|
  {
    if p == [] then q
    else if q == [] then p
    else if cmp(p[0], q[0]) <= 0 then [p[0]] + Merge(cmp, p[1..], q)
    else [q[0]] + Merge(cmp, p, q[1..])
  }

  /** One pass: neighbouring runs of `w` are merged. */
  function Pass<T>(cmp: Cmp<T>, s: seq<T>, w: nat): (r: seq<T>)
    requires w > 0
    ensures |r| == |s|
    decreases |s|
  {
    if s == [] then [] else
    var a := Min(w, |s|);
    var b := Min(2 * w, |s|);
    Merge(cmp, s[..a], s[a..b]) + Pass(cmp, s[b..], w)
  }

  /** Passes with doubled run lengths until one merge covers everything. */
  function SortFrom<T>(cmp: Cmp<T>, s: seq<T>, w: nat): (r: seq<T>)
    requires w > 0
    decreases if |s| > w then |s| - w else 0
  {
    if |s| <= 2 * w then Pass(cmp, s, w) else SortFrom(cmp, Pass(cmp, s, w), 2 * w)
  }

  // ---------------------------------------------------------------- permutation

  lemma {:induction false} MergePermutes<T>(cmp: Cmp<T>, p: seq<T>, q: seq<T>)
    ensures multiset(Merge(cmp, p, q)) == multiset(p) + multiset(q)
    decreases |p| + |q|
  {
    if p != [] && q != [] {
      if cmp(p[0], q[0]) <= 0 {
        MergePermutes(cmp, p[1..], q);
        HeadTail(p);
      } else {
        MergePermutes(cmp, p, q[1..]);
        HeadTail(q);
      }
    }
  }

  lemma {:induction false} PassPermutes<T>(cmp: Cmp<T>, s: seq<T>, w: nat)
    requires w > 0
    ensures multiset(Pass(cmp, s, w)) == multiset(s)
    decreases |s|
  {
    if s != [] {
      hide Merge;
      var a, b := Min(w, |s|), Min(2 * w, |s|);
      MergePermutes(cmp, s[..a], s[a..b]);
      PassPermutes(cmp, s[b..], w);
      ThreeParts(s, a, b);
    }
  }

  lemma {:induction false} SortPermutes<T>(cmp: Cmp<T>, s: seq<T>, w: nat)
    requires w > 0
    ensures multiset(SortFrom(cmp, s, w)) == multiset(s)
    decreases if |s| > w then |s| - w else 0
  {
    PassPermutes(cmp, s, w);
    if |s| > 2 * w { SortPermutes(cmp, Pass(cmp, s, w), 2 * w); }
  }

  lemma PassMembers<T>(cmp: Cmp<T>, s: seq<T>, w: nat, x: T)
    requires w > 0 && x in Pass(cmp, s, w)
    ensures x in s
  {
    PassPermutes(cmp, s, w);
    assert x in multiset(Pass(cmp, s, w));
  }

  // ---------------------------------------------------------------- sortedness

  lemma {:induction false} MergeSorts<T>(cmp: Cmp<T>, p: seq<T>, q: seq<T>)
    requires Preorder(cmp, p + q) && Sorted(cmp, p) && Sorted(cmp, q)
    ensures Sorted(cmp, Merge(cmp, p, q))
    decreases |p| + |q|
  {
    if p != [] && q != [] {
      if cmp(p[0], q[0]) <= 0 {
        MergeSorts(cmp, p[1..], q);
        HeadBelow(cmp, p[0], p[1..], q);
      } else {
        MergeSorts(cmp, p, q[1..]);
        HeadBelow(cmp, q[0], p, q[1..]);
      }
    }
  }

  /** An element below everything in both lists is below their merge. */
  lemma HeadBelow<T>(cmp: Cmp<T>, x: T, p: seq<T>, q: seq<T>)
    requires forall y :: y in p || y in q ==> cmp(x, y) <= 0
    requires Sorted(cmp, Merge(cmp, p, q))
    ensures Sorted(cmp, [x] + Merge(cmp, p, q))
  {
    var m := Merge(cmp, p, q);
    MergePermutes(cmp, p, q);
    forall i | 0 <= i < |m| ensures cmp(x, m[i]) <= 0 {
      assert m[i] in multiset(m);
      assert m[i] in p || m[i] in q;
    }
  }

  /** Every run of w elements is sorted. */
  ghost predicate RunsSorted<T>(cmp: Cmp<T>, s: seq<T>, w: nat)
    requires w > 0
    decreases |s|
  {
    if |s| <= w then Sorted(cmp, s) else Sorted(cmp, s[..w]) && RunsSorted(cmp, s[w..], w)
  }

  lemma {:induction false} RunsOfOne<T>(cmp: Cmp<T>, s: seq<T>)
    ensures RunsSorted(cmp, s, 1)
    decreases |s|
  {
    if |s| > 1 { RunsOfOne(cmp, s[1..]); }
  }

  lemma RunsUnfold<T>(cmp: Cmp<T>, s: seq<T>, w: nat)
    requires w > 0 && RunsSorted(cmp, s, w)
    ensures |s| <= w ==> Sorted(cmp, s)
    ensures |s| > w ==> Sorted(cmp, s[..w]) && RunsSorted(cmp, s[w..], w)
  {
    hide Sorted;
  }

  lemma RunsSplit<T>(cmp: Cmp<T>, s: seq<T>, w: nat)
    requires w > 0 && RunsSorted(cmp, s, w)
    ensures var a, b := Min(w, |s|), Min(2 * w, |s|);
      Sorted(cmp, s[..a]) && Sorted(cmp, s[a..b]) && RunsSorted(cmp, s[b..], w)
  {
    hide Sorted, RunsSorted;
    RunsUnfold(cmp, s, w);
    NoRuns<T>(cmp, w);
    if |s| <= w {
      assert s[..|s|] == s && s[|s|..|s|] == [] && s[|s|..] == [];
    } else {
      RunsUnfold(cmp, s[w..], w);
      if |s| <= 2 * w {
        assert s[w..|s|] == s[w..] && s[|s|..] == [];
      } else {
        DropDrop(s, w, w);
      }
    }
  }

  lemma RunsJoin<T>(cmp: Cmp<T>, m: seq<T>, t: seq<T>, w: nat)
    requires w > 0 && Sorted(cmp, m) && RunsSorted(cmp, t, w) && |m| <= w && (t != [] ==> |m| == w)
    ensures RunsSorted(cmp, m + t, w)
  {
    if t == [] { assert m + t == m; } else { assert (m + t)[..w] == m && (m + t)[w..] == t; }
  }

  lemma {:induction false} PassDoubles<T>(cmp: Cmp<T>, s: seq<T>, w: nat)
    requires w > 0 && Preorder(cmp, s) && RunsSorted(cmp, s, w)
    ensures RunsSorted(cmp, Pass(cmp, s, w), 2 * w)
    decreases |s|
  {
    hide RunsSorted, Sorted;
    if s == [] {
      NoRuns<T>(cmp, 2 * w);
    } else {
      var a, b := Min(w, |s|), Min(2 * w, |s|);
      RunsSplit(cmp, s, w);
      PreorderPart(cmp, s, s[..a] + s[a..b]);
      PreorderPart(cmp, s, s[b..]);
      MergeSorts(cmp, s[..a], s[a..b]);
      PassDoubles(cmp, s[b..], w);
      RunsJoin(cmp, Merge(cmp, s[..a], s[a..b]), Pass(cmp, s[b..], w), 2 * w);
    }
  }

  lemma NoRuns<T>(cmp: Cmp<T>, w: nat)
    requires w > 0
    ensures RunsSorted(cmp, [], w) && Sorted(cmp, [])
  {
  }

  lemma PreorderPart<T>(cmp: Cmp<T>, s: seq<T>, t: seq<T>)
    requires Preorder(cmp, s) && forall x :: x in t ==> x in s
    ensures Preorder(cmp, t)
  {
  }

  lemma {:induction false} SortSorts<T>(cmp: Cmp<T>, s: seq<T>, w: nat)
    requires w > 0 && Preorder(cmp, s) && RunsSorted(cmp, s, w)
    ensures Sorted(cmp, SortFrom(cmp, s, w))
    decreases if |s| > w then |s| - w else 0
  {
    hide Sorted, Preorder;
    PassDoubles(cmp, s, w);
    if |s| > 2 * w {
      forall x | x in Pass(cmp, s, w) ensures x in s { PassMembers(cmp, s, w, x); }
      PreorderPart(cmp, s, Pass(cmp, s, w));
      SortSorts(cmp, Pass(cmp, s, w), 2 * w);
    }
  }

  // ---------------------------------------------------------------- stability

  predicate Tied<T>(cmp: Cmp<T>, x: T, y: T) { cmp(x, y) <= 0 && cmp(y, x) <= 0 }

  /** The elements tied with x, in order. */
  function Ties<T>(cmp: Cmp<T>, x: T, s: seq<T>): seq<T> {
    if s == [] then [] else (if Tied(cmp, x, s[0]) then [s[0]] else []) + Ties(cmp, x, s[1..])
  }

  lemma {:induction false} TiesConcat<T>(cmp: Cmp<T>, x: T, s: seq<T>, t: seq<T>)
    ensures Ties(cmp, x, s + t) == Ties(cmp, x, s) + Ties(cmp, x, t)
  {
    hide Tied;
    if s == [] {
      assert s + t == t;
    } else {
      TiesConcat(cmp, x, s[1..], t);
      assert (s + t)[1..] == s[1..] + t && (s + t)[0] == s[0];
      var h := if Tied(cmp, x, s[0]) then [s[0]] else [];
      Assoc3(h, Ties(cmp, x, s[1..]), Ties(cmp, x, t));
    }
  }

  lemma {:induction false} NoTies<T>(cmp: Cmp<T>, x: T, s: seq<T>)
    requires forall y :: y in s ==> !Tied(cmp, x, y)
    ensures Ties(cmp, x, s) == []
  {
    if s != [] {
      assert s[0] in s;
      NoTies(cmp, x, s[1..]);
    }
  }

  lemma {:induction false} MergeStable<T>(cmp: Cmp<T>, x: T, p: seq<T>, q: seq<T>)
    requires Preorder(cmp, [x] + p + q) && Sorted(cmp, p)
    ensures Ties(cmp, x, Merge(cmp, p, q)) == Ties(cmp, x, p) + Ties(cmp, x, q)
    decreases |p| + |q|
  {
    hide Preorder, Tied, Ties;
    if p == [] || q == [] {
      NoTies(cmp, x, []);
    } else if cmp(p[0], q[0]) <= 0 {
      PreorderPart(cmp, [x] + p + q, [x] + p[1..] + q);
      MergeStable(cmp, x, p[1..], q);
      FirstStays(cmp, x, p, q);
    } else {
      PreorderPart(cmp, [x] + p + q, [x] + p + q[1..]);
      MergeStable(cmp, x, p, q[1..]);
      Overtakes(cmp, x, p, q);
      SecondStays(cmp, x, p, q);
    }
  }

  lemma FirstStays<T>(cmp: Cmp<T>, x: T, p: seq<T>, q: seq<T>)
    requires p != []
    requires Ties(cmp, x, Merge(cmp, p[1..], q)) == Ties(cmp, x, p[1..]) + Ties(cmp, x, q)
    ensures Ties(cmp, x, [p[0]] + Merge(cmp, p[1..], q)) == Ties(cmp, x, p) + Ties(cmp, x, q)
  {
    hide Tied, Ties, Merge;
    TiesConcat(cmp, x, [p[0]], Merge(cmp, p[1..], q));
    TiesConcat(cmp, x, [p[0]], p[1..]);
    HeadTail(p);
    Assoc3(Ties(cmp, x, [p[0]]), Ties(cmp, x, p[1..]), Ties(cmp, x, q));
  }

  lemma SecondStays<T>(cmp: Cmp<T>, x: T, p: seq<T>, q: seq<T>)
    requires q != []
    requires Ties(cmp, x, Merge(cmp, p, q[1..])) == Ties(cmp, x, p) + Ties(cmp, x, q[1..])
    requires Ties(cmp, x, [q[0]]) + Ties(cmp, x, p) == Ties(cmp, x, p) + Ties(cmp, x, [q[0]])
    ensures Ties(cmp, x, [q[0]] + Merge(cmp, p, q[1..])) == Ties(cmp, x, p) + Ties(cmp, x, q)
  {
    hide Tied, Ties, Merge;
    TiesConcat(cmp, x, [q[0]], Merge(cmp, p, q[1..]));
    TiesConcat(cmp, x, [q[0]], q[1..]);
    HeadTail(q);
    Assoc3(Ties(cmp, x, [q[0]]), Ties(cmp, x, p), Ties(cmp, x, q[1..]));
    Assoc3(Ties(cmp, x, p), Ties(cmp, x, [q[0]]), Ties(cmp, x, q[1..]));
  }

  /** An element that overtakes a sorted list is not tied with any of it. */
  lemma Overtakes<T>(cmp: Cmp<T>, x: T, p: seq<T>, q: seq<T>)
    requires p != [] && q != [] && Preorder(cmp, [x] + p + q) && Sorted(cmp, p) && cmp(p[0], q[0]) > 0
    ensures Ties(cmp, x, [q[0]]) + Ties(cmp, x, p) == Ties(cmp, x, p) + Ties(cmp, x, [q[0]])
  {
    hide Ties;
    if Tied(cmp, x, q[0]) {
      forall y | y in p ensures !Tied(cmp, x, y) { NotTied(cmp, x, p, q, y); }
      NoTies(cmp, x, p);
    } else {
      NoTies(cmp, x, [q[0]]);
    }
  }

  lemma NotTied<T>(cmp: Cmp<T>, x: T, p: seq<T>, q: seq<T>, y: T)
    requires q != [] && y in p && Preorder(cmp, [x] + p + q) && Sorted(cmp, p) && cmp(p[0], q[0]) > 0
    requires Tied(cmp, x, q[0])
    ensures !Tied(cmp, x, y)
  {
    var all, b := [x] + p + q, q[0];
    assert x in all && b in all && p[0] in all && y in all;
    var i :| 0 <= i < |p| && p[i] == y;
    assert i == 0 || cmp(p[0], y) <= 0;
    assert Tied(cmp, x, y) ==> cmp(y, b) <= 0;
  }

  lemma {:induction false} PassStable<T>(cmp: Cmp<T>, x: T, s: seq<T>, w: nat)
    requires w > 0 && Preorder(cmp, [x] + s) && RunsSorted(cmp, s, w)
    ensures Ties(cmp, x, Pass(cmp, s, w)) == Ties(cmp, x, s)
    decreases |s|
  {
    hide Preorder, RunsSorted, Sorted, Ties;
    if s != [] {
      var a, b := Min(w, |s|), Min(2 * w, |s|);
      RunsSplit(cmp, s, w);
      PreorderPart(cmp, [x] + s, [x] + s[..a] + s[a..b]);
      PreorderPart(cmp, [x] + s, [x] + s[b..]);
      MergeStable(cmp, x, s[..a], s[a..b]);
      PassStable(cmp, x, s[b..], w);
      TiesConcat(cmp, x, Merge(cmp, s[..a], s[a..b]), Pass(cmp, s[b..], w));
      TiesConcat(cmp, x, s[..a], s[a..b]);
      TiesConcat(cmp, x, s[..a] + s[a..b], s[b..]);
      ThreeParts(s, a, b);
    }
  }

  lemma {:induction false} SortStable<T>(cmp: Cmp<T>, x: T, s: seq<T>, w: nat)
    requires w > 0 && Preorder(cmp, [x] + s) && RunsSorted(cmp, s, w)
    ensures Ties(cmp, x, SortFrom(cmp, s, w)) == Ties(cmp, x, s)
    decreases if |s| > w then |s| - w else 0
  {
    hide Preorder, RunsSorted, Ties;
    PassStable(cmp, x, s, w);
    if |s| > 2 * w {
      PreorderPart(cmp, [x] + s, s);
      PassDoubles(cmp, s, w);
      forall y | y in Pass(cmp, s, w) ensures y in s { PassMembers(cmp, s, w, y); }
      PreorderPart(cmp, [x] + s, [x] + Pass(cmp, s, w));
      SortStable(cmp, x, Pass(cmp, s, w), 2 * w);
    }
  }

  /** Sorting runs of one: a permutation of the input, in order, and elements that compare equal stay
      in the order they had. */
  lemma SortCorrect<T>(cmp: Cmp<T>, s: seq<T>)
    requires Preorder(cmp, s)
    ensures var r := SortFrom(cmp, s, 1);
      && multiset(r) == multiset(s)
      && Sorted(cmp, r)
      && forall x :: x in s ==> Ties(cmp, x, r) == Ties(cmp, x, s)
  {
    hide Preorder, Sorted, Ties, RunsSorted;
    RunsOfOne(cmp, s);
    SortPermutes(cmp, s, 1);
    SortSorts(cmp, s, 1);
    forall x | x in s ensures Ties(cmp, x, SortFrom(cmp, s, 1)) == Ties(cmp, x, s) {
      PreorderPart(cmp, s, [x] + s);
      SortStable(cmp, x, s, 1);
    }
  }

  lemma SortUnfolds<T>(cmp: Cmp<T>, s: seq<T>, w: nat)
    requires w > 0
    ensures SortFrom(cmp, s, w) == if |s| <= 2 * w then Pass(cmp, s, w) else SortFrom(cmp, Pass(cmp, s, w), 2 * w)
  {
    hide Pass;
  }
}
