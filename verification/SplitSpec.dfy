/** Splitting a packet over segments of planned lengths, as functions on byte sequences. */
module SplitSpec {
  import opened Bits
  import opened Bytes
  import opened Sequences

  const UINT16: nat := 0x1_0000
  const UINT32: nat := 0x1_0000_0000
  const INT32_MAX: nat := 0x7FFF_FFFF

  function Concat(s: seq<seq<byte>>): seq<byte> { if s == [] then [] else s[0] + Concat(s[1..]) }

  // ---------------------------------------------------------------- the plan

  /** How many of the configured lengths are used: up to the first that reaches the packet's end. */
  function Used(seglens: seq<nat>, pktLen: nat, i: nat): (n: nat)
    requires i <= |seglens|
    ensures i <= n <= |seglens|
    decreases |seglens| - i
  {
    if i == |seglens| || Sum(seglens[..i]) >= pktLen then i else Used(seglens, pktLen, i + 1)
  }

  /** The lengths in use; the last is enlarged by what is missing, in 16 bits. */
  function Plan(seglens: seq<nat>, pktLen: nat): (plan: seq<nat>)
    requires seglens != [] && pktLen > 0
  {
    var n := Used(seglens, pktLen, 0);
    UsedSome(seglens, pktLen);
    var missing := (pktLen - Sum(seglens[..n])) % UINT32;
    if missing <= INT32_MAX then seglens[..n][n - 1 := (seglens[n - 1] + missing) % UINT16] else seglens[..n]
  }

  lemma UsedSome(seglens: seq<nat>, pktLen: nat)
    requires seglens != [] && pktLen > 0
    ensures Used(seglens, pktLen, 0) > 0
  {
    assert Sum(seglens[..0]) == 0;
  }

  lemma {:induction false} UsedStops(seglens: seq<nat>, pktLen: nat, i: nat)
    requires i <= |seglens|
    ensures var n := Used(seglens, pktLen, i);
      && (n < |seglens| ==> Sum(seglens[..n]) >= pktLen)
      && forall k :: i <= k < n ==> Sum(seglens[..k]) < pktLen
    decreases |seglens| - i
  {
    if i < |seglens| && Sum(seglens[..i]) < pktLen { UsedStops(seglens, pktLen, i + 1); }
  }

  /** The plan reaches the packet's end with its last segment, and not before. */
  lemma PlanFits(seglens: seq<nat>, pktLen: nat)
    requires seglens != [] && pktLen > 0
    ensures var plan := Plan(seglens, pktLen);
      && 0 < |plan| <= |seglens|
      && Sum(plan[..|plan| - 1]) < pktLen
      && (pktLen < UINT16 ==> pktLen <= Sum(plan))
  {
    hide Sum, Used, Plan;
    var front, a, b := PlanShape(seglens, pktLen);
    SumAppend(front, a);
    SumAppend(front, b);
    assert (front + [b])[..|front|] == front;
  }

  /** The lengths in front of the last one in use, the last as configured and the last as planned. */
  lemma PlanShape(seglens: seq<nat>, pktLen: nat) returns (front: seq<nat>, a: nat, b: nat)
    requires seglens != [] && pktLen > 0
    ensures |front| < |seglens| && Plan(seglens, pktLen) == front + [b]
    ensures front == seglens[..|front|] && a == seglens[|front|]
    ensures Sum(front) < pktLen && (|front| + 1 < |seglens| ==> Sum(front + [a]) >= pktLen)
    ensures var missing := (pktLen - Sum(front + [a])) % UINT32;
      b == if missing <= INT32_MAX then (a + missing) % UINT16 else a
  {
    hide Sum, Used;
    UsedSome(seglens, pktLen);
    UsedStops(seglens, pktLen, 0);
    var n := Used(seglens, pktLen, 0);
    front, a, b := seglens[..n - 1], seglens[n - 1], Plan(seglens, pktLen)[n - 1];
    assert seglens[..n] == front + [a];
  }

  /** The plan in terms of the configured lengths: those of them that the packet needs, as they are, the last
      one enlarged by what is missing when all of them are too short. */
  lemma PlanConfigured(seglens: seq<nat>, pktLen: nat)
    requires 0 < |seglens| < 256 && pktLen > 0 && forall k :: 0 <= k < |seglens| ==> seglens[k] < UINT16
    ensures var plan := Plan(seglens, pktLen); var n := |plan|;
      && 0 < n <= |seglens| && plan[..n - 1] == seglens[..n - 1] && Sum(seglens[..n - 1]) < pktLen
      && (pktLen <= Sum(seglens) ==> pktLen <= Sum(seglens[..n]) && plan == seglens[..n])
      && (pktLen > Sum(seglens) ==> n == |seglens|)
      && (Sum(seglens) < pktLen < UINT16 ==> Sum(plan) == pktLen)
  {
    hide Sum, Used, Plan;
    var front, a, b := PlanShape(seglens, pktLen);
    var n := |front| + 1;
    PlanFront(seglens, pktLen, front, a, b);
    SumAppend(front, a);
    SumAppend(front, b);
    SumBelow(seglens[..n]);
    assert (front + [b])[..|front|] == front == seglens[..n][..n - 1];
    assert seglens[..|seglens|] == seglens;
    SumGrows(seglens, n);
    if Sum(seglens[..n]) > pktLen { MissingWraps(pktLen - Sum(seglens[..n])); }
  }

  /** A sum of at most 255 lengths is far from 2^31. */
  lemma {:induction false} SumBelow(s: seq<nat>)
    requires forall k :: 0 <= k < |s| ==> s[k] < UINT16
    ensures Sum(s) <= |s| * UINT16
  {
    if s != [] { SumBelow(s[..|s| - 1]); }
  }

  lemma MissingWraps(x: int)
    requires -0x100_0000 <= x < 0
    ensures x % UINT32 > INT32_MAX
  {
    assert x % UINT32 == UINT32 + x;
  }

  lemma PlanFront(seglens: seq<nat>, pktLen: nat, front: seq<nat>, a: nat, b: nat)
    requires seglens != [] && pktLen > 0 && |front| < |seglens| && Plan(seglens, pktLen) == front + [b]
    requires front == seglens[..|front|] && a == seglens[|front|]
    ensures seglens[..|front| + 1] == front + [a]
  {
  }

  lemma SumAppend(s: seq<nat>, x: nat)
    ensures Sum(s + [x]) == Sum(s) + x
  {
    assert (s + [x])[..|s|] == s;
  }

  // ---------------------------------------------------------------- the split

  /** What is left of the source after a piece of at most d bytes of its first segment. */
  function After(srcs: seq<seq<byte>>, d: nat): (r: seq<seq<byte>>)
    requires srcs != []
  {
    if d >= |srcs[0]| then srcs[1..] else [srcs[0][d..]] + srcs[1..]
  }

  /** The destination segments: each takes from one source segment only. */
  function Fill(srcs: seq<seq<byte>>, plan: seq<nat>): (r: seq<seq<byte>>)
    ensures |r| <= |plan|
    decreases |plan|
  {
    if srcs == [] || plan == [] then [] else
    [srcs[0][..Min(plan[0], |srcs[0]|)]] + Fill(After(srcs, plan[0]), plan[1..])
  }

  /** The source segments that found no room. */
  function Left(srcs: seq<seq<byte>>, plan: seq<nat>): seq<seq<byte>>
    decreases |plan|
  {
    if srcs == [] || plan == [] then srcs else Left(After(srcs, plan[0]), plan[1..])
  }

  /** No byte is lost, changed or moved. */
  lemma {:induction false} SplitConserves(srcs: seq<seq<byte>>, plan: seq<nat>)
    ensures Concat(Fill(srcs, plan)) + Concat(Left(srcs, plan)) == Concat(srcs)
    decreases |plan|
  {
    if srcs != [] && plan != [] {
      hide Concat;
      var s, d, rest := srcs[0], Min(plan[0], |srcs[0]|), After(srcs, plan[0]);
      SplitConserves(rest, plan[1..]);
      ConcatHead(s[..d], Fill(rest, plan[1..]));
      Assoc3(s[..d], Concat(Fill(rest, plan[1..])), Concat(Left(rest, plan[1..])));
      AfterConserves(srcs, plan[0]);
    }
  }

  lemma ConcatHead(a: seq<byte>, s: seq<seq<byte>>)
    ensures Concat([a] + s) == a + Concat(s)
  {
    assert ([a] + s)[1..] == s;
  }

  lemma AfterConserves(srcs: seq<seq<byte>>, d: nat)
    requires srcs != []
    ensures srcs[0][..Min(d, |srcs[0]|)] + Concat(After(srcs, d)) == Concat(srcs)
  {
    var s := srcs[0];
    if d < |s| {
      ConcatHead(s[d..], srcs[1..]);
      Assoc3(s[..d], s[d..], Concat(srcs[1..]));
      assert s[..d] + s[d..] == s;
    } else {
      assert s[..|s|] == s;
    }
  }

  /** Where the j-th source segment begins in the packet. */
  function Border(srcs: seq<seq<byte>>, j: nat): nat
    requires j <= |srcs|
  {
    |Concat(srcs[..j])|
  }

  lemma BorderAfter(srcs: seq<seq<byte>>, d: nat, j: nat)
    requires 0 < j <= |srcs|
    ensures var i := if d >= |srcs[0]| then j - 1 else j;
      i <= |After(srcs, d)| && Border(srcs, j) == Min(d, |srcs[0]|) + Border(After(srcs, d), i)
  {
    assert srcs[..j] == [srcs[0]] + srcs[1..][..j - 1];
    ConcatHead(srcs[0], srcs[1..][..j - 1]);
    if d < |srcs[0]| {
      assert After(srcs, d)[..j] == [srcs[0][d..]] + srcs[1..][..j - 1];
      ConcatHead(srcs[0][d..], srcs[1..][..j - 1]);
    }
  }

  /** Piece k of the copy ends where a source segment ends. */
  ghost predicate EndsSegment(srcs: seq<seq<byte>>, plan: seq<nat>, k: nat)
    requires k < |Fill(srcs, plan)|
  {
    exists j: nat :: 0 < j <= |srcs| && Border(srcs, j) == |Concat(Fill(srcs, plan)[..k + 1])|
  }

  lemma FillHead(srcs: seq<seq<byte>>, plan: seq<nat>, k: nat)
    requires srcs != [] && plan != [] && k <= |Fill(After(srcs, plan[0]), plan[1..])|
    ensures var more := Fill(After(srcs, plan[0]), plan[1..]);
      && |Fill(srcs, plan)| == 1 + |more| && |Fill(srcs, plan)[0]| == Min(plan[0], |srcs[0]|)
      && Fill(srcs, plan)[1..] == more
      && |Concat(Fill(srcs, plan)[..k + 1])| == Min(plan[0], |srcs[0]|) + |Concat(more[..k])|
  {
    var head, more := srcs[0][..Min(plan[0], |srcs[0]|)], Fill(After(srcs, plan[0]), plan[1..]);
    assert Fill(srcs, plan)[..k + 1] == [head] + more[..k];
    ConcatHead(head, more[..k]);
  }

  /** A piece shorter than planned ends its source segment: no segment is left half full for nothing. */
  lemma {:induction false} PieceFull(srcs: seq<seq<byte>>, plan: seq<nat>, k: nat)
    requires k < |Fill(srcs, plan)|
    ensures |Fill(srcs, plan)[k]| == plan[k] || EndsSegment(srcs, plan, k)
    decreases |plan|
  {
    hide Fill, Concat, Border, After;
    FillSome(srcs, plan);
    var rest := After(srcs, plan[0]);
    FillHead(srcs, plan, 0);
    if k == 0 {
      if plan[0] >= |srcs[0]| {
        BorderAfter(srcs, plan[0], 1);
        BorderNone(rest);
        EmptyConcat(Fill(rest, plan[1..]));
        assert Border(srcs, 1) == |Concat(Fill(srcs, plan)[..0 + 1])|;
      }
    } else {
      FillHead(srcs, plan, k);
      assert Fill(srcs, plan)[k] == Fill(srcs, plan)[1..][k - 1];
      PieceFull(rest, plan[1..], k - 1);
      if EndsSegment(rest, plan[1..], k - 1) {
        var j: nat :| 0 < j <= |rest| && Border(rest, j) == |Concat(Fill(rest, plan[1..])[..k - 1 + 1])|;
        AfterLength(srcs, plan[0]);
        var i := if plan[0] >= |srcs[0]| then j + 1 else j;
        BorderAfter(srcs, plan[0], i);
        assert Border(srcs, i) == |Concat(Fill(srcs, plan)[..k + 1])|;
      }
    }
  }

  lemma FillSome(srcs: seq<seq<byte>>, plan: seq<nat>)
    requires Fill(srcs, plan) != []
    ensures srcs != [] && plan != []
  {
  }

  lemma BorderNone(srcs: seq<seq<byte>>)
    ensures Border(srcs, 0) == 0
  {
  }

  lemma EmptyConcat(s: seq<seq<byte>>)
    ensures Concat(s[..0]) == []
  {
  }

  lemma AfterLength(srcs: seq<seq<byte>>, d: nat)
    requires srcs != []
    ensures |After(srcs, d)| == if d >= |srcs[0]| then |srcs| - 1 else |srcs|
  {
  }

  /** No piece takes bytes of two source segments. */
  lemma {:induction false} PieceInside(srcs: seq<seq<byte>>, plan: seq<nat>, k: nat, j: nat)
    requires k < |Fill(srcs, plan)| && j <= |srcs|
    ensures var f := Fill(srcs, plan); Border(srcs, j) <= |Concat(f[..k])| || |Concat(f[..k + 1])| <= Border(srcs, j)
    decreases |plan|
  {
    hide Fill, Concat, Border, After;
    FillSome(srcs, plan);
    BorderNone(srcs);
    if j > 0 {
      var rest := After(srcs, plan[0]);
      BorderAfter(srcs, plan[0], j);
      AfterLength(srcs, plan[0]);
      var i := if plan[0] >= |srcs[0]| then j - 1 else j;
      FillHead(srcs, plan, 0);
      FillHead(srcs, plan, k);
      if k == 0 {
        EmptyConcat(Fill(rest, plan[1..]));
      } else {
        FillHead(srcs, plan, k - 1);
        PieceInside(rest, plan[1..], k - 1, i);
      }
    }
  }

  /** The copy stops only when the source or the plan is used up. */
  lemma {:induction false} FillStops(srcs: seq<seq<byte>>, plan: seq<nat>)
    ensures Left(srcs, plan) == [] || |Fill(srcs, plan)| == |plan|
    decreases |plan|
  {
    hide After;
    if srcs != [] && plan != [] { FillStops(After(srcs, plan[0]), plan[1..]); }
  }

  /** No segment exceeds its planned length. */
  lemma {:induction false} FillWithin(srcs: seq<seq<byte>>, plan: seq<nat>, k: nat)
    requires k < |Fill(srcs, plan)|
    ensures |Fill(srcs, plan)[k]| <= plan[k]
    decreases |plan|
  {
    if k > 0 { FillWithin(After(srcs, plan[0]), plan[1..], k - 1); }
  }

  lemma {:induction false} SumHead(s: seq<nat>)
    requires s != []
    ensures Sum(s) == s[0] + Sum(s[1..])
    decreases |s|
  {
    if |s| > 1 {
      SumHead(s[..|s| - 1]);
      assert s[..|s| - 1][1..] == s[1..][..|s| - 2];
    }
  }

  /** A segment list holds at most the sum of its planned lengths. */
  lemma {:induction false} FillBounded(srcs: seq<seq<byte>>, plan: seq<nat>)
    ensures |Concat(Fill(srcs, plan))| <= Sum(plan[..|Fill(srcs, plan)|])
    decreases |plan|
  {
    if srcs != [] && plan != [] {
      var rest, s := After(srcs, plan[0]), srcs[0][..Min(plan[0], |srcs[0]|)];
      var f := Fill(rest, plan[1..]);
      FillBounded(rest, plan[1..]);
      ConcatHead(s, f);
      SumHead(plan[..|f| + 1]);
      assert plan[..|f| + 1][1..] == plan[1..][..|f|];
    }
  }

  lemma {:induction false} SumGrows(s: seq<nat>, k: nat)
    requires k <= |s|
    ensures Sum(s[..k]) <= Sum(s)
    decreases |s|
  {
    if k < |s| {
      SumGrows(s[..|s| - 1], k);
      assert s[..|s| - 1][..k] == s[..k];
    } else {
      assert s[..k] == s;
    }
  }

  /** A packet the plan does not end early for, copied whole, fills all planned segments. */
  lemma AllUsed(srcs: seq<seq<byte>>, plan: seq<nat>)
    requires Left(srcs, plan) == [] && plan != [] && Sum(plan[..|plan| - 1]) < |Concat(srcs)|
    ensures |Fill(srcs, plan)| == |plan|
  {
    SplitConserves(srcs, plan);
    FillBounded(srcs, plan);
    var n := |Fill(srcs, plan)|;
    assert Concat(Left(srcs, plan)) == [];
    if n < |plan| { SumPrefix(plan, n); }
  }

  lemma SumPrefix(s: seq<nat>, n: nat)
    requires n < |s|
    ensures Sum(s[..n]) <= Sum(s[..|s| - 1])
  {
    SumGrows(s[..|s| - 1], n);
    assert s[..|s| - 1][..n] == s[..n];
  }

  // ---------------------------------------------------------------- when everything fits

  function Lengths(srcs: seq<seq<byte>>): (r: seq<nat>)
    ensures |r| == |srcs|
  {
    if srcs == [] then [] else [|srcs[0]|] + Lengths(srcs[1..])
  }

  /** The planned lengths can be dealt out, in order and at least one each, so that every source segment
      gets at least its own length. */
  ghost predicate Cut(lens: seq<nat>, plan: seq<nat>)
    decreases |lens|
  {
    lens == [] || exists k :: 0 < k <= |plan| && CutAt(lens, plan, k)
  }

  ghost predicate CutAt(lens: seq<nat>, plan: seq<nat>, k: nat)
    requires lens != [] && k <= |plan|
    decreases |lens|, 0
  {
    lens[0] <= Sum(plan[..k]) && Cut(lens[1..], plan[k..])
  }

  lemma CutSome(lens: seq<nat>, plan: seq<nat>) returns (k: nat)
    requires lens != [] && Cut(lens, plan)
    ensures 0 < k <= |plan| && lens[0] <= Sum(plan[..k]) && Cut(lens[1..], plan[k..])
  {
    k :| 0 < k <= |plan| && CutAt(lens, plan, k);
  }

  lemma CutBy(lens: seq<nat>, plan: seq<nat>, k: nat)
    requires lens != [] && 0 < k <= |plan| && lens[0] <= Sum(plan[..k]) && Cut(lens[1..], plan[k..])
    ensures Cut(lens, plan)
  {
    assert CutAt(lens, plan, k);
  }

  lemma NothingToCut(plan: seq<nat>)
    ensures Cut([], plan)
  {
  }

  lemma TakeSum(plan: seq<nat>, k: nat)
    requires k < |plan|
    ensures Sum(plan[..k + 1]) == plan[0] + Sum(plan[1..][..k])
    ensures plan[1..][k..] == plan[k + 1..] && (k == 0 ==> Sum(plan[1..][..k]) == 0)
  {
    SumHead(plan[..k + 1]);
    assert plan[..k + 1][1..] == plan[1..][..k];
  }

  /** One more planned length in front does no harm. */
  lemma CutWidens(lens: seq<nat>, plan: seq<nat>)
    requires plan != [] && Cut(lens, plan[1..])
    ensures Cut(lens, plan)
  {
    hide Cut, Sum;
    if lens == [] {
      NothingToCut(plan);
    } else {
      var k := CutSome(lens, plan[1..]);
      TakeSum(plan, k);
      CutBy(lens, plan, k + 1);
    }
  }

  lemma {:induction false} CutWidensBy(lens: seq<nat>, plan: seq<nat>, n: nat)
    requires n <= |plan| && Cut(lens, plan[n..])
    ensures Cut(lens, plan)
    decreases n
  {
    hide Cut;
    if n > 0 {
      assert plan[1..][n - 1..] == plan[n..];
      CutWidensBy(lens, plan[1..], n - 1);
      CutWidens(lens, plan);
    } else {
      assert plan[0..] == plan;
    }
  }

  /** A segment that the first planned length covers may as well take only that. */
  lemma CutCovered(lens: seq<nat>, plan: seq<nat>)
    requires lens != [] && plan != [] && lens[0] <= plan[0]
    ensures Cut(lens, plan) <==> Cut(lens[1..], plan[1..])
  {
    hide Cut, Sum;
    TakeSum(plan, 0);
    if Cut(lens[1..], plan[1..]) { CutBy(lens, plan, 1); }
    if Cut(lens, plan) {
      var k := CutSome(lens, plan);
      assert plan[1..][k - 1..] == plan[k..];
      CutWidensBy(lens[1..], plan[1..], k - 1);
    }
  }

  /** A longer one takes it whole and goes on. */
  lemma CutLonger(lens: seq<nat>, plan: seq<nat>)
    requires lens != [] && plan != [] && lens[0] > plan[0]
    ensures Cut(lens, plan) <==> Cut([lens[0] - plan[0]] + lens[1..], plan[1..])
  {
    hide Cut, Sum;
    var rest := [lens[0] - plan[0]] + lens[1..];
    assert rest[1..] == lens[1..];
    if Cut(lens, plan) {
      var k := CutSome(lens, plan);
      TakeSum(plan, k - 1);
      CutBy(rest, plan[1..], k - 1);
    }
    if Cut(rest, plan[1..]) {
      var k := CutSome(rest, plan[1..]);
      TakeSum(plan, k);
      CutBy(lens, plan, k + 1);
    }
  }

  /** Filling greedily is best: all bytes find room exactly when the planned lengths can be dealt out. */
  lemma {:induction false} FitsExactly(srcs: seq<seq<byte>>, plan: seq<nat>)
    ensures Left(srcs, plan) == [] <==> Cut(Lengths(srcs), plan)
    decreases |plan|
  {
    if srcs != [] && plan != [] {
      hide Cut, Lengths, After;
      FitsExactly(After(srcs, plan[0]), plan[1..]);
      LengthsAfter(srcs, plan[0]);
      HeadTail(srcs);
      LengthsHead(srcs[0], srcs[1..]);
      assert Lengths(srcs)[1..] == Lengths(srcs[1..]);
      if |srcs[0]| <= plan[0] {
        CutCovered(Lengths(srcs), plan);
      } else {
        CutLonger(Lengths(srcs), plan);
      }
    }
  }

  lemma LengthsAfter(srcs: seq<seq<byte>>, d: nat)
    requires srcs != []
    ensures Lengths(After(srcs, d)) ==
      (if |srcs[0]| <= d then Lengths(srcs[1..]) else [|srcs[0]| - d] + Lengths(srcs[1..]))
  {
    hide Lengths;
    if d < |srcs[0]| {
      var s := srcs[0][d..];
      LengthsHead(s, srcs[1..]);
    }
  }

  lemma LengthsHead(s: seq<byte>, srcs: seq<seq<byte>>)
    ensures Lengths([s] + srcs) == [|s|] + Lengths(srcs)
  {
    assert ([s] + srcs)[1..] == srcs;
  }

  /** A packet in one segment always fits a plan that is long enough. */
  lemma OneSegmentFits(s: seq<byte>, plan: seq<nat>)
    requires 0 < |s| <= Sum(plan)
    ensures Cut([|s|], plan) && Left([s], plan) == []
  {
    assert plan[..|plan|] == plan && plan != [];
    NothingToCut([]);
    assert [|s|][1..] == [] && plan[|plan|..] == [];
    CutBy([|s|], plan, |plan|);
    LengthsHead(s, []);
    assert [s] + [] == [s] && [|s|] + [] == [|s|];
    FitsExactly([s], plan);
  }

  /** A packet in two segments may not, although there is room for all its bytes. */
  lemma TwoSegmentsRefused(a: byte, b: byte)
    ensures Plan([2], 2) == [2] && !Cut([1, 1], [2]) && Left([[a], [b]], [2]) == [[b]]
  {
    assert [2][..1] == [2] && Sum([2]) == 2 && Sum([2][..0]) == 0;
    assert Used([2], 2, 1) == 1 && Used([2], 2, 0) == 1;
    assert After([[a], [b]], 2) == [[b]];
    assert Lengths([[b]]) == [1] && Lengths([[a], [b]]) == [1, 1];
    FitsExactly([[a], [b]], [2]);
  }
}
