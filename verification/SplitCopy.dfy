/** pkt_copy_split of csumonly.c: a packet copied into new, segmented mbufs. */
module SplitCopy {
  import opened Bits
  import opened Bytes
  import opened Sequences
  import opened SplitSpec

  class Mbuf {
    /** the bytes written from the data pointer on */
    var mem: seq<byte>
    var dataLen: nat
    var next: Mbuf?
    var nbSegs: nat
    var pktLen: nat
    var vlanTci: int
    var vlanTciOuter: int
    var olFlags: int
    var txOffload: int

    /** rte_pktmbuf_reset */
    constructor ()
      ensures mem == [] && dataLen == 0 && next == null
    {
      mem, dataLen, next := [], 0, null;
      nbSegs, pktLen, vlanTci, vlanTciOuter, olFlags, txOffload := 1, 0, 0, 0, 0, 0;
    }
  }

  function At(s: seq<Mbuf>, i: int): Mbuf? { if 0 <= i < |s| then s[i] else null }

  /** The segment holds exactly these bytes. */
  ghost predicate Holds(m: Mbuf, data: seq<byte>)
    reads m`mem, m`dataLen
  {
    m.dataLen == |data| && data <= m.mem
  }

  /** A chain of segments holding `datas`. */
  ghost predicate Chain(ms: seq<Mbuf>, datas: seq<seq<byte>>)
    reads ms`mem, ms`dataLen, ms`next
  {
    && |ms| == |datas|
    && (forall k :: 0 <= k < |ms| ==> Holds(ms[k], datas[k]))
    && (forall k {:trigger ms[k].next} :: 0 <= k < |ms| ==> ms[k].next == At(ms, k + 1))
  }

  method Memcpy(m: Mbuf, dst: nat, bytes: seq<byte>)
    requires dst <= |m.mem|
    modifies m`mem
    ensures |m.mem| >= dst + |bytes|
    ensures m.mem[..dst] == old(m.mem[..dst]) && m.mem[dst..dst + |bytes|] == bytes
  {
    var end := dst + |bytes|;
    m.mem := m.mem[..dst] + bytes + (if end < |m.mem| then m.mem[end..] else []);
  }

  const ENOBUFS := 105
  const EINVAL := 22

  /** What is still to be copied when segment j of the source is reached with slen bytes of it left. */
  ghost predicate Reading(rem: seq<seq<byte>>, srcs: seq<seq<byte>>, j: nat, src: nat, slen: nat) {
    && j <= |srcs| && |rem| == |srcs| - j
    && (rem != [] ==>
      && rem[1..] == srcs[j + 1..]
      && if slen == 0 then rem[0] == srcs[j] else src + slen == |srcs[j]| && rem[0] == srcs[j][src..])
  }

  lemma ReadingLoad(rem: seq<seq<byte>>, srcs: seq<seq<byte>>, j: nat, src: nat, slen: nat)
    requires Reading(rem, srcs, j, src, slen) && rem != []
    ensures j < |srcs| && rem[1..] == srcs[j + 1..]
    ensures slen == 0 ==> |rem[0]| == |srcs[j]| && rem[0] == srcs[j][0..]
    ensures slen > 0 ==> |rem[0]| == slen && src + slen == |srcs[j]| && rem[0] == srcs[j][src..]
  {
  }

  /** After d bytes of the current piece. */
  lemma ReadingStep(rem: seq<seq<byte>>, srcs: seq<seq<byte>>, j: nat, src: nat, slen: nat, d: nat)
    requires j < |srcs| && |rem| == |srcs| - j && rem[1..] == srcs[j + 1..]
    requires src + slen == |srcs[j]| && rem[0] == srcs[j][src..]
    ensures d < slen ==> Reading(After(rem, d), srcs, j, src + d, slen - d)
    ensures d >= slen ==> Reading(After(rem, d), srcs, j + 1, src + slen, 0)
  {
    if d < slen {
      assert srcs[j][src..][d..] == srcs[j][src + d..];
      assert After(rem, d)[1..] == rem[1..];
    } else if j + 1 < |srcs| {
      assert srcs[j + 1..][0] == srcs[j + 1] && srcs[j + 1..][1..] == srcs[j + 2..];
    }
  }

  /** The first segments are filled and linked. */
  ghost predicate Filled(md: seq<Mbuf>, done: seq<seq<byte>>)
    reads md`mem, md`dataLen, md`next
  {
    && |done| <= |md|
    && (forall k :: 0 <= k < |done| ==> Holds(md[k], done[k]))
    && (forall k {:trigger md[k].next} :: 0 <= k < |done| ==> md[k].next == At(md, k + 1))
  }

  /** How much has been done of the whole. */
  ghost predicate Underway(srcs: seq<seq<byte>>, plan: seq<nat>, rem: seq<seq<byte>>, done: seq<seq<byte>>) {
    && |done| <= |plan|
    && done + Fill(rem, plan[|done|..]) == Fill(srcs, plan)
    && Left(rem, plan[|done|..]) == Left(srcs, plan)
  }

  lemma UnderwayStart(srcs: seq<seq<byte>>, plan: seq<nat>)
    ensures Underway(srcs, plan, srcs, [])
  {
    assert plan[0..] == plan && [] + Fill(srcs, plan) == Fill(srcs, plan);
  }

  lemma UnderwayStep(srcs: seq<seq<byte>>, plan: seq<nat>, rem: seq<seq<byte>>, done: seq<seq<byte>>)
    requires Underway(srcs, plan, rem, done) && |done| < |plan| && rem != []
    ensures var d := Min(plan[|done|], |rem[0]|);
      Underway(srcs, plan, After(rem, d), done + [rem[0][..d]])
  {
    hide After;
    var i := |done|;
    var d, p := Min(plan[i], |rem[0]|), plan[i..];
    assert p[0] == plan[i] && p[1..] == plan[i + 1..];
    assert After(rem, d) == After(rem, plan[i]) by { SameAfter(rem, plan[i]); }
    Assoc3(done, [rem[0][..d]], Fill(After(rem, d), plan[i + 1..]));
  }

  lemma SameAfter(rem: seq<seq<byte>>, d: nat)
    requires rem != []
    ensures After(rem, Min(d, |rem[0]|)) == After(rem, d)
  {
  }

  lemma UnderwayEnd(srcs: seq<seq<byte>>, plan: seq<nat>, rem: seq<seq<byte>>, done: seq<seq<byte>>)
    requires Underway(srcs, plan, rem, done) && (rem == [] || |done| == |plan|)
    ensures done == Fill(srcs, plan) && rem == Left(srcs, plan)
  {
    assert done + [] == done;
  }

  lemma {:induction false} ConcatAppend(s: seq<seq<byte>>, a: seq<byte>)
    ensures Concat(s + [a]) == Concat(s) + a
  {
    if s == [] {
      assert Concat([a]) == a + Concat([a][1..]);
    } else {
      ConcatAppend(s[1..], a);
      assert (s + [a])[1..] == s[1..] + [a];
    }
  }

  /** One turn of the copying loop, up to moving on: the segment d gets its lengths and its bytes. */
  method CopyPiece(ms: Mbuf, d: Mbuf, next: Mbuf?, seglen: nat, slen0: nat, dlen0: nat, src0: nat,
                   ghost data: seq<byte>)
    returns (slen: nat, dlen: nat, src: nat, len: nat)
    requires Holds(ms, data) && ms != d && dlen0 == 0 && (slen0 > 0 ==> src0 + slen0 == |data|)
    modifies d`mem, d`dataLen, d`next
    ensures var from := if slen0 == 0 then 0 else src0;
      && len == Min(seglen, |data| - from)
      && Holds(d, data[from..][..len]) && d.next == next
      && dlen == 0 && slen == |data| - from - len && src == from + len
  {
    slen, dlen, src := slen0, dlen0, src0;
    var dst := 0;
    if slen == 0 {
      slen := ms.dataLen;
      src := 0;
    }
    if dlen == 0 {
      dlen := Min(seglen, slen);
      d.dataLen := dlen;
      d.next := next;
      dst := 0;
    }
    len := Min(slen, dlen);
    assert ms.mem[src..src + len] == data[src..][..len];
    Memcpy(d, dst, ms.mem[src..src + len]);
    assert d.mem[..len] == d.mem[dst..dst + len];
    slen := slen - len;
    dlen := dlen - len;
    src := src + len;
    dst := dst + len;
  }

  /** What the first segment says about the packet. */
  method Describe(md: Mbuf, m: Mbuf, nbSeg: nat, tlen: nat)
    requires md != m
    modifies md`nbSegs, md`pktLen, md`vlanTci, md`vlanTciOuter, md`olFlags, md`txOffload
    ensures SameOffload(md, m) && md.nbSegs == nbSeg && md.pktLen == tlen
  {
    md.nbSegs := nbSeg;
    md.pktLen := tlen;
    md.vlanTci := m.vlanTci;
    md.vlanTciOuter := m.vlanTciOuter;
    md.olFlags := m.olFlags;
    md.txOffload := m.txOffload;
  }

  /** mbuf_copy_split: as many segments as fit are filled; what they hold is a function of the source. */
  method MbufCopySplit(ms0: Mbuf, md: seq<Mbuf>, seglen: seq<nat>, ghost chain: seq<Mbuf>, ghost srcs: seq<seq<byte>>)
    returns (rc: int)
    requires Chain(chain, srcs) && chain != [] && chain[0] == ms0
    requires 0 < |md| == |seglen| < 256 && Distinct(md) && forall k :: 0 <= k < |md| ==> md[k] !in chain
    modifies md
    ensures rc == if !Cut(Lengths(srcs), seglen) then -ENOBUFS
                  else if |Concat(Fill(srcs, seglen))| != ms0.pktLen then -EINVAL else |md|
    ensures Filled(md, Fill(srcs, seglen))
    ensures rc > 0 ==> SameOffload(md[0], ms0) && md[0].nbSegs == |md| && md[0].pktLen == ms0.pktLen
  {
    hide Underway, Reading, After, Fill, Left, Concat, SameOffload, Distinct, Chain, Cut, Lengths;
    FitsExactly(srcs, seglen);
    var dlen: nat, slen: nat, tlen: nat, i: nat, src: nat := 0, 0, 0, 0, 0;
    var ms: Mbuf? := ms0;
    ghost var rem, done: seq<seq<byte>>, j := srcs, [], 0;
    ChainAt(chain, srcs, 0);
    UnderwayStart(srcs, seglen);
    ReadingStart(srcs);
    while ms != null && i != |md|
      invariant dlen == 0 && i == |done| <= |md| && ms == At(chain, j)
      invariant Reading(rem, srcs, j, src, slen) && j + |rem| == |srcs|
      invariant Underway(srcs, seglen, rem, done) && Filled(md, done) && tlen == |Concat(done)|
      invariant Chain(chain, srcs)
      decreases |md| - i
    {
      ChainAt(chain, srcs, j);
      ReadingLoad(rem, srcs, j, src, slen);
      ghost var from := if slen == 0 then 0 else src;
      var len;
      UnderwayStep(srcs, seglen, rem, done);
      ghost var piece := rem[0][..Min(seglen[i], |rem[0]|)];
      ReadingStep(rem, srcs, j, from, |rem[0]|, |piece|);
      ConcatAppend(done, piece);
      Earlier(md, i);
      slen, dlen, src, len := CopyPiece(ms, md[i], At(md, i + 1), seglen[i], slen, dlen, src, srcs[j]);
      FilledGrows(md, done, piece);
      tlen := tlen + len;
      rem, done := After(rem, len), done + [piece];
      if slen == 0 { ms, j := ms.next, j + 1; }
      if dlen == 0 { i := i + 1; }
    }
    UnderwayEnd(srcs, seglen, rem, done);
    if ms != null { return -ENOBUFS; }
    if tlen != ms0.pktLen { return -EINVAL; }
    Describe(md[0], ms0, |md|, tlen);
    return |md|;
  }

  lemma ReadingStart(srcs: seq<seq<byte>>)
    ensures Reading(srcs, srcs, 0, 0, 0) && Concat([]) == []
  {
  }

  lemma ChainAt(chain: seq<Mbuf>, srcs: seq<seq<byte>>, j: nat)
    requires Chain(chain, srcs) && j < |chain|
    ensures |srcs| == |chain| && Holds(chain[j], srcs[j]) && chain[j].next == At(chain, j + 1)
  {
  }

  lemma Earlier(md: seq<Mbuf>, i: nat)
    requires Distinct(md) && i < |md|
    ensures forall k :: 0 <= k < i ==> md[k] != md[i]
  {
  }

  lemma FilledGrows(md: seq<Mbuf>, done: seq<seq<byte>>, piece: seq<byte>)
    requires Filled(md, done) && |done| < |md| && Holds(md[|done|], piece) && md[|done|].next == At(md, |done| + 1)
    ensures Filled(md, done + [piece])
  {
  }

  ghost predicate SameOffload(a: Mbuf, b: Mbuf)
    reads a, b
  {
    a.vlanTci == b.vlanTci && a.vlanTciOuter == b.vlanTciOuter && a.olFlags == b.olFlags && a.txOffload == b.txOffload
  }

  // ---------------------------------------------------------------- allocation

  function Members(ms: seq<Mbuf>): set<Mbuf> { set m | m in ms }

  /** A pool of mbufs with equal room for data. */
  class Mempool {
    const room: nat
    var avail: nat
    /** the mbufs allocated and not freed */
    ghost var live: set<Mbuf>

    constructor (room: nat, avail: nat)
      ensures this.room == room && this.avail == avail && live == {}
    {
      this.room, this.avail, live := room, avail, {};
    }

    /** rte_pktmbuf_alloc */
    method Alloc() returns (p: Mbuf?)
      modifies this
      ensures p == null <==> old(avail) == 0
      ensures p == null ==> avail == 0 && live == old(live)
      ensures p != null ==> fresh(p) && avail == old(avail) - 1 && live == old(live) + {p}
    {
      if avail == 0 { return null; }
      var m := new Mbuf();
      avail, live := avail - 1, live + {m};
      return m;
    }

    /** rte_pktmbuf_free_seg */
    method FreeSeg(p: Mbuf)
      requires p in live
      modifies this
      ensures avail == old(avail) + 1 && live == old(live) - {p}
    {
      avail, live := avail + 1, live - {p};
    }
  }

  /** The check on the room is never made for the first segment. */
  ghost predicate RoomBehind(plan: seq<nat>, room: nat) {
    forall k :: 1 <= k < |plan| ==> plan[k] <= room
  }

  /** The allocation loop, last segment first. When it ends early, `i` segments are missing. */
  method AllocSegments(pool: Mempool, seglen: seq<nat>) returns (segs: seq<Mbuf>, i: nat)
    modifies pool
    ensures i + |segs| == |seglen| && Distinct(segs) && fresh(Members(segs))
    ensures pool.live == old(pool.live) + Members(segs) && pool.avail == old(pool.avail) - |segs|
    ensures i == 0 <==> old(pool.avail) >= |seglen| && RoomBehind(seglen, pool.room)
  {
    segs, i := [], |seglen|;
    while i != 0
      invariant i + |segs| == |seglen| && Distinct(segs) && fresh(Members(segs))
      invariant pool.live == old(pool.live) + Members(segs) && pool.avail == old(pool.avail) - |segs|
      invariant forall k :: i <= k < |seglen| ==> seglen[k] <= pool.room
    {
      var p := pool.Alloc();
      if p == null { break; }
      assert Members([p] + segs) == {p} + Members(segs);
      assert p !in Members(segs);
      i := i - 1;
      segs := [p] + segs;
      if pool.room < seglen[i] { break; }
    }
  }

  /** The last loop: the segments from k on go back to the pool. */
  method FreeSegments(pool: Mempool, segs: seq<Mbuf>, from: nat)
    requires from <= |segs| && Distinct(segs) && Members(segs) <= pool.live
    modifies pool
    ensures pool.live == old(pool.live) - Members(segs[from..]) && pool.avail == old(pool.avail) + |segs| - from
  {
    assert segs[from..from] == [];
    for i := from to |segs|
      invariant pool.live == old(pool.live) - Members(segs[from..i]) && pool.avail == old(pool.avail) + i - from
    {
      assert segs[from..i + 1] == segs[from..i] + [segs[i]];
      pool.FreeSeg(segs[i]);
    }
    assert segs[from..|segs|] == segs[from..];
  }

  // ---------------------------------------------------------------- pkt_copy_split

  /** The planning loop and the enlargement of the last length. */
  method ComputePlan(seglens: seq<nat>, pktLen: nat) returns (seglen: seq<nat>)
    requires seglens != [] && pktLen > 0
    ensures seglen == Plan(seglens, pktLen)
  {
    hide Sum;
    var len: nat, i := 0, 0;
    EmptySum(seglens);
    while i != |seglens| && len < pktLen
      invariant i <= |seglens| && len == Sum(seglens[..i])
      invariant Used(seglens, pktLen, i) == Used(seglens, pktLen, 0)
    {
      NextSum(seglens, i);
      len := len + seglens[i];
      i := i + 1;
    }
    UsedSome(seglens, pktLen);
    seglen := seglens[..i];
    var n := (pktLen - len) % UINT32;
    if n <= INT32_MAX {
      seglen := seglen[i - 1 := (seglen[i - 1] + n) % UINT16];
    }
  }

  lemma EmptySum(s: seq<nat>)
    ensures Sum(s[..0]) == 0
  {
  }

  lemma NextSum(s: seq<nat>, i: nat)
    requires i < |s|
    ensures Sum(s[..i + 1]) == Sum(s[..i]) + s[i]
  {
    assert s[..i + 1][..i] == s[..i];
  }

  /** What a copy is: as many segments as planned, none longer than planned, holding the packet's bytes. */
  ghost predicate CopyOf(out: seq<Mbuf>, plan: seq<nat>, pkt: Mbuf, data: seq<byte>, datas: seq<seq<byte>>)
    reads out, pkt
  {
    && |out| == |plan| > 0 && Chain(out, datas) && Concat(datas) == data
    && (forall k :: 0 <= k < |datas| ==> |datas[k]| <= plan[k])
    && SameOffload(out[0], pkt) && out[0].nbSegs == |plan| && out[0].pktLen == pkt.pktLen
  }

  lemma WholeSplit(srcs: seq<seq<byte>>, plan: seq<nat>)
    ensures Left(srcs, plan) == [] ==> Concat(Fill(srcs, plan)) == Concat(srcs)
  {
    SplitConserves(srcs, plan);
    assert Concat(Fill(srcs, plan)) + [] == Concat(Fill(srcs, plan));
  }

  lemma CopyMade(out: seq<Mbuf>, plan: seq<nat>, pkt: Mbuf, srcs: seq<seq<byte>>)
    requires |out| == |plan| > 0 && Filled(out, Fill(srcs, plan)) && Left(srcs, plan) == []
    requires Sum(plan[..|plan| - 1]) < |Concat(Fill(srcs, plan))|
    requires SameOffload(out[0], pkt) && out[0].nbSegs == |plan| && out[0].pktLen == pkt.pktLen
    ensures CopyOf(out, plan, pkt, Concat(srcs), Fill(srcs, plan))
  {
    hide SameOffload;
    var datas := Fill(srcs, plan);
    WholeSplit(srcs, plan);
    AllUsed(srcs, plan);
    forall k | 0 <= k < |datas| ensures |datas[k]| <= plan[k] { FillWithin(srcs, plan, k); }
  }

  /** pkt_copy_split, for the first `seglens` configured lengths. A copy conserves every byte; without
      one, no mbuf stays allocated. */
  method PktCopySplit(pool: Mempool, pkt: Mbuf, seglens: seq<nat>, ghost chain: seq<Mbuf>, ghost srcs: seq<seq<byte>>)
    returns (copy: Mbuf?, ghost out: seq<Mbuf>)
    requires Chain(chain, srcs) && chain != [] && chain[0] == pkt && pkt.pktLen > 0
    requires 0 < |seglens| < 256
    modifies pool
    ensures copy == At(out, 0) && fresh(Members(out)) && pool.live == old(pool.live) + Members(out)
    ensures pool.avail == old(pool.avail) - |out|
    ensures var plan := Plan(seglens, pkt.pktLen);
      && (copy != null ==> CopyOf(out, plan, pkt, Concat(srcs), Fill(srcs, plan)))
      && (copy != null <==>
          old(pool.avail) >= |plan| && RoomBehind(plan, pool.room) && Cut(Lengths(srcs), plan) &&
            pkt.pktLen == |Concat(srcs)|)
  {
    hide RoomBehind, SameOffload, CopyOf, Chain, Filled, Plan, Sum, Concat, Fill, Left, Cut, Lengths;
    FitsExactly(srcs, Plan(seglens, pkt.pktLen));
    PlanFits(seglens, pkt.pktLen);
    var seglen := ComputePlan(seglens, pkt.pktLen);
    var segs, i := AllocSegments(pool, seglen);
    var from := 0;
    assert forall k :: 0 <= k < |segs| ==> segs[k] in Members(segs);
    if i == 0 {
      var rc := MbufCopySplit(pkt, segs, seglen, chain, srcs);
      WholeSplit(srcs, seglen);
      if rc > 0 {
        CopyMade(segs, seglen, pkt, srcs);
        from := rc;
      }
    }
    FreeSegments(pool, segs, from);
    assert segs[0..] == segs && segs[|segs|..] == [];
    out := if from == 0 then [] else segs;
    copy := if from == 0 then null else segs[0];
  }

  /** A packet in one segment is always copied, if the pool has the mbufs and the room. */
  lemma OneSegmentCopied(seglens: seq<nat>, s: seq<byte>)
    requires seglens != [] && 0 < |s| < UINT16
    ensures Cut(Lengths([s]), Plan(seglens, |s|)) && Concat([s]) == s
  {
    hide Plan, Cut;
    PlanFits(seglens, |s|);
    OneSegmentFits(s, Plan(seglens, |s|));
    assert Lengths([s]) == [|s|];
    assert Concat([s]) == s + Concat([]);
  }

  /** All segments fit their mbufs exactly when the first, unchecked piece does. */
  lemma WithinRoom(srcs: seq<seq<byte>>, plan: seq<nat>, room: nat)
    requires srcs != [] && plan != [] && RoomBehind(plan, room)
    ensures AllWithin(Fill(srcs, plan), room) <==> Min(plan[0], |srcs[0]|) <= room
  {
    var f := Fill(srcs, plan);
    assert |f[0]| == Min(plan[0], |srcs[0]|);
    hide Fill;
    forall k | 1 <= k < |f| ensures |f[k]| <= room { FillWithin(srcs, plan, k); }
  }

  ghost predicate AllWithin(datas: seq<seq<byte>>, room: nat) {
    forall k :: 0 <= k < |datas| ==> |datas[k]| <= room
  }

  /** A packet of room + 1 bytes for one segment passes every check and does not fit. */
  lemma FirstRoomUnchecked(room: nat, s: seq<byte>)
    requires |s| == room + 1 < UINT16
    ensures var plan := Plan([room + 1], room + 1);
      RoomBehind(plan, room) && Cut([|s|], plan) && Fill([s], plan) == [s]
  {
    assert Used([room + 1], room + 1, 1) == 1;
    assert [room + 1][..0] == [] && [room + 1][..1] == [room + 1];
    assert Sum([room + 1]) == Sum([room + 1][..0]) + room + 1;
    assert Used([room + 1], room + 1, 0) == 1;
    assert Plan([room + 1], room + 1) == [room + 1];
    OneSegmentFits(s, [room + 1]);
    assert s[..|s|] == s;
  }
}
