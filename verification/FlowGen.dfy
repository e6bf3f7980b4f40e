/** The flow generator of flowgen.c: bursts of packets of consecutive flows, backed out when not sent. */
module FlowGen {
  import opened Bits
  import opened Bytes
  import opened Sequences
  import opened Checksum

  const INT_MAX: nat := 0x7FFF_FFFF
  const UINT16: nat := 0x1_0000
  const UINT32: nat := 0x1_0000_0000

  const IP_SRC: nat := 0x0AFE_0000
  const IP_DST: nat := 0x0AFD_0000
  const ETHER_HDR_LEN: nat := 14
  const IP_HDR_LEN: nat := 20

  // ---------------------------------------------------------------- the IPv4 header

  function Be16(x: nat): seq<byte> { [x / 256 % 256, x % 256] }

  function Be32(x: nat): seq<byte> { Be16(x / 65536 % 65536) + Be16(x % 65536) }

  /** The bytes of a 16-bit word on a little-endian machine. */
  function Le16(w: word): (s: seq<byte>)
    ensures |s| == 2
  {
    [w % 256, w / 256]
  }

  function FromLe(lo: int, hi: int): word
    requires 0 <= lo < 256 && 0 <= hi < 256
  {
    lo + 256 * hi
  }

  /** The header with these checksum bytes. */
  function Header(pktSize: nat, flow: nat, sum: seq<byte>): (h: seq<byte>)
    requires |sum| == 2
    ensures |h| == IP_HDR_LEN
  {
    [0x45, 0] + Be16((pktSize - ETHER_HDR_LEN) % UINT16) + [0, 0] + [0, 0] + [64, 17] + sum
      + Be32(IP_SRC) + Be32((IP_DST + flow) % UINT32)
  }

  /** Memory read as host words on a little-endian machine. */
  function Words(h: seq<byte>): (s: seq<word>)
    requires |h| % 2 == 0
    ensures |s| == |h| / 2
  {
    if h == [] then [] else
    [FromLe(h[0], h[1])] + Words(h[2..])
  }

  lemma {:induction false} WordsAt(h: seq<byte>, k: nat)
    requires |h| % 2 == 0 && k < |h| / 2
    ensures Words(h)[k] == FromLe(h[2 * k], h[2 * k + 1])
  {
    if k > 0 { WordsAt(h[2..], k - 1); }
  }

  lemma HeaderBytes(pktSize: nat, flow: nat, sum: seq<byte>, k: nat)
    requires |sum| == 2 && k < IP_HDR_LEN
    ensures k == 10 || k == 11 || Header(pktSize, flow, sum)[k] == Header(pktSize, flow, [0, 0])[k]
    ensures Header(pktSize, flow, sum)[10..12] == sum
    ensures Header(pktSize, flow, sum)[16..20] == Be32((IP_DST + flow) % UINT32)
  {
    hide Be16, Be32;
    assert |Be32((IP_DST + flow) % UINT32)| == 4 && |Be32(IP_SRC)| == 4 &&
      |Be16((pktSize - ETHER_HDR_LEN) % UINT16)| == 2
      by { Widths(pktSize, flow); }
  }

  lemma Widths(pktSize: nat, flow: nat)
    ensures |Be32((IP_DST + flow) % UINT32)| == 4 && |Be32(IP_SRC)| == 4 &&
      |Be16((pktSize - ETHER_HDR_LEN) % UINT16)| == 2
  {
  }

  /** A field in network order: the first byte weighs most. */
  function NetworkValue(s: seq<byte>): nat {
    if s == [] then 0 else NetworkValue(s[..|s| - 1]) * 256 + s[|s| - 1]
  }

  /** The header as the receiver reads it, in words of network order. */
  function NetworkWords(h: seq<byte>): (s: seq<word>)
    requires |h| % 2 == 0
    ensures |s| == |h| / 2
  {
    seq(|h| / 2, k requires 0 <= k < |h| / 2 => 256 * (h[2 * k] as int) + h[2 * k + 1] as int)
  }

  /** The fields of the header (section 3.1 of RFC 791): version 4 and the header's length in words of four
      bytes, no service type, the total length, no identification and no fragment, 64 hops, UDP, both addresses;
      and it checks to 0, on a little-endian machine and in network order. */
  ghost predicate GoodHeader(h: seq<byte>, pktSize: nat, flow: nat) {
    && |h| == IP_HDR_LEN
    && h[0] / 16 == 4 && 4 * (h[0] % 16) == |h| && h[1] == 0
    && NetworkValue(h[2..4]) == (pktSize - ETHER_HDR_LEN) % UINT16
    && (forall k :: 4 <= k < 8 ==> h[k] == 0) && h[8] == 64 && h[9] == 17
    && NetworkValue(h[12..16]) == 10 * 0x100_0000 + 254 * 0x1_0000
    && NetworkValue(h[16..20]) == (10 * 0x100_0000 + 253 * 0x1_0000 + flow) % UINT32
    && Check(Words(h)) == 0 && Check(NetworkWords(h)) == 0
  }

  lemma FieldsOf(pktSize: nat, flow: nat, sum: seq<byte>)
    requires |sum| == 2
    ensures var h := Header(pktSize, flow, sum);
      && h[0] == 0x45 && h[1] == 0 && (forall k :: 4 <= k < 8 ==> h[k] == 0) && h[8] == 64 && h[9] == 17
      && h[2..4] == Be16((pktSize - ETHER_HDR_LEN) % UINT16)
      && h[12..16] == Be32(IP_SRC) && h[16..20] == Be32((IP_DST + flow) % UINT32)
  {
    hide Be16, Be32;
    Widths(pktSize, flow);
  }

  lemma NetworkValue2(x: nat)
    requires x < UINT16
    ensures NetworkValue(Be16(x)) == x
  {
    var s := Be16(x);
    assert s[..1] == [s[0]] && s[..1][..0] == [];
    assert NetworkValue([]) == 0;
    assert NetworkValue(s[..1]) == s[0];
  }

  lemma NetworkValue4(x: nat)
    requires x < UINT32
    ensures NetworkValue(Be32(x)) == x
  {
    hide Be16;
    var hi, lo := Be16(x / 65536 % 65536), Be16(x % 65536);
    NetworkValue2(x / 65536);
    NetworkValue2(x % 65536);
    TwoBytes(x / 65536 % 65536);
    TwoBytes(x % 65536);
    NetworkValueAppend(hi, lo);
  }

  lemma TwoBytes(x: nat)
    ensures |Be16(x)| == 2
  {
  }

  lemma NetworkValueAppend(hi: seq<byte>, lo: seq<byte>)
    requires |lo| == 2
    ensures NetworkValue(hi + lo) == NetworkValue(hi) * 65536 + NetworkValue(lo)
  {
    var s := hi + lo;
    assert s[..|s| - 1] == hi + lo[..1] && s[..|s| - 1][..|s| - 2] == hi;
    assert lo[..1][..0] == [] && NetworkValue([]) == 0;
    assert NetworkValue(lo[..1]) == lo[0];
    assert NetworkValue(hi + lo[..1]) == NetworkValue(hi) * 256 + lo[0];
  }

  lemma NetworkOrder(h: seq<byte>)
    requires |h| % 2 == 0
    ensures SwapAll(Words(h)) == NetworkWords(h)
  {
    hide Words, SwapAll;
    var a, b := SwapAll(Words(h)), NetworkWords(h);
    forall k | 0 <= k < |h| / 2 ensures a[k] == b[k] {
      SwapAllAt(Words(h), k);
      WordsAt(h, k);
      SwapBytes(h[2 * k], h[2 * k + 1]);
    }
  }

  lemma SwapBytes(a: byte, b: byte)
    ensures Swap(FromLe(a, b)) == 256 * a + b
  {
  }

  lemma {:induction false} SwapAllAt(s: seq<word>, k: nat)
    requires k < |s|
    ensures SwapAll(s)[k] == Swap(s[k])
    decreases |s|
  {
    hide Swap;
    if k < |s| - 1 { SwapAllAt(s[..|s| - 1], k); }
  }

  lemma SumBytes(pktSize: nat, flow: nat, sum: seq<byte>)
    requires |sum| == 2
    ensures Header(pktSize, flow, sum)[10] == sum[0] && Header(pktSize, flow, sum)[11] == sum[1]
  {
    hide Header;
    var h := Header(pktSize, flow, sum);
    HeaderBytes(pktSize, flow, sum, 10);
    assert h[10..12][0] == h[10] && h[10..12][1] == h[11];
  }

  lemma OtherWord(pktSize: nat, flow: nat, sum: seq<byte>, k: nat)
    requires |sum| == 2 && k < 10 && k != 5
    ensures Words(Header(pktSize, flow, sum))[k] == Words(Header(pktSize, flow, [0, 0]))[k]
  {
    hide Header, Words;
    HeaderBytes(pktSize, flow, sum, 2 * k);
    HeaderBytes(pktSize, flow, sum, 2 * k + 1);
    WordsAt(Header(pktSize, flow, sum), k);
    WordsAt(Header(pktSize, flow, [0, 0]), k);
  }

  lemma SumWord(pktSize: nat, flow: nat, r: word)
    ensures Words(Header(pktSize, flow, Le16(r)))[5] == r
  {
    hide Header, Words;
    SumBytes(pktSize, flow, Le16(r));
    WordsAt(Header(pktSize, flow, Le16(r)), 5);
  }

  /** Storing the checksum changes one word. */
  lemma OneWord(pktSize: nat, flow: nat, r: word)
    ensures var h := Header(pktSize, flow, [0, 0]);
      Words(h)[5] == 0 && Words(Header(pktSize, flow, Le16(r))) == Words(h)[5 := r]
  {
    hide Header, Words, Le16;
    var a, b := Words(Header(pktSize, flow, [0, 0])), Words(Header(pktSize, flow, Le16(r)));
    SumWord(pktSize, flow, r);
    SumWord(pktSize, flow, 0);
    assert Le16(0) == [0, 0] by { ZeroBytes(); }
    forall k | 0 <= k < 10 && k != 5 ensures b[k] == a[k] { OtherWord(pktSize, flow, Le16(r), k); }
    assert b == a[5 := r];
  }

  lemma ZeroBytes()
    ensures Le16(0) == [0, 0]
  {
  }

  /** The IP header of a packet: everything but the checksum, then the checksum over it. */
  method MakeHeader(pktSize: nat, flow: nat) returns (h: seq<byte>)
    ensures GoodHeader(h, pktSize, flow)
  {
    hide Header, Words, Check, Swap, SwapAll, Be16, Be32, NetworkValue, NetworkWords;
    h := Header(pktSize, flow, [0, 0]);
    var words := Words(h);
    var r := IpSum(words, IP_HDR_LEN);
    assert words[..10] == words;
    OneWord(pktSize, flow, r);
    StoredChecks(words, 5);
    h := Header(pktSize, flow, Le16(r));
    FieldsOf(pktSize, flow, Le16(r));
    NetworkValue2((pktSize - ETHER_HDR_LEN) % UINT16);
    NetworkValue4(IP_SRC);
    NetworkValue4((IP_DST + flow) % UINT32);
    SwapCommutes(Words(h));
    NetworkOrder(h);
    SwapZero();
  }

  lemma SwapZero()
    ensures Swap(0) == 0
  {
  }

  // ---------------------------------------------------------------- the flow counter

  class Packet {
    const ip: seq<byte>
    ghost const flow: nat

    constructor (ip: seq<byte>, ghost flow: nat)
      ensures this.ip == ip && this.flow == flow
    {
      this.ip, this.flow := ip, flow;
    }
  }

  function Packets(s: seq<Packet>): set<Packet> { set p | p in s }

  /** The packets carry consecutive flows, the first one being number `from`. */
  ghost predicate Consecutive(s: seq<Packet>, from: nat, n: nat, pktSize: nat)
    requires n > 0
  {
    forall k :: 0 <= k < |s| ==> s[k].flow == (from + k) % n && GoodHeader(s[k].ip, pktSize, s[k].flow)
  }

  lemma ConsecutiveAppend(s: seq<Packet>, t: seq<Packet>, n: nat, pktSize: nat)
    requires n > 0 && Consecutive(s, 0, n, pktSize) && Consecutive(t, |s|, n, pktSize)
    ensures Consecutive(s + t, 0, n, pktSize)
  {
    hide GoodHeader;
  }

  /** What one burst meets: packets received, mbufs to be had, and how many the driver takes. */
  datatype Load = Load(received: nat, available: nat, accepted: nat)

  /** How many packets a burst sends. */
  function Sends(load: Load, perBurst: nat): nat { Min(load.accepted, Min(load.available, perBurst)) }

  function SendsAll(loads: seq<Load>, perBurst: nat): nat {
    if loads == [] then 0 else SendsAll(loads[..|loads| - 1], perBurst) + Sends(loads[|loads| - 1], perBurst)
  }

  function Receives(loads: seq<Load>): nat {
    if loads == [] then 0 else Receives(loads[..|loads| - 1]) + loads[|loads| - 1].received
  }

  lemma OneMoreLoad(loads: seq<Load>, i: nat, perBurst: nat)
    requires i < |loads|
    ensures SendsAll(loads[..i + 1], perBurst) == SendsAll(loads[..i], perBurst) + Sends(loads[i], perBurst)
    ensures Receives(loads[..i + 1]) == Receives(loads[..i]) + loads[i].received
  {
    assert loads[..i + 1][..i] == loads[..i];
  }

  class Generator {
    /** cfg_n_flows */
    const nFlows: nat
    /** nb_pkt_per_burst */
    const perBurst: nat
    const pktSize: nat
    /** next_flow */
    var nextFlow: int
    var rxPackets: nat
    var txPackets: nat
    /** every packet the driver has taken, in order */
    ghost var sent: seq<Packet>
    /** the mbufs in the forwarder's hands */
    ghost var held: set<Packet>

    constructor (nFlows: nat, perBurst: nat, pktSize: nat)
      requires 0 < nFlows <= INT_MAX
      ensures Valid() && sent == [] && held == {}
      ensures this.nFlows == nFlows && this.perBurst == perBurst && this.pktSize == pktSize
    {
      this.nFlows, this.perBurst, this.pktSize := nFlows, perBurst, pktSize;
      nextFlow, rxPackets, txPackets, sent, held := 0, 0, 0, [], {};
    }

    /** The k-th packet ever sent has flow k mod nFlows, and so will the next one. */
    ghost predicate Valid()
      reads this
    {
      && 0 < nFlows <= INT_MAX
      && nextFlow == |sent| % nFlows
      && txPackets == |sent|
      && Consecutive(sent, 0, nFlows, pktSize)
    }

    /** rte_pktmbuf_free */
    method Free(p: Packet)
      requires p in held
      modifies this`held
      ensures held == old(held) - {p}
    {
      held := held - {p};
    }

    /** The received packets are counted and discarded. */
    method Receive(received: nat)
      modifies this`rxPackets, this`held
      ensures held == old(held) && rxPackets == old(rxPackets) + received
    {
      rxPackets := rxPackets + received;
      for i := 0 to received
        invariant held == old(held) && rxPackets == old(rxPackets) + received
      {
        var p := new Packet([], 0);
        held := held + {p};
        Free(p);
      }
    }

    /** The generating loop. */
    method Generate(available: nat) returns (burst: seq<Packet>)
      requires Valid()
      modifies this`nextFlow, this`held
      ensures |burst| == Min(available, perBurst)
      ensures Consecutive(burst, |sent|, nFlows, pktSize) && Distinct(burst)
      ensures nextFlow == (|sent| + |burst|) % nFlows
      ensures fresh(Packets(burst)) && held == old(held) + Packets(burst)
    {
      hide GoodHeader;
      burst := [];
      var left := available;
      while |burst| < perBurst
        invariant |burst| <= perBurst && |burst| + left == available
        invariant Consecutive(burst, |sent|, nFlows, pktSize) && Distinct(burst)
        invariant nextFlow == (|sent| + |burst|) % nFlows
        invariant fresh(Packets(burst)) && held == old(held) + Packets(burst)
      {
        if left == 0 { break; }
        left := left - 1;
        var h := MakeHeader(pktSize, nextFlow);
        var p := new Packet(h, nextFlow);
        assert p !in Packets(burst);
        assert Packets(burst + [p]) == Packets(burst) + {p};
        held := held + {p};
        NextModulo(|sent| + |burst|, nFlows);
        burst := burst + [p];
        nextFlow := (nextFlow + 1) % nFlows;
      }
    }

    /** Backing out: the counter goes back by the packets that were not sent. */
    method BackOut(unsent: nat, ghost total: nat)
      requires 0 < nFlows && nextFlow == (total + unsent) % nFlows
      modifies this`nextFlow
      ensures nextFlow == total % nFlows
    {
      ghost var q := (total + unsent) / nFlows;
      assert nextFlow == total + unsent - nFlows * q;
      nextFlow := nextFlow - unsent;
      while nextFlow < 0
        invariant nextFlow == total - nFlows * q && nextFlow < nFlows
        decreases -nextFlow
      {
        MulLess(nFlows, q);
        nextFlow := nextFlow + nFlows;
        q := q - 1;
      }
      DivModUnique(total, nFlows, q, nextFlow);
    }

    /** The packets not sent are freed, each once. */
    method Discard(burst: seq<Packet>, from: nat)
      requires from <= |burst| && Distinct(burst) && Packets(burst[from..]) <= held
      modifies this`held
      ensures held == old(held) - Packets(burst[from..])
    {
      assert burst[from..from] == [];
      for i := from to |burst|
        invariant held == old(held) - Packets(burst[from..i])
      {
        assert burst[from..][i - from] == burst[i] && burst[from..i + 1] == burst[from..i] + [burst[i]];
        Free(burst[i]);
      }
      assert burst[from..|burst|] == burst[from..];
    }

    /** pkt_burst_flow_gen without retries, for any prefix the driver accepts. */
    method Burst(load: Load)
      requires Valid()
      modifies this
      ensures Valid() && held == old(held) && rxPackets == old(rxPackets) + load.received
      ensures old(sent) <= sent && |sent| == |old(sent)| + Sends(load, perBurst)
    {
      hide Consecutive;
      Receive(load.received);
      var burst := Generate(load.available);
      var nbTx := Min(load.accepted, |burst|);
      txPackets := txPackets + nbTx;
      ghost var before := sent;
      Prefix(burst, nbTx, |sent|, nFlows, pktSize);
      ConsecutiveAppend(sent, burst[..nbTx], nFlows, pktSize);
      sent, held := sent + burst[..nbTx], held - Packets(burst[..nbTx]);
      if nbTx < |burst| {
        BackOut(|burst| - nbTx, |sent|);
        Discard(burst, nbTx);
      }
      assert burst == burst[..nbTx] + burst[nbTx..];
    }

    /** Any run of bursts. */
    method Run(loads: seq<Load>)
      requires Valid()
      modifies this
      ensures Valid() && held == old(held) && rxPackets == old(rxPackets) + Receives(loads)
      ensures old(sent) <= sent && |sent| == |old(sent)| + SendsAll(loads, perBurst)
    {
      hide Sends, SendsAll, Receives, Consecutive;
      NoLoads(loads);
      for i := 0 to |loads|
        invariant Valid() && held == old(held) && rxPackets == old(rxPackets) + Receives(loads[..i])
        invariant old(sent) <= sent && |sent| == |old(sent)| + SendsAll(loads[..i], perBurst)
      {
        OneMoreLoad(loads, i, perBurst);
        Burst(loads[i]);
      }
      assert loads[..|loads|] == loads;
    }

    lemma NoLoads(loads: seq<Load>)
      ensures SendsAll(loads[..0], perBurst) == 0 == Receives(loads[..0])
    {
    }
  }

  lemma Prefix(burst: seq<Packet>, k: nat, from: nat, n: nat, pktSize: nat)
    requires n > 0 && k <= |burst| && Consecutive(burst, from, n, pktSize) && Distinct(burst)
    ensures Consecutive(burst[..k], from, n, pktSize)
    ensures Packets(burst[k..]) !! Packets(burst[..k]) && Packets(burst) == Packets(burst[..k]) + Packets(burst[k..])
  {
    hide GoodHeader;
    assert burst == burst[..k] + burst[k..];
    forall p | p in burst[k..] ensures p !in burst[..k] {
      var i :| 0 <= i < |burst| - k && burst[k..][i] == p;
      assert burst[k + i] == p;
    }
  }

  lemma NextModulo(x: nat, n: nat)
    requires n > 0
    ensures (x % n + 1) % n == (x + 1) % n
  {
    var q, r := x / n, x % n;
    assert x + 1 == n * q + (r + 1);
    assert n * (q + 1) == n * q + n;
    if r + 1 < n {
      DivModUnique(x + 1, n, q, r + 1);
    } else {
      DivModUnique(x + 1, n, q + 1, 0);
      DivModUnique(n, n, 1, 0);
    }
  }

  lemma MulLess(n: int, q: int)
    ensures n * (q - 1) == n * q - n
  {
  }
}
