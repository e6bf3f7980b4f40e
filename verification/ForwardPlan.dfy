/** The forwarding plan of config.c: streams shared out over lcores, and each stream's RX and TX side. */
module ForwardPlan {
  import opened Bits
  import opened Sequences

  /** Widths of lcoreid_t and portid_t, and of queueid_t and streamid_t. */
  const ID8: nat := 0x100
  const ID16: nat := 0x1_0000

  datatype Topology = Paired | Chained | Loop

  class FwdLcore {
    var streamIdx: nat
    var streamNb: nat
  }

  class FwdStream {
    var rxPort: nat
    var rxQueue: nat
    var txPort: nat
    var txQueue: nat
    var peerAddr: nat
    var retryEnabled: bool
  }

  // ---------------------------------------------------------------- streams over lcores

  /** How many streams lcore k gets: the last nbFs % nbFc lcores take one more. */
  function Share(nbFs: nat, nbFc: nat, k: nat): nat
    requires nbFc > 0
  {
    if nbFs <= nbFc then 1 else nbFs / nbFc + (if k >= nbFc - nbFs % nbFc then 1 else 0)
  }

  /** The first stream of lcore k: all the shares before it. */
  function Start(nbFs: nat, nbFc: nat, k: nat): nat
    requires nbFc > 0
  {
    if k == 0 then 0 else Start(nbFs, nbFc, k - 1) + Share(nbFs, nbFc, k - 1)
  }

  lemma {:induction false} StartIs(nbFs: nat, nbFc: nat, k: nat)
    requires nbFs > nbFc > 0 && k <= nbFc
    ensures var plain := nbFc - nbFs % nbFc;
      Start(nbFs, nbFc, k) == (nbFs / nbFc) * k + (if k > plain then k - plain else 0)
  {
    if k > 0 {
      StartIs(nbFs, nbFc, k - 1);
      MulNext(nbFs / nbFc, k - 1);
    }
  }

  lemma MulNext(a: nat, k: nat)
    ensures a * (k + 1) == a * k + a
  {
  }

  lemma {:induction false} StartOfOnes(nbFs: nat, nbFc: nat, k: nat)
    requires nbFc > 0 && nbFs <= nbFc
    ensures Start(nbFs, nbFc, k) == k
  {
    if k > 0 { StartOfOnes(nbFs, nbFc, k - 1); }
  }

  /** The shares add up to all streams, or to one per lcore when there are fewer streams than lcores. */
  lemma SharesAddUp(nbFs: nat, nbFc: nat)
    requires nbFc > 0
    ensures Start(nbFs, nbFc, nbFc) == if nbFs <= nbFc then nbFc else nbFs
  {
    if nbFs <= nbFc {
      StartOfOnes(nbFs, nbFc, nbFc);
    } else {
      StartIs(nbFs, nbFc, nbFc);
    }
  }

  /** Shares differ by at most one. */
  lemma SharesEven(nbFs: nat, nbFc: nat, j: nat, k: nat)
    requires nbFc > 0 && j < k < nbFc
    ensures Share(nbFs, nbFc, j) <= Share(nbFs, nbFc, k) <= Share(nbFs, nbFc, j) + 1
  {
  }

  lemma {:induction false} StartGrows(nbFs: nat, nbFc: nat, j: nat, k: nat)
    requires nbFc > 0 && j <= k
    ensures Start(nbFs, nbFc, j) <= Start(nbFs, nbFc, k)
    decreases k
  {
    if j < k { StartGrows(nbFs, nbFc, j, k - 1); }
  }

  /** Lcore k runs stream s. */
  predicate Runs(nbFs: nat, nbFc: nat, k: nat, s: nat)
    requires nbFc > 0
  {
    Start(nbFs, nbFc, k) <= s < Start(nbFs, nbFc, k) + Share(nbFs, nbFc, k)
  }

  /** No stream is run by two lcores. */
  lemma RunOnce(nbFs: nat, nbFc: nat, j: nat, k: nat, s: nat)
    requires nbFc > 0 && Runs(nbFs, nbFc, j, s) && Runs(nbFs, nbFc, k, s)
    ensures j == k
  {
    if j < k { StartGrows(nbFs, nbFc, j + 1, k); }
    if k < j { StartGrows(nbFs, nbFc, k + 1, j); }
  }

  lemma {:induction false} Runner(nbFs: nat, nbFc: nat, n: nat, s: nat) returns (k: nat)
    requires nbFc > 0 && s < Start(nbFs, nbFc, n)
    ensures k < n && Runs(nbFs, nbFc, k, s)
  {
    if s >= Start(nbFs, nbFc, n - 1) {
      k := n - 1;
    } else {
      k := Runner(nbFs, nbFc, n - 1, s);
    }
  }

  ghost predicate HasRunner(nbFs: nat, nbFc: nat, s: nat)
    requires nbFc > 0
  {
    exists k: nat :: k < nbFc && Runs(nbFs, nbFc, k, s)
  }

  /** The lcores run exactly the configured streams just when there are not more lcores than streams. */
  lemma TilesExactly(nbFs: nat, nbFc: nat)
    requires nbFc > 0
    ensures (forall s: nat :: HasRunner(nbFs, nbFc, s) <==> s < nbFs) <==> nbFc <= nbFs
  {
    hide Runs;
    SharesAddUp(nbFs, nbFc);
    if nbFc <= nbFs {
      forall s: nat ensures HasRunner(nbFs, nbFc, s) <==> s < nbFs {
        if s < nbFs {
          var k := Runner(nbFs, nbFc, nbFc, s);
        }
        forall k: nat | k < nbFc && Runs(nbFs, nbFc, k, s) ensures s < nbFs { RunsBelow(nbFs, nbFc, k, s); }
      }
    } else {
      var k := Runner(nbFs, nbFc, nbFc, nbFc - 1);
      assert HasRunner(nbFs, nbFc, nbFc - 1);
    }
  }

  lemma RunsBelow(nbFs: nat, nbFc: nat, k: nat, s: nat)
    requires k < nbFc && Runs(nbFs, nbFc, k, s)
    ensures s < Start(nbFs, nbFc, nbFc)
  {
    StartGrows(nbFs, nbFc, k + 1, nbFc);
  }

  lemma Shares(nbFs: nat, nbFc: nat)
    requires nbFc > 0
    ensures nbFs > nbFc ==> forall k :: 0 <= k < nbFc ==>
      Share(nbFs, nbFc, k) == nbFs / nbFc + (if k >= nbFc - nbFs % nbFc then 1 else 0)
    ensures nbFs <= nbFc ==> forall k :: 0 <= k < nbFc ==> Share(nbFs, nbFc, k) == 1
  {
  }

  ghost predicate Configured(nbFs: nat, nbFc: nat, lcores: seq<FwdLcore>, n: nat)
    requires nbFc > 0 && n <= |lcores|
    reads lcores
  {
    forall k {:trigger lcores[k]} :: 0 <= k < n ==>
      lcores[k].streamIdx == Start(nbFs, nbFc, k) && lcores[k].streamNb == Share(nbFs, nbFc, k)
  }

  /** The division of the streams. */
  method Quotas(nbFs: nat, nbFc: nat) returns (perLcore: nat, extra: nat)
    requires nbFs < ID16 && 0 < nbFc < ID8
    ensures extra < nbFc
    ensures forall k :: 0 <= k < nbFc - extra ==> Share(nbFs, nbFc, k) == perLcore
    ensures forall k :: nbFc - extra <= k < nbFc ==> Share(nbFs, nbFc, k) == (perLcore + 1) % ID16
  {
    perLcore, extra := 1, 0;
    if nbFs > nbFc {
      Quotient(nbFs, nbFc);
      perLcore := nbFs / nbFc % ID16;
      extra := nbFs % nbFc % ID8;
    }
    Shares(nbFs, nbFc);
    hide Share;
  }

  /** One of the two loops: the lcores from `from` on, `perLcore` streams each. */
  method FillLcores(nbFs: nat, nbFc: nat, lcores: seq<FwdLcore>, from: nat, n: nat, perLcore: nat, start: nat)
    returns (smId: nat)
    requires nbFs < ID16 && 0 < nbFc < ID8 && from + n <= nbFc <= |lcores| && Distinct(lcores)
    requires start == Start(nbFs, nbFc, from) && Configured(nbFs, nbFc, lcores, from)
    requires forall k :: from <= k < from + n ==> Share(nbFs, nbFc, k) == perLcore
    modifies lcores
    ensures smId == Start(nbFs, nbFc, from + n) && Configured(nbFs, nbFc, lcores, from + n)
  {
    hide Start, Share;
    smId := start;
    for lcId := 0 to n
      invariant smId == Start(nbFs, nbFc, from + lcId) && Configured(nbFs, nbFc, lcores, from + lcId)
    {
      NextStart(nbFs, nbFc, from + lcId);
      lcores[from + lcId].streamIdx := smId;
      lcores[from + lcId].streamNb := perLcore;
      smId := (smId + perLcore) % ID16;
    }
  }

  /** setup_fwd_config_of_each_lcore */
  method SetupFwdConfigOfEachLcore(nbFs: nat, nbFc: nat, lcores: seq<FwdLcore>)
    requires nbFs < ID16 && nbFc < ID8 && (nbFs > 0 ==> nbFc > 0)
    requires nbFc <= |lcores| && Distinct(lcores)
    modifies lcores
    ensures nbFc > 0 ==> Configured(nbFs, nbFc, lcores, nbFc)
  {
    hide Start, Share, Configured;
    if nbFc == 0 { return; }
    var perLcore, extra := Quotas(nbFs, nbFc);
    var plain := (nbFc - extra) % ID8;
    NoneBefore(nbFs, nbFc);
    assert Configured(nbFs, nbFc, lcores, 0) by { NoneConfigured(nbFs, nbFc, lcores); }
    var smId := FillLcores(nbFs, nbFc, lcores, 0, plain, perLcore, 0);
    smId := FillLcores(nbFs, nbFc, lcores, plain, extra, (perLcore + 1) % ID16, smId);
  }

  lemma NoneConfigured(nbFs: nat, nbFc: nat, lcores: seq<FwdLcore>)
    requires nbFc > 0
    ensures Configured(nbFs, nbFc, lcores, 0)
  {
  }

  lemma NoneBefore(nbFs: nat, nbFc: nat)
    requires nbFc > 0
    ensures Start(nbFs, nbFc, 0) == 0
  {
  }

  /** Starts stay within 16 bits. */
  lemma NextStart(nbFs: nat, nbFc: nat, k: nat)
    requires nbFs < ID16 && nbFc < ID8 && k < nbFc
    ensures Start(nbFs, nbFc, k) + Share(nbFs, nbFc, k) == Start(nbFs, nbFc, k + 1) < ID16
  {
    SharesAddUp(nbFs, nbFc);
    StartGrows(nbFs, nbFc, k + 1, nbFc);
  }

  lemma Quotient(a: nat, b: nat)
    requires a > b > 0
    ensures 0 < a / b <= a && a % b < b && (a % b > 0 ==> a / b < a)
  {
    assert a == b * (a / b) + a % b;
    QuotientBounds(a / b, a % b, b);
  }

  lemma QuotientBounds(q: nat, r: nat, b: nat)
    requires r < b < b * q + r
    ensures 0 < q <= b * q + r && (r > 0 ==> q < b * q + r)
  {
    MulNext(q, b - 1);
    assert q * (b - 1) >= 0;
  }

  // ---------------------------------------------------------------- the topology

  /** fwd_topology_tx_port_get: the index of the port that packets from port `rxp` leave by. */
  function TxPort(topology: Topology, nbPorts: nat, rxp: nat): (txp: nat)
    requires rxp < nbPorts
    ensures txp < nbPorts
  {
    match topology
    case Paired =>
      if rxp % 2 == 0 then (if rxp + 1 < nbPorts then rxp + 1 else rxp) else rxp - 1
    case Chained => (rxp + 1) % nbPorts
    case Loop => rxp
  }

  /** Paired ports answer each other; only an odd last port has itself for a peer. */
  lemma PairedInvolution(nbPorts: nat, p: nat)
    requires p < nbPorts
    ensures TxPort(Paired, nbPorts, TxPort(Paired, nbPorts, p)) == p
    ensures TxPort(Paired, nbPorts, p) == p <==> p % 2 == 0 && p == nbPorts - 1
  {
  }

  /** Ports are paired two by two: 0 with 1, 2 with 3, and so on; and a looped port is its own exit. */
  lemma NeighboursPaired(nbPorts: nat, p: nat)
    requires p < nbPorts
    ensures TxPort(Paired, nbPorts, p) / 2 == p / 2
    ensures TxPort(Loop, nbPorts, p) == p
  {
  }

  /** The port reached after n hops. */
  function Hops(topology: Topology, nbPorts: nat, p: nat, n: nat): (q: nat)
    requires p < nbPorts
    ensures q < nbPorts
  {
    if n == 0 then p else TxPort(topology, nbPorts, Hops(topology, nbPorts, p, n - 1))
  }

  /** Chained ports form one cycle: n hops lead n ports on, so every port is reached, and the start first
      again after all of them. */
  lemma {:induction false} ChainedCycle(nbPorts: nat, p: nat, n: nat)
    requires p < nbPorts && n <= nbPorts
    ensures Hops(Chained, nbPorts, p, n) == if p + n < nbPorts then p + n else p + n - nbPorts
    ensures 0 < n ==> (Hops(Chained, nbPorts, p, n) == p <==> n == nbPorts)
  {
    if n > 0 {
      ChainedCycle(nbPorts, p, n - 1);
      var h := Hops(Chained, nbPorts, p, n - 1);
      NextModulo(h, nbPorts);
    }
  }

  lemma NextModulo(h: nat, m: nat)
    requires h < m
    ensures (h + 1) % m == if h + 1 < m then h + 1 else 0
  {
  }

  /** The port whose packets leave by port `txp`. */
  function RxPort(topology: Topology, nbPorts: nat, txp: nat): (rxp: nat)
    requires txp < nbPorts
    ensures rxp < nbPorts
  {
    match topology
    case Paired => TxPort(Paired, nbPorts, txp)
    case Chained => if txp == 0 then nbPorts - 1 else txp - 1
    case Loop => txp
  }

  /** In every topology each port is the exit of exactly one port. */
  lemma TxPortOnce(topology: Topology, nbPorts: nat, rxp: nat, txp: nat)
    requires rxp < nbPorts && txp < nbPorts
    ensures TxPort(topology, nbPorts, rxp) == txp <==> rxp == RxPort(topology, nbPorts, txp)
  {
    NextModulo(rxp, nbPorts);
  }

  // ---------------------------------------------------------------- RSS forwarding

  /** One stream of the plan, by port index and queue. */
  datatype Route = Route(rxp: nat, rxq: nat, txp: nat, txq: nat)

  /** Stream s of the plan for nbQ queues on each port. */
  function RouteOf(topology: Topology, nbPorts: nat, nbQ: nat, s: nat): (r: Route)
    requires nbQ > 0 && s / nbQ < nbPorts
  {
    Route(s / nbQ, s % nbQ, TxPort(topology, nbPorts, s / nbQ), s % nbQ)
  }

  lemma PortInRange(nbPorts: nat, nbQ: nat, s: nat)
    requires nbQ > 0 && s < nbQ * nbPorts
    ensures s / nbQ < nbPorts
  {
    if s / nbQ >= nbPorts { MulUp(nbQ, nbPorts, s / nbQ); }
  }

  lemma MulUp(a: nat, b: nat, c: nat)
    requires b <= c
    ensures a * b <= a * c
  {
  }

  /** No TX queue of a port is written by two streams, and no RX queue polled by two. */
  lemma RoutesDiffer(topology: Topology, nbPorts: nat, nbQ: nat, s: nat, t: nat)
    requires nbQ > 0 && s < nbQ * nbPorts && t < nbQ * nbPorts
    ensures s / nbQ < nbPorts && t / nbQ < nbPorts
    ensures var a, b := RouteOf(topology, nbPorts, nbQ, s), RouteOf(topology, nbPorts, nbQ, t);
      && ((a.txp == b.txp && a.txq == b.txq) <==> s == t)
      && ((a.rxp == b.rxp && a.rxq == b.rxq) <==> s == t)
  {
    hide TxPort, RxPort;
    PortInRange(nbPorts, nbQ, s);
    PortInRange(nbPorts, nbQ, t);
    var p, q := s / nbQ, t / nbQ;
    TxPortOnce(topology, nbPorts, p, TxPort(topology, nbPorts, p));
    TxPortOnce(topology, nbPorts, q, TxPort(topology, nbPorts, p));
    if p == q && s % nbQ == t % nbQ { SameParts(s, t, nbQ); }
  }

  lemma SameParts(s: nat, t: nat, d: nat)
    requires d > 0 && s / d == t / d && s % d == t % d
    ensures s == t
  {
    assert s == d * (s / d) + s % d;
    assert t == d * (t / d) + t % d;
  }

  /** All streams together use every TX queue below nbQ of every port. */
  lemma RouteTo(topology: Topology, nbPorts: nat, nbQ: nat, p: nat, q: nat) returns (s: nat)
    requires p < nbPorts && q < nbQ
    ensures s < nbQ * nbPorts && s / nbQ < nbPorts
    ensures RouteOf(topology, nbPorts, nbQ, s).txp == p && RouteOf(topology, nbPorts, nbQ, s).txq == q
  {
    var rxp := RxPort(topology, nbPorts, p);
    s := nbQ * rxp + q;
    DivModUnique(s, nbQ, rxp, q);
    MulUp(nbQ, rxp + 1, nbPorts);
    MulNext(nbQ, rxp);
    TxPortOnce(topology, nbPorts, rxp, p);
  }

  /** Stream s sends to queue q of port p. */
  predicate SendsTo(topology: Topology, nbPorts: nat, nbQ: nat, s: nat, p: nat, q: nat) {
    && nbQ > 0 && s / nbQ < nbPorts
    && RouteOf(topology, nbPorts, nbQ, s).txp == p && RouteOf(topology, nbPorts, nbQ, s).txq == q
  }

  ghost predicate Served(topology: Topology, nbPorts: nat, nbQ: nat, n: nat, p: nat, q: nat) {
    exists s: nat :: s < n && SendsTo(topology, nbPorts, nbQ, s, p, q)
  }

  /** No TX queue is written by two streams. */
  lemma ServedOnce(topology: Topology, nbPorts: nat, nbQ: nat, s: nat, t: nat, p: nat, q: nat)
    requires nbQ > 0 && s < nbQ * nbPorts && t < nbQ * nbPorts
    requires SendsTo(topology, nbPorts, nbQ, s, p, q) && SendsTo(topology, nbPorts, nbQ, t, p, q)
    ensures s == t
  {
    RoutesDiffer(topology, nbPorts, nbQ, s, t);
  }

  /** The streams that nb_fwd_streams counts: all of them, modulo 2^16. */
  function StreamCount(nbQ: nat, nbPorts: nat): nat { nbQ * nbPorts % ID16 }

  /** The streams that fit 16 bits serve every TX queue of every port exactly when there are as many RX
      queues, or more, and all streams do fit. */
  lemma AllServed(topology: Topology, nbPorts: nat, nbRxq: nat, nbTxq: nat)
    requires nbPorts > 0
    ensures var nbQ := Min(nbRxq, nbTxq); var n := StreamCount(nbQ, nbPorts);
      (forall p: nat, q: nat :: p < nbPorts && q < nbTxq ==> Served(topology, nbPorts, nbQ, n, p, q))
      <==> nbTxq <= nbRxq && nbQ * nbPorts < ID16
  {
    hide SendsTo;
    var nbQ := Min(nbRxq, nbTxq);
    var all := nbQ * nbPorts;
    var n := StreamCount(nbQ, nbPorts);
    if nbTxq > nbRxq {
      forall s: nat ensures !SendsTo(topology, nbPorts, nbQ, s, 0, nbQ) {
        SendsBelow(topology, nbPorts, nbQ, s, 0, nbQ);
      }
      assert !Served(topology, nbPorts, nbQ, n, 0, nbQ);
    } else if all < ID16 {
      forall p: nat, q: nat | p < nbPorts && q < nbQ ensures Served(topology, nbPorts, nbQ, n, p, q) {
        var s := ServerOf(topology, nbPorts, nbQ, p, q);
      }
    } else {
      var p, q := Unserved(topology, nbPorts, nbQ, n);
    }
  }

  /** No stream sends to a queue from nbQ on. */
  lemma SendsBelow(topology: Topology, nbPorts: nat, nbQ: nat, s: nat, p: nat, q: nat)
    requires nbQ <= q
    ensures !SendsTo(topology, nbPorts, nbQ, s, p, q)
  {
  }

  lemma ServerOf(topology: Topology, nbPorts: nat, nbQ: nat, p: nat, q: nat) returns (s: nat)
    requires p < nbPorts && q < nbQ
    ensures s < nbQ * nbPorts && SendsTo(topology, nbPorts, nbQ, s, p, q)
  {
    s := RouteTo(topology, nbPorts, nbQ, p, q);
  }

  lemma Unserved(topology: Topology, nbPorts: nat, nbQ: nat, n: nat) returns (p: nat, q: nat)
    requires nbQ > 0 && n < nbQ * nbPorts
    ensures p < nbPorts && q < nbQ && !Served(topology, nbPorts, nbQ, n, p, q)
  {
    PortInRange(nbPorts, nbQ, n);
    var r := RouteOf(topology, nbPorts, nbQ, n);
    p, q := r.txp, r.txq;
    forall s: nat | s < n ensures !SendsTo(topology, nbPorts, nbQ, s, p, q) {
      if SendsTo(topology, nbPorts, nbQ, s, p, q) { ServedOnce(topology, nbPorts, nbQ, s, n, p, q); }
    }
  }

  /** The stream carries the route, in port ids. */
  ghost predicate Carries(fs: FwdStream, r: Route, portIds: seq<nat>, retry: bool)
    reads fs
  {
    && r.rxp < |portIds| && r.txp < |portIds|
    && fs.rxPort == portIds[r.rxp] && fs.rxQueue == r.rxq
    && fs.txPort == portIds[r.txp] && fs.txQueue == r.txq
    && fs.peerAddr == fs.txPort && fs.retryEnabled == retry
  }

  ghost predicate CarriesRoute(topology: Topology, nbPorts: nat, nbQ: nat, fs: FwdStream, s: nat, portIds: seq<nat>,
                               retry: bool)
    requires nbQ > 0
    reads fs
  {
    s / nbQ < nbPorts && Carries(fs, RouteOf(topology, nbPorts, nbQ, s), portIds, retry)
  }

  ghost predicate Planned(topology: Topology, nbPorts: nat, nbQ: nat, streams: seq<FwdStream>, n: nat,
                          portIds: seq<nat>, retry: bool)
    requires nbQ > 0 && n <= |streams|
    reads streams
  {
    forall s :: 0 <= s < n ==> CarriesRoute(topology, nbPorts, nbQ, streams[s], s, portIds, retry)
  }

  /** RX port and queue index of stream s. */
  predicate Place(s: nat, nbQ: nat, rxp: nat, rxq: nat)
    requires nbQ > 0
  {
    rxp == s / nbQ && rxq == s % nbQ
  }

  lemma NextPlace(s: nat, nbQ: nat, nbPorts: nat, rxp: nat, rxq: nat)
    requires nbQ > 0 && Place(s, nbQ, rxp, rxq) && s < nbQ * nbPorts
    ensures rxp < nbPorts && rxq < nbQ
    ensures if rxq + 1 < nbQ then Place(s + 1, nbQ, rxp, rxq + 1) else Place(s + 1, nbQ, rxp + 1, 0)
  {
    PortInRange(nbPorts, nbQ, s);
    assert s == nbQ * rxp + rxq;
    MulNext(nbQ, rxp);
    if rxq + 1 < nbQ {
      DivModUnique(s + 1, nbQ, rxp, rxq + 1);
    } else {
      DivModUnique(s + 1, nbQ, rxp + 1, 0);
    }
  }

  lemma FirstPlace(nbQ: nat)
    requires nbQ > 0
    ensures Place(0, nbQ, 0, 0)
  {
    DivModUnique(0, nbQ, 0, 0);
  }

  /** The body of the loop over the streams. */
  method RouteStream(fs: FwdStream, topology: Topology, nbPorts: nat, rxp: nat, rxq: nat, portIds: seq<nat>,
                     retry: bool, ghost nbQ: nat, ghost s: nat)
    requires nbQ > 0 && Place(s, nbQ, rxp, rxq) && rxp < nbPorts <= |portIds|
    modifies fs
    ensures CarriesRoute(topology, nbPorts, nbQ, fs, s, portIds, retry)
  {
    hide TxPort;
    var txp := TxPort(topology, nbPorts, rxp);
    fs.rxPort := portIds[rxp];
    fs.rxQueue := rxq;
    fs.txPort := portIds[txp];
    fs.txQueue := rxq;
    fs.peerAddr := fs.txPort;
    fs.retryEnabled := retry;
  }

  /** The loop over the streams. */
  method FillStreams(topology: Topology, nbPorts: nat, nbQ: nat, n: nat, portIds: seq<nat>, retry: bool,
                     streams: seq<FwdStream>)
    requires 0 < nbQ < ID16 && nbPorts < ID8 && nbPorts <= |portIds|
    requires n <= nbQ * nbPorts && n <= |streams| && Distinct(streams)
    modifies streams
    ensures Planned(topology, nbPorts, nbQ, streams, n, portIds, retry)
  {
    hide TxPort, CarriesRoute, Place;
    var rxp: nat, rxq: nat := 0, 0;
    FirstPlace(nbQ);
    for smId := 0 to n
      invariant Place(smId, nbQ, rxp, rxq)
      invariant Planned(topology, nbPorts, nbQ, streams, smId, portIds, retry)
    {
      NextPlace(smId, nbQ, nbPorts, rxp, rxq);
      RouteStream(streams[smId], topology, nbPorts, rxp, rxq, portIds, retry, nbQ, smId);
      rxq := (rxq + 1) % ID16;
      if rxq < nbQ { continue; }
      rxq := 0;
      rxp := (rxp + 1) % ID8;
    }
  }

  /** Where packets from port p go: to the other port of its pair, if there is one; to the next port, the last
      one's to the first; back to where they came from. */
  predicate Exit(topology: Topology, nbPorts: nat, p: nat, t: nat) {
    match topology
    case Paired => t < nbPorts && t / 2 == p / 2 && (t == p <==> p % 2 == 0 && p == nbPorts - 1)
    case Chained => t == p + 1 < nbPorts || (t == 0 && p == nbPorts - 1)
    case Loop => t == p
  }

  lemma TxPortExit(topology: Topology, nbPorts: nat, p: nat)
    requires p < nbPorts
    ensures Exit(topology, nbPorts, p, TxPort(topology, nbPorts, p))
  {
    NextModulo(p, nbPorts);
  }

  lemma ExitOnce(topology: Topology, nbPorts: nat, p: nat, t: nat)
    requires p < nbPorts && Exit(topology, nbPorts, p, t)
    ensures t == TxPort(topology, nbPorts, p)
  {
    NextModulo(p, nbPorts);
  }

  /** Queue q of port p is polled by stream nbQ * p + q, which sends to queue q of the port's exit. */
  ghost predicate ForwardsAt(topology: Topology, nbPorts: nat, nbQ: nat, streams: seq<FwdStream>, portIds: seq<nat>,
                             p: nat, q: nat)
    reads streams
  {
    nbQ * p + q < |streams| && p < |portIds| &&
    var fs := streams[nbQ * p + q];
    && fs.rxPort == portIds[p] && fs.rxQueue == q && fs.txQueue == q
    && exists t: nat :: t < |portIds| && Exit(topology, nbPorts, p, t) && fs.txPort == portIds[t]
  }

  ghost predicate Forwards(topology: Topology, nbPorts: nat, nbQ: nat, streams: seq<FwdStream>, n: nat,
                           portIds: seq<nat>)
    reads streams
  {
    forall p: nat, q: nat :: p < nbPorts && q < nbQ && nbQ * p + q < n ==>
      ForwardsAt(topology, nbPorts, nbQ, streams, portIds, p, q)
  }

  lemma PlanForwards(topology: Topology, nbPorts: nat, nbQ: nat, streams: seq<FwdStream>, n: nat, portIds: seq<nat>,
                     retry: bool)
    requires nbQ > 0 && n <= |streams| && nbPorts <= |portIds|
    requires Planned(topology, nbPorts, nbQ, streams, n, portIds, retry)
    ensures Forwards(topology, nbPorts, nbQ, streams, n, portIds)
  {
    hide Planned, ForwardsAt;
    forall p: nat, q: nat | p < nbPorts && q < nbQ && nbQ * p + q < n
      ensures ForwardsAt(topology, nbPorts, nbQ, streams, portIds, p, q)
    {
      PlanForwardsAt(topology, nbPorts, nbQ, streams, n, portIds, retry, p, q);
    }
  }

  lemma PlanForwardsAt(topology: Topology, nbPorts: nat, nbQ: nat, streams: seq<FwdStream>, n: nat, portIds: seq<nat>,
                       retry: bool, p: nat, q: nat)
    requires n <= |streams| && nbPorts <= |portIds| && p < nbPorts && q < nbQ && nbQ * p + q < n
    requires Planned(topology, nbPorts, nbQ, streams, n, portIds, retry)
    ensures ForwardsAt(topology, nbPorts, nbQ, streams, portIds, p, q)
  {
    hide TxPort, Exit;
    var s := nbQ * p + q;
    DivModUnique(s, nbQ, p, q);
    assert CarriesRoute(topology, nbPorts, nbQ, streams[s], s, portIds, retry);
    TxPortExit(topology, nbPorts, p);
    var t := TxPort(topology, nbPorts, p);
    assert Exit(topology, nbPorts, p, t);
  }

  // ---------------------------------------------------------------- lcores, streams and queues together

  ghost predicate Polls(fs: FwdStream, port: nat, queue: nat) reads fs { fs.rxPort == port && fs.rxQueue == queue }

  ghost predicate Sends(fs: FwdStream, port: nat, queue: nat) reads fs { fs.txPort == port && fs.txQueue == queue }

  /** The lcore's interval of streams holds stream s. */
  ghost predicate Covers(lc: FwdLcore, s: nat) reads lc { lc.streamIdx <= s < lc.streamIdx + lc.streamNb }

  /** Exactly one of the streams polls the RX queue. */
  ghost predicate PolledOnce(streams: seq<FwdStream>, port: nat, queue: nat)
    reads streams
  {
    exists s :: 0 <= s < |streams| && Polls(streams[s], port, queue) &&
      forall t :: 0 <= t < |streams| && Polls(streams[t], port, queue) ==> t == s
  }

  /** Exactly one of the streams sends to the TX queue. */
  ghost predicate SentToOnce(streams: seq<FwdStream>, port: nat, queue: nat)
    reads streams
  {
    exists s :: 0 <= s < |streams| && Sends(streams[s], port, queue) &&
      forall t :: 0 <= t < |streams| && Sends(streams[t], port, queue) ==> t == s
  }

  /** Exactly one of the lcores runs stream s. */
  ghost predicate CoveredOnce(lcores: seq<FwdLcore>, s: nat)
    reads lcores
  {
    exists k :: 0 <= k < |lcores| && Covers(lcores[k], s) &&
      forall j :: 0 <= j < |lcores| && Covers(lcores[j], s) ==> j == k
  }

  /** Each of the first n RX queues of every port is polled by exactly one stream. */
  ghost predicate AllPolled(streams: seq<FwdStream>, ports: seq<nat>, n: nat)
    reads streams
  {
    forall p, q: nat :: 0 <= p < |ports| && q < n ==> PolledOnce(streams, ports[p], q)
  }

  /** Each of the first n TX queues of every port is sent to by exactly one stream. */
  ghost predicate AllSentTo(streams: seq<FwdStream>, ports: seq<nat>, n: nat)
    reads streams
  {
    forall p, q: nat :: 0 <= p < |ports| && q < n ==> SentToOnce(streams, ports[p], q)
  }

  /** The whole plan: the RX and TX queues below nbQ are each polled and sent to by one stream, each lcore's
      streams exist, and each of them is run by that lcore alone. */
  ghost predicate Complete(lcores: seq<FwdLcore>, streams: seq<FwdStream>, ports: seq<nat>, nbQ: nat)
    reads lcores, streams
  {
    && AllPolled(streams, ports, nbQ) && AllSentTo(streams, ports, nbQ)
    && (forall s: nat :: s < |streams| ==> CoveredOnce(lcores, s))
    && (forall k, s: nat :: 0 <= k < |lcores| && Covers(lcores[k], s) ==> s < |streams|)
  }

  /** Without overflow and with as many streams as lcores or more, the plan is complete for the queues in use. */
  lemma PlanComplete(topology: Topology, nbQ: nat, lcores: seq<FwdLcore>, streams: seq<FwdStream>, ports: seq<nat>,
                     retry: bool)
    requires |streams| == nbQ * |ports| && 0 < |lcores| <= |streams| && nbQ > 0 && Distinct(ports)
    requires Configured(|streams|, |lcores|, lcores, |lcores|)
    requires Planned(topology, |ports|, nbQ, streams, |streams|, ports, retry)
    ensures Complete(lcores, streams, ports, nbQ)
  {
    hide Configured, Planned, AllPolled, AllSentTo, CoveredOnce, Covers, Distinct;
    OneReceiverEach(topology, nbQ, streams, ports, retry);
    OneSenderEach(topology, nbQ, streams, ports, retry);
    forall s: nat | s < |streams| ensures CoveredOnce(lcores, s) { OneLcore(|streams|, lcores, s); }
    forall k, s: nat | 0 <= k < |lcores| && Covers(lcores[k], s) ensures s < |streams| {
      NoStreamBeyond(|streams|, lcores, k, s);
    }
  }

  lemma OneReceiver(topology: Topology, nbQ: nat, streams: seq<FwdStream>, ports: seq<nat>, retry: bool, p: nat, q: nat)
    requires |streams| == nbQ * |ports| && p < |ports| && q < nbQ && Distinct(ports)
    requires Planned(topology, |ports|, nbQ, streams, |streams|, ports, retry)
    ensures PolledOnce(streams, ports[p], q)
  {
    hide TxPort;
    var s := nbQ * p + q;
    DivModUnique(s, nbQ, p, q);
    MulUp(nbQ, p + 1, |ports|);
    MulNext(nbQ, p);
    assert CarriesRoute(topology, |ports|, nbQ, streams[s], s, ports, retry);
    assert Polls(streams[s], ports[p], q);
    forall t | 0 <= t < |streams| && Polls(streams[t], ports[p], q) ensures t == s {
      assert CarriesRoute(topology, |ports|, nbQ, streams[t], t, ports, retry);
      SamePort(ports, t / nbQ, p);
      SameParts(s, t, nbQ);
    }
  }

  lemma OneSender(topology: Topology, nbQ: nat, streams: seq<FwdStream>, ports: seq<nat>, retry: bool, p: nat, q: nat)
    requires |streams| == nbQ * |ports| && p < |ports| && q < nbQ && Distinct(ports)
    requires Planned(topology, |ports|, nbQ, streams, |streams|, ports, retry)
    ensures SentToOnce(streams, ports[p], q)
  {
    hide TxPort;
    var s := ServerOf(topology, |ports|, nbQ, p, q);
    assert CarriesRoute(topology, |ports|, nbQ, streams[s], s, ports, retry);
    assert Sends(streams[s], ports[p], q);
    forall t | 0 <= t < |streams| && Sends(streams[t], ports[p], q) ensures t == s {
      assert CarriesRoute(topology, |ports|, nbQ, streams[t], t, ports, retry);
      SamePort(ports, TxPort(topology, |ports|, t / nbQ), p);
      ServedOnce(topology, |ports|, nbQ, s, t, p, q);
    }
  }

  lemma OneReceiverEach(topology: Topology, nbQ: nat, streams: seq<FwdStream>, ports: seq<nat>, retry: bool)
    requires |streams| == nbQ * |ports| && nbQ > 0 && Distinct(ports)
    requires Planned(topology, |ports|, nbQ, streams, |streams|, ports, retry)
    ensures AllPolled(streams, ports, nbQ)
  {
    hide Planned, PolledOnce, Distinct;
    forall p, q: nat | 0 <= p < |ports| && q < nbQ ensures PolledOnce(streams, ports[p], q) {
      OneReceiver(topology, nbQ, streams, ports, retry, p, q);
    }
  }

  lemma OneSenderEach(topology: Topology, nbQ: nat, streams: seq<FwdStream>, ports: seq<nat>, retry: bool)
    requires |streams| == nbQ * |ports| && nbQ > 0 && Distinct(ports)
    requires Planned(topology, |ports|, nbQ, streams, |streams|, ports, retry)
    ensures AllSentTo(streams, ports, nbQ)
  {
    hide Planned, SentToOnce, Distinct;
    forall p, q: nat | 0 <= p < |ports| && q < nbQ ensures SentToOnce(streams, ports[p], q) {
      OneSender(topology, nbQ, streams, ports, retry, p, q);
    }
  }

  lemma SamePort(ports: seq<nat>, i: nat, j: nat)
    requires Distinct(ports) && i < |ports| && j < |ports| && ports[i] == ports[j]
    ensures i == j
  {
  }

  lemma OneLcore(nbFs: nat, lcores: seq<FwdLcore>, s: nat)
    requires 0 < |lcores| <= nbFs && s < nbFs && Configured(nbFs, |lcores|, lcores, |lcores|)
    ensures CoveredOnce(lcores, s)
  {
    hide Start, Share;
    var n := |lcores|;
    SharesAddUp(nbFs, n);
    var k := Runner(nbFs, n, n, s);
    assert Covers(lcores[k], s);
    forall j | 0 <= j < n && Covers(lcores[j], s) ensures j == k { RunOnce(nbFs, n, j, k, s); }
  }

  lemma NoStreamBeyond(nbFs: nat, lcores: seq<FwdLcore>, k: nat, s: nat)
    requires k < |lcores| <= nbFs && Configured(nbFs, |lcores|, lcores, |lcores|) && Covers(lcores[k], s)
    ensures s < nbFs
  {
    hide Start, Share;
    SharesAddUp(nbFs, |lcores|);
    RunsBelow(nbFs, |lcores|, k, s);
  }

  /** The plan speaks of the lcores, streams and ports in use only. */
  lemma InUse(topology: Topology, nbQ: nat, nbPorts: nat, lcores: seq<FwdLcore>, nbFc: nat, streams: seq<FwdStream>,
              n: nat, portIds: seq<nat>, retry: bool)
    requires 0 < nbFc <= |lcores| && n <= |streams| && nbQ > 0 && nbPorts <= |portIds|
    requires Configured(n, nbFc, lcores, nbFc) && Planned(topology, nbPorts, nbQ, streams, n, portIds, retry)
    ensures Configured(n, nbFc, lcores[..nbFc], nbFc)
    ensures Planned(topology, nbPorts, nbQ, streams[..n], n, portIds[..nbPorts], retry)
  {
    hide Start, Share, Planned;
    StreamsInUse(topology, nbQ, nbPorts, streams, n, portIds, retry);
  }

  lemma StreamsInUse(topology: Topology, nbQ: nat, nbPorts: nat, streams: seq<FwdStream>, n: nat, portIds: seq<nat>,
                     retry: bool)
    requires n <= |streams| && nbQ > 0 && nbPorts <= |portIds|
    requires Planned(topology, nbPorts, nbQ, streams, n, portIds, retry)
    ensures Planned(topology, nbPorts, nbQ, streams[..n], n, portIds[..nbPorts], retry)
  {
    hide TxPort;
    forall s | 0 <= s < n ensures CarriesRoute(topology, nbPorts, nbQ, streams[..n][s], s, portIds[..nbPorts], retry) {
      assert CarriesRoute(topology, nbPorts, nbQ, streams[s], s, portIds, retry);
    }
  }

  /** Without queues or ports there is nothing to serve. */
  lemma NothingToServe(lcores: seq<FwdLcore>, streams: seq<FwdStream>, ports: seq<nat>, nbQ: nat)
    requires lcores == [] && streams == [] && nbQ * |ports| == 0
    ensures Complete(lcores, streams, ports, nbQ)
  {
    if nbQ > 0 && |ports| > 0 { MulUp(nbQ, 1, |ports|); }
  }

  lemma InUseComplete(topology: Topology, nbQ: nat, nbPorts: nat, lcores: seq<FwdLcore>, nbFc: nat,
                      streams: seq<FwdStream>, n: nat, portIds: seq<nat>, retry: bool)
    requires nbFc <= |lcores| && n <= |streams| && nbPorts <= |portIds|
    requires n == nbQ * nbPorts && nbFc <= n && (n > 0 ==> nbFc > 0) && Distinct(portIds[..nbPorts])
    requires n > 0 ==>
      nbQ > 0 && Configured(n, nbFc, lcores, nbFc) && Planned(topology, nbPorts, nbQ, streams, n, portIds, retry)
    ensures Complete(lcores[..nbFc], streams[..n], portIds[..nbPorts], nbQ)
  {
    hide Configured, Planned, Complete, Distinct;
    if n > 0 {
      InUse(topology, nbQ, nbPorts, lcores, nbFc, streams, n, portIds, retry);
      PlanComplete(topology, nbQ, lcores[..nbFc], streams[..n], portIds[..nbPorts], retry);
    } else {
      NothingToServe(lcores[..nbFc], streams[..n], portIds[..nbPorts], nbQ);
    }
  }

  // ---------------------------------------------------------------- all queues that are set up

  /** A plan that is cut short or not: streams of the queues in use. */
  ghost predicate PartPlan(topology: Topology, nbQ: nat, streams: seq<FwdStream>, ports: seq<nat>, retry: bool)
    reads streams
  {
    |streams| <= nbQ * |ports| && (nbQ > 0 ==> Planned(topology, |ports|, nbQ, streams, |streams|, ports, retry))
  }

  /** No stream polls or sends to a queue from nbQ on. */
  lemma QueuesBelow(topology: Topology, nbQ: nat, streams: seq<FwdStream>, ports: seq<nat>, retry: bool, port: nat,
                    q: nat)
    requires PartPlan(topology, nbQ, streams, ports, retry) && nbQ <= q
    ensures !PolledOnce(streams, port, q) && !SentToOnce(streams, port, q)
  {
    hide TxPort;
    if nbQ > 0 {
      forall s | 0 <= s < |streams| ensures !Polls(streams[s], port, q) && !Sends(streams[s], port, q) {
        assert CarriesRoute(topology, |ports|, nbQ, streams[s], s, ports, retry);
      }
    } else {
      NoProduct(|ports|);
    }
  }

  lemma NoProduct(n: nat)
    ensures 0 * n == 0
  {
  }

  /** The RX and the TX side of the first stream that does not fit stay without a stream. */
  lemma SidesMissed(topology: Topology, nbQ: nat, streams: seq<FwdStream>, ports: seq<nat>, retry: bool)
    requires PartPlan(topology, nbQ, streams, ports, retry) && |streams| < nbQ * |ports| && Distinct(ports)
    ensures !AllPolled(streams, ports, nbQ) && !AllSentTo(streams, ports, nbQ)
  {
    if nbQ == 0 { NoProduct(|ports|); }
    var n := |streams|;
    PortInRange(|ports|, nbQ, n);
    var r := RouteOf(topology, |ports|, nbQ, n);
    NotPolled(topology, nbQ, streams, ports, retry, r);
    NotSentTo(topology, nbQ, streams, ports, retry, r);
  }

  lemma NotPolled(topology: Topology, nbQ: nat, streams: seq<FwdStream>, ports: seq<nat>, retry: bool, r: Route)
    requires PartPlan(topology, nbQ, streams, ports, retry) && nbQ > 0 && |streams| < nbQ * |ports| && Distinct(ports)
    requires |streams| / nbQ < |ports| && r == RouteOf(topology, |ports|, nbQ, |streams|)
    ensures r.rxp < |ports| && !PolledOnce(streams, ports[r.rxp], r.rxq)
  {
    hide TxPort;
    forall s | 0 <= s < |streams| ensures !Polls(streams[s], ports[r.rxp], r.rxq) {
      assert CarriesRoute(topology, |ports|, nbQ, streams[s], s, ports, retry);
      if Polls(streams[s], ports[r.rxp], r.rxq) {
        SamePort(ports, s / nbQ, r.rxp);
        SameParts(s, |streams|, nbQ);
      }
    }
  }

  lemma NotSentTo(topology: Topology, nbQ: nat, streams: seq<FwdStream>, ports: seq<nat>, retry: bool, r: Route)
    requires PartPlan(topology, nbQ, streams, ports, retry) && nbQ > 0 && |streams| < nbQ * |ports| && Distinct(ports)
    requires |streams| / nbQ < |ports| && r == RouteOf(topology, |ports|, nbQ, |streams|)
    ensures r.txp < |ports| && !SentToOnce(streams, ports[r.txp], r.txq)
  {
    hide TxPort;
    forall s | 0 <= s < |streams| ensures !Sends(streams[s], ports[r.txp], r.txq) {
      assert CarriesRoute(topology, |ports|, nbQ, streams[s], s, ports, retry);
      if Sends(streams[s], ports[r.txp], r.txq) {
        SamePort(ports, TxPort(topology, |ports|, s / nbQ), r.txp);
        ServedOnce(topology, |ports|, nbQ, s, |streams|, r.txp, r.txq);
      }
    }
  }

  /** All nbRxq RX queues of all ports are polled exactly when there are as many TX queues, or more, and all
      streams fit; and all nbTxq TX queues are sent to exactly when there are as many RX queues, or more, and
      all streams fit. */
  lemma QueuesServed(topology: Topology, nbRxq: nat, nbTxq: nat, streams: seq<FwdStream>, ports: seq<nat>, retry: bool)
    requires ports != [] && Distinct(ports)
    requires PartPlan(topology, Min(nbRxq, nbTxq), streams, ports, retry)
    ensures var all := |streams| == Min(nbRxq, nbTxq) * |ports|;
      && (AllPolled(streams, ports, nbRxq) <==> nbRxq <= nbTxq && all)
      && (AllSentTo(streams, ports, nbTxq) <==> nbTxq <= nbRxq && all)
  {
    hide Planned, PartPlan, Distinct, PolledOnce, SentToOnce;
    var nbQ := Min(nbRxq, nbTxq);
    PartIs(topology, nbQ, streams, ports, retry);
    QueuesBelow(topology, nbQ, streams, ports, retry, ports[0], nbQ);
    if |streams| < nbQ * |ports| {
      SidesMissed(topology, nbQ, streams, ports, retry);
    } else if nbQ > 0 {
      OneReceiverEach(topology, nbQ, streams, ports, retry);
      OneSenderEach(topology, nbQ, streams, ports, retry);
    }
  }

  lemma PartIs(topology: Topology, nbQ: nat, streams: seq<FwdStream>, ports: seq<nat>, retry: bool)
    requires PartPlan(topology, nbQ, streams, ports, retry)
    ensures |streams| <= nbQ * |ports|
    ensures nbQ > 0 ==> Planned(topology, |ports|, nbQ, streams, |streams|, ports, retry)
  {
  }

  /** With four RX queues and two TX queues, or two and four, on two ports, everything fits, but the third
      queue of the larger kind is left without a stream. */
  lemma UnevenQueues(topology: Topology, streams: seq<FwdStream>, retry: bool)
    requires |streams| == 4 && Planned(topology, 2, Min(4, 2), streams, 4, [0, 1], retry)
    ensures !PolledOnce(streams, 0, 2) && !SentToOnce(streams, 0, 2)
  {
    QueuesBelow(topology, 2, streams, [0, 1], retry, 0, 2);
  }

  lemma InUseServed(topology: Topology, nbRxq: nat, nbTxq: nat, nbPorts: nat, streams: seq<FwdStream>, n: nat,
                    portIds: seq<nat>, retry: bool)
    requires n <= |streams| && 0 < nbPorts <= |portIds| && Distinct(portIds[..nbPorts])
    requires var nbQ := Min(nbRxq, nbTxq);
      n <= nbQ * nbPorts && (nbQ > 0 ==> Planned(topology, nbPorts, nbQ, streams, n, portIds, retry))
    ensures var ports, fits := portIds[..nbPorts], n == Min(nbRxq, nbTxq) * nbPorts;
      && (AllPolled(streams[..n], ports, nbRxq) <==> nbRxq <= nbTxq && fits)
      && (AllSentTo(streams[..n], ports, nbTxq) <==> nbTxq <= nbRxq && fits)
  {
    hide Planned, AllPolled, AllSentTo, Distinct;
    var nbQ := Min(nbRxq, nbTxq);
    if nbQ > 0 { StreamsInUse(topology, nbQ, nbPorts, streams, n, portIds, retry); }
    QueuesServed(topology, nbRxq, nbTxq, streams[..n], portIds[..nbPorts], retry);
  }

  /** Without overflow the plan is complete for the queues in use. All RX queues are polled exactly when there
      are no more of them than TX queues and nothing overflows; all TX queues are sent to exactly when there
      are no more of them than RX queues and nothing overflows. */
  ghost predicate Serves(lcores: seq<FwdLcore>, streams: seq<FwdStream>, ports: seq<nat>, nbRxq: nat, nbTxq: nat)
    reads lcores, streams
  {
    var fits := Min(nbRxq, nbTxq) * |ports| < ID16;
    && (fits ==> Complete(lcores, streams, ports, Min(nbRxq, nbTxq)))
    && (ports != [] ==>
          && (AllPolled(streams, ports, nbRxq) <==> nbRxq <= nbTxq && fits)
          && (AllSentTo(streams, ports, nbTxq) <==> nbTxq <= nbRxq && fits))
  }

  /** What the plan of the first n streams, n being truncated to 16 bits, comes to. */
  lemma PlanInUse(topology: Topology, nbRxq: nat, nbTxq: nat, nbPorts: nat, lcores: seq<FwdLcore>, nbFc: nat,
                  streams: seq<FwdStream>, n: nat, portIds: seq<nat>, retry: bool)
    requires nbFc <= |lcores| && n <= |streams| && nbPorts <= |portIds| && Distinct(portIds[..nbPorts])
    requires n == StreamCount(Min(nbRxq, nbTxq), nbPorts) && nbFc <= n && (n > 0 ==> nbFc > 0)
    requires n > 0 ==> Configured(n, nbFc, lcores, nbFc)
    requires Min(nbRxq, nbTxq) > 0 ==> Planned(topology, nbPorts, Min(nbRxq, nbTxq), streams, n, portIds, retry)
    ensures Serves(lcores[..nbFc], streams[..n], portIds[..nbPorts], nbRxq, nbTxq)
  {
    hide Configured, Planned, Complete, AllPolled, AllSentTo, Distinct;
    var nbQ := Min(nbRxq, nbTxq);
    Truncated(nbQ, nbPorts);
    if nbQ == 0 { NoProduct(nbPorts); }
    if n == nbQ * nbPorts { InUseComplete(topology, nbQ, nbPorts, lcores, nbFc, streams, n, portIds, retry); }
    if nbPorts > 0 { InUseServed(topology, nbRxq, nbTxq, nbPorts, streams, n, portIds, retry); }
  }

  lemma Truncated(nbQ: nat, nbPorts: nat)
    ensures var n := StreamCount(nbQ, nbPorts);
      n < ID16 && n <= nbQ * nbPorts && (n == nbQ * nbPorts <==> nbQ * nbPorts < ID16) && (nbQ == 0 ==> n == 0)
  {
    if nbQ == 0 { NoProduct(nbPorts); }
  }

  /** rss_fwd_config_setup, on lcores and streams that init_fwd_streams has provided. */
  method RssFwdConfigSetup(topology: Topology, nbRxq: nat, nbTxq: nat, nbFwdLcores: nat, nbFwdPorts: nat,
                           portIds: seq<nat>, retry: bool, lcores: seq<FwdLcore>, streams: seq<FwdStream>)
    returns (cfgLcores: nat, cfgStreams: nat, nbQ: nat)
    requires nbRxq < ID16 && nbTxq < ID16 && 0 < nbFwdLcores < ID8 && nbFwdPorts < ID8
    requires nbFwdLcores <= |lcores| && Distinct(lcores) && nbFwdPorts <= |portIds|
    requires |streams| >= ID16 - 1 && Distinct(streams)
    modifies lcores, streams
    ensures nbQ == Min(nbRxq, nbTxq)
    ensures cfgStreams == StreamCount(nbQ, nbFwdPorts)
    ensures cfgLcores == if cfgStreams < nbFwdLcores then cfgStreams else nbFwdLcores
    ensures cfgStreams > 0 ==>
      && Configured(cfgStreams, cfgLcores, lcores, cfgLcores)
      && Planned(topology, nbFwdPorts, nbQ, streams, cfgStreams, portIds, retry)
    ensures nbQ > 0 ==> Forwards(topology, nbFwdPorts, nbQ, streams, cfgStreams, portIds)
    ensures Distinct(portIds[..nbFwdPorts]) ==>
      Serves(lcores[..cfgLcores], streams[..cfgStreams], portIds[..nbFwdPorts], nbRxq, nbTxq)
  {
    hide Configured, Planned, Distinct, Serves, StreamCount, Forwards;
    nbQ := nbRxq;
    if nbQ > nbTxq { nbQ := nbTxq; }
    cfgLcores := nbFwdLcores;
    cfgStreams := StreamCount(nbQ, nbFwdPorts);
    Truncated(nbQ, nbFwdPorts);
    if cfgStreams < cfgLcores {
      cfgLcores := cfgStreams % ID8;
    }
    SetupFwdConfigOfEachLcore(cfgStreams, cfgLcores, lcores);
    if nbQ > 0 {
      FillStreams(topology, nbFwdPorts, nbQ, cfgStreams, portIds, retry, streams);
      PlanForwards(topology, nbFwdPorts, nbQ, streams, cfgStreams, portIds, retry);
    }
    if Distinct(portIds[..nbFwdPorts]) {
      PlanInUse(topology, nbRxq, nbTxq, nbFwdPorts, lcores, cfgLcores, streams, cfgStreams, portIds, retry);
    }
  }
}
