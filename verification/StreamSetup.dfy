/** How forwarding streams are laid over ports, queues and cores. */
module StreamSetup {
  import opened Bytes
  import opened Counting

  const UINT16: nat := 65536
  const MAX_ETHPORTS: nat := 32

  datatype Topology = Paired | Chained | Loop

  datatype FwdStream = FwdStream(rxPort: nat, rxQueue: nat, txPort: nat, txQueue: nat)

  // ---------------------------------------------------------------- cores

  /** Core i gets the streams idx[i] to idx[i] + nb[i] - 1, the cores one after another
      from 0 up to total. */
  ghost predicate Contiguous(idx: seq<nat>, nb: seq<nat>, total: nat) {
    |idx| == |nb| && Shares(idx, nb, |idx|, total)
  }

  /** The first n cores hold the streams up to next. */
  ghost predicate Shares(idx: seq<nat>, nb: seq<nat>, n: nat, next: nat) {
    && n <= |idx| && n <= |nb|
    && (forall i :: 0 <= i < n ==> Follows(idx, nb, n, next, i))
    && (if n == 0 then next == 0 else idx[0] == 0)
  }

  ghost predicate Follows(idx: seq<nat>, nb: seq<nat>, n: nat, next: nat, i: nat)
    requires i < n <= |idx| && n <= |nb|
  {
    idx[i] + nb[i] == if i + 1 < n then idx[i + 1] else next
  }

  ghost predicate Even(nb: seq<nat>) {
    forall i, j :: 0 <= i < |nb| && 0 <= j < |nb| ==> nb[i] <= nb[j] + 1
  }

  ghost predicate OnCore(idx: seq<nat>, nb: seq<nat>, core: nat, k: nat)
    requires |idx| == |nb|
  {
    core < |idx| && idx[core] <= k < idx[core] + nb[core]
  }

  lemma {:induction false} ContiguousOrder(idx: seq<nat>, nb: seq<nat>, total: nat, i: nat, j: nat)
    requires Contiguous(idx, nb, total) && i < j < |idx|
    ensures idx[i] + nb[i] <= idx[j]
    decreases j - i
  {
    assert Follows(idx, nb, |idx|, total, i);
    if i + 1 < j {
      ContiguousOrder(idx, nb, total, i + 1, j);
      assert nb[i + 1] >= 0;
    }
  }

  lemma WithinTotal(idx: seq<nat>, nb: seq<nat>, total: nat, i: nat)
    requires Contiguous(idx, nb, total) && i < |idx|
    ensures idx[i] + nb[i] <= total
  {
    var last := |idx| - 1;
    assert Follows(idx, nb, |idx|, total, last) && nb[last] >= 0;
    if i < last {
      ContiguousOrder(idx, nb, total, i, last);
    }
  }

  /** A contiguous assignment gives every stream to exactly one core. */
  lemma {:induction false} EveryStreamOnOneCore(idx: seq<nat>, nb: seq<nat>, total: nat, k: nat)
    requires Contiguous(idx, nb, total)
    ensures k < total <==> exists c: nat :: OnCore(idx, nb, c, k)
    ensures forall c: nat, d: nat :: OnCore(idx, nb, c, k) && OnCore(idx, nb, d, k) ==> c == d
  {
    forall c: nat, d: nat | OnCore(idx, nb, c, k) && OnCore(idx, nb, d, k) ensures c == d {
      if c < d {
        ContiguousOrder(idx, nb, total, c, d);
      } else if d < c {
        ContiguousOrder(idx, nb, total, d, c);
      }
    }
    if k < total {
      var c := FindCore(idx, nb, total, k, 0);
    }
    if c: nat :| OnCore(idx, nb, c, k) {
      WithinTotal(idx, nb, total, c);
    }
  }

  /** Some core serves stream k. */
  ghost predicate Served(idx: seq<nat>, nb: seq<nat>, k: nat)
    requires |idx| == |nb|
  {
    exists c: nat :: OnCore(idx, nb, c, k)
  }

  /** Cores assigned for `before` streams serve exactly the `now` streams there are, if and only
      if the two numbers are the same. */
  lemma CoresServeStreamsExactly(idx: seq<nat>, nb: seq<nat>, before: nat, now: nat)
    requires Contiguous(idx, nb, before)
    ensures (forall k: nat :: k < now <==> Served(idx, nb, k)) <==> before == now
  {
    hide OnCore;
    forall k: nat ensures k < before <==> Served(idx, nb, k) {
      EveryStreamOnOneCore(idx, nb, before, k);
    }
    assert before < now ==> !Served(idx, nb, before);
    assert now < before ==> Served(idx, nb, now);
  }

  /** One stream before, two after: the core serves stream 0 and nobody serves stream 1. */
  lemma NewStreamHasNoCore()
    ensures Contiguous([0], [1], 1) && Served([0], [1], 0) && !Served([0], [1], 1)
  {
    assert OnCore([0], [1], 0, 0);
  }

  lemma {:induction false} FindCore(idx: seq<nat>, nb: seq<nat>, total: nat, k: nat, from: nat) returns (c: nat)
    requires Contiguous(idx, nb, total) && from < |idx| && idx[from] <= k < total
    ensures OnCore(idx, nb, c, k)
    decreases |idx| - from
  {
    assert Follows(idx, nb, |idx|, total, from);
    if k < idx[from] + nb[from] {
      c := from;
    } else {
      c := FindCore(idx, nb, total, k, from + 1);
    }
  }

  class Setup {
    const streamIdx: array<nat>
    const streamNb: array<nat>
    const streams: array<FwdStream>

    ghost predicate Valid() {
      streamIdx != streamNb
    }

    constructor (cores: nat, nbStreams: nat)
      ensures Valid() && streamIdx.Length == streamNb.Length == cores && streams.Length == nbStreams
    {
      streamIdx := new nat[cores](_ => 0);
      streamNb := new nat[cores](_ => 0);
      streams := new FwdStream[nbStreams](_ => FwdStream(0, 0, 0, 0));
    }

    /** Give the next core a share of streams; the running stream number is 16 bits wide. */
    method AssignShare(lcId: nat, smId: nat, share: nat) returns (next: nat)
      requires Valid() && lcId < streamIdx.Length && lcId < streamNb.Length
      requires Shares(streamIdx[..], streamNb[..], lcId, smId) && smId + share < UINT16
      modifies streamIdx, streamNb
      ensures next == smId + share && Shares(streamIdx[..], streamNb[..], lcId + 1, next)
      ensures streamNb[..] == old(streamNb[..])[lcId := share]
    {
      hide Shares;
      SharesSnoc(streamIdx[..], streamNb[..], lcId, smId, share);
      streamIdx[lcId] := smId;
      streamNb[lcId] := share;
      next := (smId + share) % UINT16;
    }

    /** One of the two loops: equal shares for the next cores. */
    method AssignShares(first: nat, count: nat, smId0: nat, share: nat) returns (smId: nat)
      requires Valid() && first + count <= streamIdx.Length && first + count <= streamNb.Length
      requires Shares(streamIdx[..], streamNb[..], first, smId0) && smId0 + Times(count, share) < UINT16
      modifies streamIdx, streamNb
      ensures smId == smId0 + Times(count, share) && Shares(streamIdx[..], streamNb[..], first + count, smId)
      ensures forall i :: 0 <= i < first ==> streamNb[i] == old(streamNb[i])
      ensures forall i :: first <= i < first + count ==> streamNb[i] == share
    {
      hide Shares, Times;
      smId := smId0;
      NoTimes(share);
      for lcId := 0 to count
        invariant smId == smId0 + Times(lcId, share) && Shares(streamIdx[..], streamNb[..], first + lcId, smId)
        invariant forall i :: 0 <= i < first ==> streamNb[i] == old(streamNb[i])
        invariant forall i :: first <= i < first + lcId ==> streamNb[i] == share
      {
        StillBelow(lcId, count, share);
        smId := AssignShare(first + lcId, smId, share);
      }
    }

    /** `setup_fwd_config_of_each_lcore`: stream counts are 16 bits wide, core counts 8. The
        cores get the streams in order, in shares that differ by at most one; with more cores
        than streams each core still gets a share of one. */
    method SetupLcores(nbFs: nat, nbFc: nat)
      requires Valid() && nbFs < UINT16 && nbFc < 256 && (nbFc == 0 ==> nbFs == 0)
      requires nbFc <= streamIdx.Length && nbFc <= streamNb.Length
      modifies streamIdx, streamNb
      ensures Contiguous(streamIdx[..nbFc], streamNb[..nbFc], if nbFs <= nbFc then nbFc else nbFs)
      ensures Even(streamNb[..nbFc])
    {
      hide Shares, Contiguous, Times;
      var nbFsPerLcore, nbExtra := 1, 0;
      if nbFs > nbFc {
        nbFsPerLcore, nbExtra := nbFs / nbFc, nbFs % nbFc;
      }
      var nbLc := nbFc - nbExtra;
      ghost var share, total := nbFsPerLcore, if nbFs <= nbFc then nbFc else nbFs;
      SharesAddUp(nbFs, nbFc, share, nbExtra);
      NoShares(streamIdx[..], streamNb[..]);
      NoTimes(share);
      NoTimes(share + 1);
      var smId: nat := 0;
      smId := AssignShares(0, nbLc, smId, nbFsPerLcore);
      nbFsPerLcore := nbFsPerLcore + 1;
      smId := AssignShares(nbLc, nbExtra, smId, nbFsPerLcore);
      SharesAreContiguous(streamIdx[..], streamNb[..], nbFc, total);
    }

    /** `rss_fwd_config_setup`: queue by queue over all ports; the transmit port follows the
        topology. Ports, queues and cores are counted from what the command line gave. */
    method RssSetup(ids: seq<nat>, topology: Topology, nbRxq: nat, nbTxq: nat, nbFwdLcores: nat)
      returns (nbLcores: nat, nbStreams: nat)
      requires Valid() && 0 < |ids| && 0 < nbRxq && 0 < nbTxq && 0 < nbFwdLcores < 256
      requires Min(nbRxq, nbTxq) * |ids| < UINT16 && streams.Length == Min(nbRxq, nbTxq) * |ids|
      requires nbFwdLcores <= streamIdx.Length && nbFwdLcores <= streamNb.Length
      modifies streamIdx, streamNb, streams
      ensures nbStreams == streams.Length && nbLcores == (if nbStreams < nbFwdLcores then nbStreams else nbFwdLcores)
      ensures Contiguous(streamIdx[..nbLcores], streamNb[..nbLcores], nbStreams) && Even(streamNb[..nbLcores])
      ensures streams[..] == RssStreams(ids, topology, Min(nbRxq, nbTxq))
    {
      hide Contiguous, Even, RssStream;
      var nbQ := nbRxq;
      if nbQ > nbTxq {
        nbQ := nbTxq;
      }
      assert nbQ * |ids| > 0;
      nbLcores, nbStreams := nbFwdLcores, nbQ * |ids| % UINT16;
      if nbStreams < nbLcores {
        nbLcores := nbStreams;
      }
      SetupLcores(nbStreams, nbLcores);
      ghost var idx, nb := streamIdx[..nbLcores], streamNb[..nbLcores];
      FillRss(ids, topology);
      assert streamIdx[..nbLcores] == idx && streamNb[..nbLcores] == nb;
    }

    method FillRss(ids: seq<nat>, topology: Topology)
      requires 0 < |ids|
      modifies streams
      ensures forall k :: 0 <= k < streams.Length ==> streams[k] == RssStream(ids, topology, k)
    {
      hide RssStream;
      var rxp, rxq := 0, 0;
      for smId := 0 to streams.Length
        invariant smId == rxq * |ids| + rxp && rxp < |ids|
        invariant forall k :: 0 <= k < smId ==> streams[k] == RssStream(ids, topology, k)
      {
        var txp := TxPort(topology, |ids|, rxp);
        RssStreamIs(ids, topology, smId, rxq, rxp);
        streams[smId] := FwdStream(ids[rxp], rxq, ids[txp], rxq);
        rxp := rxp + 1;
        if rxp == |ids| {
          NextRow(rxq, |ids|);
          rxp, rxq := 0, rxq + 1;
        }
      }
    }

    /** `icmp_echo_config_setup`: core by core over the streams, port by port over the queues;
        replies go out where requests came in. */
    method IcmpEchoSetup(ids: seq<nat>, nbRxq: nat, nbTxq: nat, nbFwdLcores: nat)
      returns (nbLcores: nat, nbStreams: nat)
      requires Valid() && 0 < |ids| && 0 < nbRxq && 0 < nbTxq && 0 < nbFwdLcores < 256
      requires nbRxq * |ids| < UINT16 && streams.Length == nbRxq * |ids|
      requires nbFwdLcores <= streamIdx.Length && nbFwdLcores <= streamNb.Length
      modifies streamIdx, streamNb, streams
      ensures nbStreams == streams.Length && 0 < nbLcores <= nbFwdLcores
      ensures Contiguous(streamIdx[..nbLcores], streamNb[..nbLcores], nbStreams) && Even(streamNb[..nbLcores])
      ensures streams[..] == IcmpStreams(ids, nbRxq)
    {
      hide Contiguous, Even, IcmpStream, Follows;
      assert nbTxq * |ids| > 0 && nbRxq * |ids| > 0;
      nbLcores := if nbTxq * |ids| < nbFwdLcores then nbTxq * |ids| else nbFwdLcores;
      nbStreams := nbRxq * |ids| % UINT16;
      if nbStreams < nbLcores {
        nbLcores := nbStreams;
      }
      SetupLcores(nbStreams, nbLcores);
      ghost var idx, nb := streamIdx[..nbLcores], streamNb[..nbLcores];
      FillIcmp(ids, nbRxq, nbLcores);
      assert streamIdx[..nbLcores] == idx && streamNb[..nbLcores] == nb;
    }

    method FillIcmp(ids: seq<nat>, nbRxq: nat, nbLcores: nat)
      requires 0 < nbRxq && streams.Length == nbRxq * |ids|
      requires 0 < nbLcores <= streamIdx.Length && nbLcores <= streamNb.Length
      requires Contiguous(streamIdx[..nbLcores], streamNb[..nbLcores], streams.Length)
      modifies streams
      ensures forall k :: 0 <= k < streams.Length ==> streams[k] == IcmpStream(ids, nbRxq, k)
    {
      hide Contiguous, IcmpStream;
      var rxp: nat, rxq: nat := 0, 0;
      ghost var idx, nb := streamIdx[..nbLcores], streamNb[..nbLcores];
      FirstCore(idx, nb, streams.Length);
      for lcId := 0 to nbLcores
        invariant rxp * nbRxq + rxq == (if lcId < nbLcores then idx[lcId] else streams.Length) && rxq < nbRxq
        invariant forall k :: 0 <= k < rxp * nbRxq + rxq <= streams.Length ==> streams[k] == IcmpStream(ids, nbRxq, k)
      {
        WithinTotal(idx, nb, streams.Length, lcId);
        NextCore(idx, nb, streams.Length, lcId);
        rxp, rxq := FillCore(ids, nbRxq, streamIdx[lcId], streamNb[lcId], rxp, rxq);
      }
    }

    /** `streams_fwd_config_setup`: each configured stream gets the next queue of its port. The
        cores are given the number of streams from before the streams are set up anew, `before`;
        the loop fills the number after it. */
    method StreamsSetup(streamsPort: seq<nat>, before: nat, nbFwdLcores: nat) returns (nbLcores: nat)
      requires Valid() && before < UINT16 && |streamsPort| < UINT16 && 0 < nbFwdLcores < 256
      requires forall k :: 0 <= k < |streamsPort| ==> streamsPort[k] < MAX_ETHPORTS
      requires streams.Length == |streamsPort| && nbFwdLcores <= streamIdx.Length && nbFwdLcores <= streamNb.Length
      modifies streamIdx, streamNb, streams
      ensures nbLcores == (if before < nbFwdLcores then before else nbFwdLcores)
      ensures Contiguous(streamIdx[..nbLcores], streamNb[..nbLcores], before) && Even(streamNb[..nbLcores])
      ensures forall k :: 0 <= k < streams.Length ==> streams[k] == PortStream(streamsPort, k)
    {
      hide Contiguous, Even;
      nbLcores := if before < nbFwdLcores then before else nbFwdLcores;
      SetupLcores(before, nbLcores);
      ghost var idx, nb := streamIdx[..nbLcores], streamNb[..nbLcores];
      FillByPort(streamsPort);
      assert streamIdx[..nbLcores] == idx && streamNb[..nbLcores] == nb;
    }

    method FillByPort(streamsPort: seq<nat>)
      requires forall k :: 0 <= k < |streamsPort| ==> streamsPort[k] < MAX_ETHPORTS
      requires streams.Length == |streamsPort|
      modifies streams
      ensures forall k :: 0 <= k < streams.Length ==> streams[k] == PortStream(streamsPort, k)
    {
      var q := new nat[MAX_ETHPORTS](_ => 0);
      for smId := 0 to streams.Length
        invariant forall p :: 0 <= p < MAX_ETHPORTS ==> q[p] == Count(streamsPort[..smId], p)
        invariant forall k :: 0 <= k < smId ==> streams[k] == PortStream(streamsPort, k)
      {
        var p := streamsPort[smId];
        assert streamsPort[..smId + 1][..smId] == streamsPort[..smId];
        streams[smId] := FwdStream(p, q[p], p, q[p]);
        q[p] := q[p] + 1;
      }
    }

    /** The streams of one core, from stream index base on. */
    method FillCore(ids: seq<nat>, nbRxq: nat, base: nat, count: nat, rxp0: nat, rxq0: nat) returns (rxp: nat, rxq: nat)
      requires rxq0 < nbRxq && streams.Length == nbRxq * |ids|
      requires rxp0 * nbRxq + rxq0 == base && base + count <= streams.Length
      requires forall k :: 0 <= k < base ==> streams[k] == IcmpStream(ids, nbRxq, k)
      modifies streams
      ensures rxp * nbRxq + rxq == base + count && rxq < nbRxq
      ensures forall k :: 0 <= k < base + count ==> streams[k] == IcmpStream(ids, nbRxq, k)
    {
      hide IcmpStream;
      rxp, rxq := rxp0, rxq0;
      for smId := 0 to count
        invariant rxp * nbRxq + rxq == base + smId && rxq < nbRxq
        invariant forall k :: 0 <= k < base + smId ==> streams[k] == IcmpStream(ids, nbRxq, k)
      {
        RowWithin(rxp, nbRxq, rxq, |ids|);
        IcmpStreamIs(ids, nbRxq, base + smId, rxp, rxq);
        streams[base + smId] := FwdStream(ids[rxp], rxq, ids[rxp], rxq);
        rxq := rxq + 1;
        if rxq == nbRxq {
          NextRow(rxp, nbRxq);
          rxp, rxq := rxp + 1, 0;
        }
      }
    }
  }

  lemma NoShares(idx: seq<nat>, nb: seq<nat>)
    ensures Shares(idx, nb, 0, 0)
  {
  }

  lemma SharesAddUp(nbFs: nat, nbFc: nat, share: nat, extra: nat)
    requires nbFc == 0 ==> nbFs == 0
    requires if nbFs <= nbFc then share == 1 && extra == 0 else share == nbFs / nbFc && extra == nbFs % nbFc
    ensures extra <= nbFc
    ensures Times(nbFc - extra, share) + Times(extra, share + 1) == if nbFs <= nbFc then nbFc else nbFs
  {
    Distribute(nbFc, extra, share);
    if nbFs > nbFc {
      assert nbFs == nbFc * (nbFs / nbFc) + nbFs % nbFc;
    }
  }

  lemma Distribute(n: int, extra: int, share: int)
    ensures (n - extra) * share + extra * (share + 1) == n * share + extra
  {
  }

  lemma SharesSnoc(idx: seq<nat>, nb: seq<nat>, n: nat, next: nat, share: nat)
    requires Shares(idx, nb, n, next) && n < |idx| && n < |nb|
    ensures Shares(idx[n := next], nb[n := share], n + 1, next + share)
  {
    var idx', nb', n', next' := idx[n := next], nb[n := share], n + 1, next + share;
    forall i | 0 <= i < n'
      ensures Follows(idx', nb', n', next', i)
    {
      if i < n {
        assert Follows(idx, nb, n, next, i);
      }
    }
  }

  lemma SharesAreContiguous(idx: seq<nat>, nb: seq<nat>, n: nat, total: nat)
    requires Shares(idx, nb, n, total)
    ensures Contiguous(idx[..n], nb[..n], total)
  {
    forall i | 0 <= i < n ensures Follows(idx[..n], nb[..n], n, total, i) {
      assert Follows(idx, nb, n, total, i);
    }
  }

  /** n shares of size k. */
  ghost function Times(n: nat, k: nat): nat { n * k }

  lemma StillBelow(i: nat, n: nat, share: nat)
    requires i < n
    ensures Times(0, share) == 0 && Times(i, share) + share == Times(i + 1, share) <= Times(n, share)
  {
    assert i * share + share == (i + 1) * share;
    RowsOrdered(i + 1, n, share);
  }

  lemma NoTimes(share: nat)
    ensures Times(0, share) == 0
  {
  }

  // ---------------------------------------------------------------- ports

  /** `fwd_topology_tx_port_get`. */
  function TxPort(topology: Topology, n: nat, rxp: nat): (txp: nat)
    requires rxp < n
    ensures txp < n
  {
    match topology
    case Paired =>
      if rxp % 2 == 0 then if rxp + 1 < n then rxp + 1 else rxp
      else rxp - 1
    case Chained => (rxp + 1) % n
    case Loop => rxp
  }

  /** The receive port whose traffic goes out on port txp. */
  function RxPort(topology: Topology, n: nat, txp: nat): (rxp: nat)
    requires txp < n
    ensures rxp < n
  {
    match topology
    case Paired => TxPort(Paired, n, txp)
    case Chained => if txp == 0 then n - 1 else txp - 1
    case Loop => txp
  }

  /** Each topology is a permutation of the ports. */
  lemma TopologyIsPermutation(topology: Topology, n: nat, p: nat)
    requires p < n
    ensures TxPort(topology, n, RxPort(topology, n, p)) == p
    ensures RxPort(topology, n, TxPort(topology, n, p)) == p
  {
    match topology
    case Paired => PairedIsSwap(n, p);
    case Chained => ChainedIsRotation(n, p);
    case Loop =>
  }

  /** Paired ports answer each other; only the last of an odd number is its own partner. */
  lemma PairedIsSwap(n: nat, p: nat)
    requires p < n
    ensures TxPort(Paired, n, TxPort(Paired, n, p)) == p
    ensures TxPort(Paired, n, p) / 2 == p / 2
    ensures TxPort(Paired, n, p) == p <==> p % 2 == 0 && p + 1 == n
  {
    if p % 2 == 0 {
      assert (p + 1) % 2 == 1;
    } else {
      assert (p - 1) % 2 == 0;
    }
  }

  /** Chained ports form one ring. */
  lemma ChainedIsRotation(n: nat, p: nat)
    requires p < n
    ensures TxPort(Chained, n, p) == if p + 1 == n then 0 else p + 1
    ensures TxPort(Chained, n, RxPort(Chained, n, p)) == p
    ensures RxPort(Chained, n, TxPort(Chained, n, p)) == p
  {
    NextModulo(p, n);
    NextModulo(if p == 0 then n - 1 else p - 1, n);
  }

  lemma NextModulo(p: nat, n: nat)
    requires p < n
    ensures (p + 1) % n == if p + 1 == n then 0 else p + 1
  {
  }

  function RssStream(ids: seq<nat>, topology: Topology, k: nat): FwdStream
    requires |ids| > 0
  {
    FwdStream(ids[k % |ids|], k / |ids|, ids[TxPort(topology, |ids|, k % |ids|)], k / |ids|)
  }

  /** All streams of the RSS set-up over nbQ queues a port. */
  ghost function RssStreams(ids: seq<nat>, topology: Topology, nbQ: nat): seq<FwdStream>
    requires |ids| > 0
  {
    seq(nbQ * |ids|, k requires 0 <= k => RssStream(ids, topology, k))
  }

  /** All streams of the echo set-up. */
  ghost function IcmpStreams(ids: seq<nat>, nbRxq: nat): seq<FwdStream>
    requires nbRxq > 0
  {
    seq(nbRxq * |ids|, k requires 0 <= k => IcmpStream(ids, nbRxq, k))
  }

  function Min(a: nat, b: nat): nat { if a > b then b else a }

  function IcmpStream(ids: seq<nat>, nbRxq: nat, k: nat): FwdStream
    requires nbRxq > 0
  {
    if k / nbRxq < |ids| then FwdStream(ids[k / nbRxq], k % nbRxq, ids[k / nbRxq], k % nbRxq) else FwdStream(0, 0, 0, 0)
  }

  /** Stream k of a configuration: the queue is its number among the streams of its port. */
  ghost function PortStream(streamsPort: seq<nat>, k: nat): FwdStream
    requires k < |streamsPort|
  {
    var p, q := streamsPort[k], Ordinal(streamsPort, k);
    FwdStream(p, q, p, q)
  }

  lemma RssStreamIs(ids: seq<nat>, topology: Topology, k: nat, q: nat, p: nat)
    requires p < |ids| && k == q * |ids| + p
    ensures RssStream(ids, topology, k) == FwdStream(ids[p], q, ids[TxPort(topology, |ids|, p)], q)
  {
    DivModUnique(k, |ids|, q, p);
  }

  lemma IcmpStreamIs(ids: seq<nat>, nbRxq: nat, k: nat, p: nat, q: nat)
    requires q < nbRxq && p < |ids| && k == p * nbRxq + q
    ensures IcmpStream(ids, nbRxq, k) == FwdStream(ids[p], q, ids[p], q)
  {
    DivModUnique(k, nbRxq, p, q);
  }

  /** Queue by queue, port by port: what comes in on a queue goes out on the same queue of the
      port's partner. Paired, an even place is answered by the next and an odd one by the one
      before, the last of an odd number by itself; chained, by the next one round. */
  lemma RssPartners(ids: seq<nat>, topology: Topology, nbQ: nat, p: nat, q: nat)
    requires p < |ids| && q < nbQ
    ensures q * |ids| + p < nbQ * |ids|
    ensures RssStreams(ids, topology, nbQ)[q * |ids| + p] == FwdStream(ids[p], q, ids[
      if topology == Loop || (topology == Paired && p % 2 == 0 && p + 1 == |ids|) then p
      else if topology == Paired && p % 2 == 1 then p - 1
      else if p + 1 == |ids| then 0 else p + 1], q)
  {
    NextRow(q, |ids|);
    RowsOrdered(q + 1, nbQ, |ids|);
    RssStreamIs(ids, topology, q * |ids| + p, q, p);
    ChainedIsRotation(|ids|, p);
  }

  /** Port by port, queue by queue: an echo stream answers on the queue it receives from. */
  lemma EchoesGoBack(ids: seq<nat>, nbRxq: nat, p: nat, q: nat)
    requires p < |ids| && q < nbRxq
    ensures p * nbRxq + q < nbRxq * |ids|
    ensures IcmpStreams(ids, nbRxq)[p * nbRxq + q] == FwdStream(ids[p], q, ids[p], q)
  {
    NextRow(p, nbRxq);
    RowsOrdered(p + 1, |ids|, nbRxq);
    IcmpStreamIs(ids, nbRxq, p * nbRxq + q, p, q);
  }

  lemma NextRow(q: nat, n: nat)
    ensures q * n + n == (q + 1) * n
  {
  }

  lemma RowWithin(p: nat, w: nat, q: nat, n: nat)
    requires q < w && p * w + q < w * n
    ensures p < n
  {
    if p >= n {
      assert p * w == n * w + (p - n) * w;
      MultipleNonNegative(p - n, w);
    }
  }

  lemma MultipleNonNegative(a: nat, b: nat)
    ensures a * b >= 0
  {
  }

  lemma FirstCore(idx: seq<nat>, nb: seq<nat>, total: nat)
    requires Contiguous(idx, nb, total) && |idx| > 0
    ensures idx[0] == 0
  {
  }

  lemma NextCore(idx: seq<nat>, nb: seq<nat>, total: nat, i: nat)
    requires Contiguous(idx, nb, total) && i < |idx|
    ensures idx[i] + nb[i] == if i + 1 < |idx| then idx[i + 1] else total
  {
    assert Follows(idx, nb, |idx|, total, i);
  }

  // ---------------------------------------------------------------- exclusive queues

  ghost predicate Receives(s: FwdStream, port: nat, queue: nat) {
    s.rxPort == port && s.rxQueue == queue
  }

  ghost predicate Transmits(s: FwdStream, port: nat, queue: nat) {
    s.txPort == port && s.txQueue == queue
  }

  ghost predicate DistinctPorts(ids: seq<nat>) {
    forall i, j :: 0 <= i < j < |ids| ==> ids[i] != ids[j]
  }

  /** The one stream that receives from, and the one that sends to, queue q of port p. */
  lemma RssStreamOfQueue(ids: seq<nat>, topology: Topology, nbQ: nat, p: nat, q: nat)
    requires |ids| > 0 && DistinctPorts(ids) && p < |ids| && q < nbQ
    ensures var rx, tx := q * |ids| + p, q * |ids| + RxPort(topology, |ids|, p);
      && rx < nbQ * |ids| && tx < nbQ * |ids|
      && (forall k: nat :: Receives(RssStream(ids, topology, k), ids[p], q) <==> k == rx)
      && (forall k: nat :: Transmits(RssStream(ids, topology, k), ids[p], q) <==> k == tx)
  {
    hide TxPort, RxPort, RssStream, Receives, Transmits;
    NextRow(q, |ids|);
    RowsOrdered(q + 1, nbQ, |ids|);
    forall k: nat
      ensures Receives(RssStream(ids, topology, k), ids[p], q) <==> k == q * |ids| + p
      ensures Transmits(RssStream(ids, topology, k), ids[p], q) <==> k == q * |ids| + RxPort(topology, |ids|, p)
    {
      RssQueuesOf(ids, topology, p, q, k);
    }
  }

  ghost predicate OnlyReceiver(ss: seq<FwdStream>, port: nat, q: nat, k: nat) {
    forall j :: 0 <= j < |ss| ==> (Receives(ss[j], port, q) <==> j == k)
  }

  ghost predicate OnlySender(ss: seq<FwdStream>, port: nat, q: nat, k: nat) {
    forall j :: 0 <= j < |ss| ==> (Transmits(ss[j], port, q) <==> j == k)
  }

  /** Exactly one stream receives from the queue. */
  ghost predicate ReceivedOnce(ss: seq<FwdStream>, port: nat, q: nat) {
    exists k :: 0 <= k < |ss| && OnlyReceiver(ss, port, q, k)
  }

  /** Exactly one stream sends to the queue. */
  ghost predicate SentOnce(ss: seq<FwdStream>, port: nat, q: nat) {
    exists k :: 0 <= k < |ss| && OnlySender(ss, port, q, k)
  }

  /** Every receive queue is received from by exactly one stream, every transmit queue sent to
      by exactly one. */
  ghost predicate EveryQueueOnce(ids: seq<nat>, ss: seq<FwdStream>, nbRxq: nat, nbTxq: nat) {
    && (forall p, q: nat :: 0 <= p < |ids| && q < nbRxq ==> ReceivedOnce(ss, ids[p], q))
    && (forall p, q: nat :: 0 <= p < |ids| && q < nbTxq ==> SentOnce(ss, ids[p], q))
  }

  /** No stream uses a queue its port does not have. */
  ghost predicate QueuesExist(ss: seq<FwdStream>, nbRxq: nat, nbTxq: nat) {
    forall k :: 0 <= k < |ss| ==> ss[k].rxQueue < nbRxq && ss[k].txQueue < nbTxq
  }

  lemma UnusedQueue(ss: seq<FwdStream>, port: nat, q: nat)
    requires forall k :: 0 <= k < |ss| ==> !Receives(ss[k], port, q) && !Transmits(ss[k], port, q)
    ensures !ReceivedOnce(ss, port, q) && !SentOnce(ss, port, q)
  {
    forall k | 0 <= k < |ss| ensures !OnlyReceiver(ss, port, q, k) && !OnlySender(ss, port, q, k) {
      assert !Receives(ss[k], port, q) && !Transmits(ss[k], port, q);
    }
  }

  /** In every topology a queue is received from, and sent to, by exactly one stream if it is
      below the smaller number of queues, and otherwise left alone. */
  lemma RssUsesEachQueueOnce(ids: seq<nat>, topology: Topology, nbRxq: nat, nbTxq: nat, p: nat, q: nat)
    requires |ids| > 0 && DistinctPorts(ids) && p < |ids|
    ensures ReceivedOnce(RssStreams(ids, topology, Min(nbRxq, nbTxq)), ids[p], q) <==> q < Min(nbRxq, nbTxq)
    ensures SentOnce(RssStreams(ids, topology, Min(nbRxq, nbTxq)), ids[p], q) <==> q < Min(nbRxq, nbTxq)
  {
    hide RssStream, Receives, Transmits, TxPort, RxPort;
    var nbQ := Min(nbRxq, nbTxq);
    var ss := RssStreams(ids, topology, nbQ);
    RssStreamOfQueue(ids, topology, q + 1, p, q);
    var rx, tx := q * |ids| + p, q * |ids| + RxPort(topology, |ids|, p);
    if q < nbQ {
      RssStreamOfQueue(ids, topology, nbQ, p, q);
      assert OnlyReceiver(ss, ids[p], q, rx) && OnlySender(ss, ids[p], q, tx);
    } else {
      RowsOrdered(nbQ, q, |ids|);
      UnusedQueue(ss, ids[p], q);
    }
  }

  /** So no stream uses a queue that does not exist, and every receive and transmit queue is in
      use exactly when there are as many of the one as of the other. */
  lemma RssUsesEveryQueueExactly(ids: seq<nat>, topology: Topology, nbRxq: nat, nbTxq: nat)
    requires |ids| > 0 && DistinctPorts(ids)
    ensures QueuesExist(RssStreams(ids, topology, Min(nbRxq, nbTxq)), nbRxq, nbTxq)
    ensures EveryQueueOnce(ids, RssStreams(ids, topology, Min(nbRxq, nbTxq)), nbRxq, nbTxq) <==> nbRxq == nbTxq
  {
    hide RssStream, ReceivedOnce, SentOnce;
    var nbQ := Min(nbRxq, nbTxq);
    var ss := RssStreams(ids, topology, nbQ);
    forall k | 0 <= k < |ss| ensures ss[k].rxQueue < nbRxq && ss[k].txQueue < nbTxq {
      RssQueueNumber(ids, topology, nbQ, k);
    }
    forall p, q: nat | 0 <= p < |ids|
      ensures (ReceivedOnce(ss, ids[p], q) <==> q < nbQ) && (SentOnce(ss, ids[p], q) <==> q < nbQ)
    {
      RssUsesEachQueueOnce(ids, topology, nbRxq, nbTxq, p, q);
    }
    assert nbRxq > nbQ ==> !ReceivedOnce(ss, ids[0], nbQ);
    assert nbTxq > nbQ ==> !SentOnce(ss, ids[0], nbQ);
  }

  /** One port, two receive queues, one transmit queue: the second receive queue is never polled. */
  lemma RssLeavesQueueOut(port: nat, topology: Topology)
    ensures !ReceivedOnce(RssStreams([port], topology, Min(2, 1)), port, 1)
    ensures !EveryQueueOnce([port], RssStreams([port], topology, Min(2, 1)), 2, 1)
  {
    hide RssStream, ReceivedOnce, SentOnce;
    RssUsesEachQueueOnce([port], topology, 2, 1, 0, 1);
    assert [port][0] == port;
  }

  lemma RssQueueNumber(ids: seq<nat>, topology: Topology, nbQ: nat, k: nat)
    requires |ids| > 0 && k < nbQ * |ids|
    ensures RssStream(ids, topology, k).rxQueue == RssStream(ids, topology, k).txQueue < nbQ
  {
    hide TxPort;
    DivModOf(k, |ids|);
    RowWithin(k / |ids|, |ids|, k % |ids|, nbQ);
  }

  lemma RssQueuesOf(ids: seq<nat>, topology: Topology, p: nat, q: nat, k: nat)
    requires |ids| > 0 && DistinctPorts(ids) && p < |ids|
    ensures Receives(RssStream(ids, topology, k), ids[p], q) <==> k == q * |ids| + p
    ensures Transmits(RssStream(ids, topology, k), ids[p], q) <==> k == q * |ids| + RxPort(topology, |ids|, p)
  {
    hide TxPort, RxPort;
    var n := |ids|;
    var p', q' := k % n, k / n;
    DivModOf(k, n);
    RssStreamIs(ids, topology, k, q', p');
    PositionsDiffer(n, q, p, q', p');
    PositionsDiffer(n, q, RxPort(topology, n, p), q', p');
    TopologyIsPermutation(topology, n, p);
    TopologyIsPermutation(topology, n, p');
  }

  lemma DivModOf(k: nat, n: nat)
    requires n > 0
    ensures k == k / n * n + k % n
  {
  }

  lemma PositionsDiffer(n: nat, q: nat, p: nat, q': nat, p': nat)
    requires p < n && p' < n
    ensures q * n + p == q' * n + p' <==> q == q' && p == p'
  {
    DivModUnique(q * n + p, n, q, p);
    DivModUnique(q' * n + p', n, q', p');
  }

  lemma RowsOrdered(a: nat, b: nat, n: nat)
    requires a <= b
    ensures a * n <= b * n
  {
    assert b * n == a * n + (b - a) * n;
    MultipleNonNegative(b - a, n);
  }

  /** Streams of different cores never share a receive queue or a transmit queue. */
  lemma CoresShareNoQueue(ids: seq<nat>, topology: Topology, idx: seq<nat>, nb: seq<nat>, total: nat,
                          c: nat, d: nat, a: nat, b: nat)
    requires |ids| > 0 && DistinctPorts(ids) && Contiguous(idx, nb, total)
    requires OnCore(idx, nb, c, a) && OnCore(idx, nb, d, b) && c != d
    ensures var s, t := RssStream(ids, topology, a), RssStream(ids, topology, b);
      !Receives(s, t.rxPort, t.rxQueue) && !Transmits(s, t.txPort, t.txQueue)
  {
    hide TxPort, RxPort, Contiguous;
    EveryStreamOnOneCore(idx, nb, total, a);
    var n := |ids|;
    var p, q := b % n, b / n;
    RssStreamOfQueue(ids, topology, q + 1, p, q);
    RssStreamOfQueue(ids, topology, q + 1, TxPort(topology, n, p), q);
    TopologyIsPermutation(topology, n, p);
  }

  lemma IcmpStreamOfQueue(ids: seq<nat>, nbRxq: nat, p: nat, q: nat)
    requires DistinctPorts(ids) && p < |ids| && q < nbRxq
    ensures var one := p * nbRxq + q;
      && one < nbRxq * |ids|
      && forall k: nat :: k < nbRxq * |ids| ==>
        && (Receives(IcmpStream(ids, nbRxq, k), ids[p], q) <==> k == one)
        && (Transmits(IcmpStream(ids, nbRxq, k), ids[p], q) <==> k == one)
  {
    hide IcmpStream, Receives, Transmits;
    NextRow(p, nbRxq);
    RowsOrdered(p + 1, |ids|, nbRxq);
    forall k: nat | k < nbRxq * |ids|
      ensures Receives(IcmpStream(ids, nbRxq, k), ids[p], q) <==> k == p * nbRxq + q
      ensures Transmits(IcmpStream(ids, nbRxq, k), ids[p], q) <==> k == p * nbRxq + q
    {
      IcmpQueuesOf(ids, nbRxq, p, q, k);
    }
  }

  lemma IcmpQueuesOf(ids: seq<nat>, nbRxq: nat, p: nat, q: nat, k: nat)
    requires DistinctPorts(ids) && p < |ids| && q < nbRxq && k < nbRxq * |ids|
    ensures Receives(IcmpStream(ids, nbRxq, k), ids[p], q) <==> k == p * nbRxq + q
    ensures Transmits(IcmpStream(ids, nbRxq, k), ids[p], q) <==> k == p * nbRxq + q
  {
    hide IcmpStream;
    var p', q' := k / nbRxq, k % nbRxq;
    DivModOf(k, nbRxq);
    RowWithin(p', nbRxq, q', |ids|);
    IcmpStreamIs(ids, nbRxq, k, p', q');
    PositionsDiffer(nbRxq, p, q, p', q');
  }

  /** The echo set-up gives every receive queue to exactly one stream, and sends to the transmit
      queues of the same numbers, whether they exist or not. */
  lemma IcmpUsesEachQueueOnce(ids: seq<nat>, nbRxq: nat, p: nat, q: nat)
    requires DistinctPorts(ids) && p < |ids| && nbRxq > 0
    ensures ReceivedOnce(IcmpStreams(ids, nbRxq), ids[p], q) <==> q < nbRxq
    ensures SentOnce(IcmpStreams(ids, nbRxq), ids[p], q) <==> q < nbRxq
  {
    hide IcmpStream;
    var ss := IcmpStreams(ids, nbRxq);
    if q < nbRxq {
      var one := p * nbRxq + q;
      IcmpStreamOfQueue(ids, nbRxq, p, q);
      assert OnlyReceiver(ss, ids[p], q, one) && OnlySender(ss, ids[p], q, one);
    } else {
      forall k | 0 <= k < |ss| ensures ss[k].rxQueue < nbRxq && ss[k].txQueue < nbRxq {
        IcmpQueueNumber(ids, nbRxq, k);
      }
      UnusedQueue(ss, ids[p], q);
    }
  }

  /** Echo streams of different cores never share a receive queue or a transmit queue. */
  lemma IcmpCoresShareNoQueue(ids: seq<nat>, nbRxq: nat, idx: seq<nat>, nb: seq<nat>, c: nat, d: nat, a: nat, b: nat)
    requires DistinctPorts(ids) && nbRxq > 0 && Contiguous(idx, nb, nbRxq * |ids|)
    requires OnCore(idx, nb, c, a) && OnCore(idx, nb, d, b) && c != d
    ensures var s, t := IcmpStream(ids, nbRxq, a), IcmpStream(ids, nbRxq, b);
      !Receives(s, t.rxPort, t.rxQueue) && !Transmits(s, t.txPort, t.txQueue)
  {
    hide Contiguous, OnCore, IcmpStream, Receives, Transmits;
    EveryStreamOnOneCore(idx, nb, nbRxq * |ids|, a);
    EveryStreamOnOneCore(idx, nb, nbRxq * |ids|, b);
    var p, q := b / nbRxq, b % nbRxq;
    DivModOf(b, nbRxq);
    RowWithin(p, nbRxq, q, |ids|);
    IcmpStreamIs(ids, nbRxq, b, p, q);
    IcmpStreamOfQueue(ids, nbRxq, p, q);
  }

  lemma IcmpQueueNumber(ids: seq<nat>, nbRxq: nat, k: nat)
    requires nbRxq > 0 && k < nbRxq * |ids|
    ensures IcmpStream(ids, nbRxq, k).rxQueue == IcmpStream(ids, nbRxq, k).txQueue == k % nbRxq
  {
    DivModOf(k, nbRxq);
    RowWithin(k / nbRxq, nbRxq, k % nbRxq, |ids|);
  }

  /** The echo streams use only queues that exist exactly when there are no more receive than
      transmit queues; every transmit queue is in use exactly when there are no more transmit
      than receive queues; so both hold exactly when there are as many of the one as of the
      other. */
  lemma IcmpUsesEveryQueueExactly(ids: seq<nat>, nbRxq: nat, nbTxq: nat)
    requires |ids| > 0 && DistinctPorts(ids) && nbRxq > 0
    ensures QueuesExist(IcmpStreams(ids, nbRxq), nbRxq, nbTxq) <==> nbRxq <= nbTxq
    ensures EveryQueueOnce(ids, IcmpStreams(ids, nbRxq), nbRxq, nbTxq) <==> nbTxq <= nbRxq
    ensures (QueuesExist(IcmpStreams(ids, nbRxq), nbRxq, nbTxq) &&
             EveryQueueOnce(ids, IcmpStreams(ids, nbRxq), nbRxq, nbTxq)) <==> nbRxq == nbTxq
  {
    hide IcmpStream, ReceivedOnce, SentOnce;
    var ss := IcmpStreams(ids, nbRxq);
    RowsOrdered(1, |ids|, nbRxq);
    forall k | 0 <= k < |ss| ensures ss[k].rxQueue == ss[k].txQueue == k % nbRxq {
      IcmpQueueNumber(ids, nbRxq, k);
    }
    assert ss[nbRxq - 1].txQueue == (nbRxq - 1) % nbRxq == nbRxq - 1;
    forall p, q: nat | 0 <= p < |ids|
      ensures (ReceivedOnce(ss, ids[p], q) <==> q < nbRxq) && (SentOnce(ss, ids[p], q) <==> q < nbRxq)
    {
      IcmpUsesEachQueueOnce(ids, nbRxq, p, q);
    }
    assert nbTxq > nbRxq ==> !SentOnce(ss, ids[0], nbRxq);
  }

  /** One port, two receive queues, one transmit queue: the second echo stream sends to a queue
      that does not exist. */
  lemma EchoStreamWithoutQueue(port: nat)
    ensures IcmpStreams([port], 2)[1] == FwdStream(port, 1, port, 1)
    ensures !QueuesExist(IcmpStreams([port], 2), 2, 1)
  {
    assert IcmpStreams([port], 2)[1] == IcmpStream([port], 2, 1);
  }

  ghost function PortStreams(streamsPort: seq<nat>): seq<FwdStream> {
    seq(|streamsPort|, k requires 0 <= k < |streamsPort| => PortStream(streamsPort, k))
  }

  /** A configured stream stays on its port, on the queue numbered by the streams of that port
      before it; so a port with n streams has its queues 0 to n - 1 used by exactly one stream
      each and no other. */
  lemma PortUsesFirstQueues(streamsPort: seq<nat>, p: nat, q: nat)
    ensures forall k :: 0 <= k < |streamsPort| ==>
      var (port, queue) := (streamsPort[k], multiset(streamsPort[..k])[streamsPort[k]]);
      PortStreams(streamsPort)[k] == FwdStream(port, queue, port, queue)
    ensures ReceivedOnce(PortStreams(streamsPort), p, q) <==> q < multiset(streamsPort)[p]
    ensures SentOnce(PortStreams(streamsPort), p, q) <==> q < multiset(streamsPort)[p]
  {
    hide Count, ReceivedOnce, SentOnce, OnlyReceiver, OnlySender;
    var ss := PortStreams(streamsPort);
    forall k | 0 <= k < |ss| ensures ss[k].rxQueue == multiset(streamsPort[..k])[streamsPort[k]] {
      CountIsMultiplicity(streamsPort[..k], streamsPort[k]);
    }
    if q < multiset(streamsPort)[p] {
      var one := EveryOrdinalReached(streamsPort, p, q);
      PortQueueOnce(streamsPort, one);
    } else {
      PortQueueUnused(streamsPort, p, q);
    }
  }

  /** Stream one is the only one on its queue. */
  lemma PortQueueOnce(streamsPort: seq<nat>, one: nat)
    requires one < |streamsPort|
    ensures var s := PortStream(streamsPort, one);
      && ReceivedOnce(PortStreams(streamsPort), s.rxPort, s.rxQueue)
      && SentOnce(PortStreams(streamsPort), s.txPort, s.txQueue)
  {
    hide Ordinal;
    var ss, s := PortStreams(streamsPort), PortStream(streamsPort, one);
    forall j | 0 <= j < |ss|
      ensures Receives(ss[j], s.rxPort, s.rxQueue) <==> j == one
      ensures Transmits(ss[j], s.txPort, s.txQueue) <==> j == one
    {
      if j < one {
        StreamsShareNoQueue(streamsPort, j, one);
      } else if one < j {
        StreamsShareNoQueue(streamsPort, one, j);
      }
    }
    assert OnlyReceiver(ss, s.rxPort, s.rxQueue, one) && OnlySender(ss, s.txPort, s.txQueue, one);
  }

  lemma PortQueueUnused(streamsPort: seq<nat>, p: nat, q: nat)
    requires q >= multiset(streamsPort)[p]
    ensures !ReceivedOnce(PortStreams(streamsPort), p, q) && !SentOnce(PortStreams(streamsPort), p, q)
  {
    hide Count, ReceivedOnce, SentOnce;
    var ss := PortStreams(streamsPort);
    CountIsMultiplicity(streamsPort, p);
    assert streamsPort[..|streamsPort|] == streamsPort;
    forall k | 0 <= k < |ss| ensures !Receives(ss[k], p, q) && !Transmits(ss[k], p, q) {
      CountMonotone(streamsPort, k, |streamsPort|, streamsPort[k]);
    }
    UnusedQueue(ss, p, q);
  }

  /** Configured streams never share a queue. */
  lemma StreamsShareNoQueue(streamsPort: seq<nat>, i: nat, j: nat)
    requires i < j < |streamsPort|
    ensures var s, t := PortStream(streamsPort, i), PortStream(streamsPort, j);
      !Receives(s, t.rxPort, t.rxQueue) && !Transmits(s, t.txPort, t.txQueue)
  {
    hide Ordinal;
    if streamsPort[i] == streamsPort[j] {
      OrdinalsIncrease(streamsPort, i, j);
    }
  }
}
