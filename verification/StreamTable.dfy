/** The open-addressing table of received streams and its per-stream statistics. */
module StreamTable {
  import opened Options

  const MAX_STREAMS: nat := 64
  const UINT32: nat := 0x1_0000_0000

  /** Slot tried at probe di: 32-bit addition wraps, then modulo the table size. */
  function Probe(hash: nat, di: nat): (p: nat)
    ensures p < MAX_STREAMS
  {
    (hash + di) % UINT32 % MAX_STREAMS
  }

  /** An occupied slot: the stream's hash and what was received of it. */
  datatype Stream = Stream(hash: nat, maxSq: nat, rxPkts: nat, pktSize: nat)

  type Table = t: seq<Option<Stream>> | |t| == MAX_STREAMS witness seq(MAX_STREAMS, _ => None)

  function Cleared(): Table { seq(MAX_STREAMS, _ => None) }

  /** The wrap of the 32-bit sum does not disturb the probe order: it starts from hash mod 64
      and goes on slot by slot. */
  lemma ProbeOrder(hash: nat, di: nat)
    requires hash < UINT32 && di < MAX_STREAMS
    ensures Probe(hash, di) == (hash % MAX_STREAMS + di) % MAX_STREAMS
  {
    var q := hash / MAX_STREAMS;
    SumModulo(q, hash % MAX_STREAMS + di);
    SumModulo(q - UINT32 / MAX_STREAMS, hash % MAX_STREAMS + di);
  }

  lemma SumModulo(q: int, x: nat)
    ensures (MAX_STREAMS * q + x) % MAX_STREAMS == x % MAX_STREAMS
  {
  }

  lemma ProbesDistinct(hash: nat, d: nat, d': nat)
    requires hash < UINT32 && d < MAX_STREAMS && d' < MAX_STREAMS && Probe(hash, d) == Probe(hash, d')
    ensures d == d'
  {
    hide Probe;
    ProbeOrder(hash, d);
    ProbeOrder(hash, d');
  }

  /** The 64 probes of a hash visit every slot exactly once. */
  lemma EverySlotProbedOnce(hash: nat, p: nat) returns (d: nat)
    requires hash < UINT32 && p < MAX_STREAMS
    ensures d < MAX_STREAMS && forall e :: 0 <= e < MAX_STREAMS ==> (Probe(hash, e) == p <==> e == d)
  {
    hide Probe;
    d := (p + MAX_STREAMS - hash % MAX_STREAMS) % MAX_STREAMS;
    ProbeOrder(hash, d);
    forall e | 0 <= e < MAX_STREAMS && Probe(hash, e) == p ensures e == d {
      ProbesDistinct(hash, e, d);
    }
  }

  // ---------------------------------------------------------------- insertion

  /** Does the probe at this slot stop: free, or already this stream's? */
  predicate Stops(t: Table, hash: nat, p: nat)
    requires p < MAX_STREAMS
  {
    t[p] == None || t[p].value.hash == hash
  }

  /** The first probe from di on that stops, or the table size. */
  function FirstStop(t: Table, hash: nat, di: nat): (d: nat)
    requires di <= MAX_STREAMS
    ensures di <= d <= MAX_STREAMS
    ensures forall e :: di <= e < d ==> !Stops(t, hash, Probe(hash, e))
    ensures d < MAX_STREAMS ==> Stops(t, hash, Probe(hash, d))
    decreases MAX_STREAMS - di
  {
    if di == MAX_STREAMS || Stops(t, hash, Probe(hash, di)) then di else FirstStop(t, hash, di + 1)
  }

  /** The table after `insert_hash_table`. */
  function Inserted(t: Table, hash: nat): Table {
    var d := FirstStop(t, hash, 0);
    if d < MAX_STREAMS && t[Probe(hash, d)] == None
    then t[Probe(hash, d) := Some(Stream(hash, 0, 0, 0))]
    else t
  }

  /** Every stream sits on its probe path behind slots of other streams only. */
  ghost predicate Reachable(t: Table, p: nat)
    requires p < MAX_STREAMS && t[p].Some?
  {
    var h := t[p].value.hash;
    h < UINT32 && exists d :: 0 <= d < MAX_STREAMS && BehindOthers(t, h, d) && Probe(h, d) == p
  }

  ghost predicate BehindOthers(t: Table, hash: nat, d: nat) {
    forall e :: 0 <= e < d ==> t[Probe(hash, e)].Some? && t[Probe(hash, e)].value.hash != hash
  }

  ghost predicate Consistent(t: Table) {
    forall p :: 0 <= p < MAX_STREAMS && t[p].Some? ==> Reachable(t, p)
  }

  predicate Present(t: Table, hash: nat) {
    exists p :: 0 <= p < MAX_STREAMS && t[p].Some? && t[p].value.hash == hash
  }

  predicate Full(t: Table) {
    forall p :: 0 <= p < MAX_STREAMS ==> t[p].Some?
  }

  /** In a consistent table each hash occupies at most one slot. */
  lemma OneSlotPerHash(t: Table, p: nat, q: nat)
    requires Consistent(t) && p < MAX_STREAMS && q < MAX_STREAMS
    requires t[p].Some? && t[q].Some? && t[p].value.hash == t[q].value.hash
    ensures p == q
  {
    hide Probe;
    var h := t[p].value.hash;
    assert Reachable(t, p) && Reachable(t, q);
    var d :| 0 <= d < MAX_STREAMS && BehindOthers(t, h, d) && Probe(h, d) == p;
    var e :| 0 <= e < MAX_STREAMS && BehindOthers(t, h, e) && Probe(h, e) == q;
  }

  /** Insertion keeps the table consistent. */
  lemma InsertKeepsConsistent(t: Table, hash: nat)
    requires Consistent(t) && hash < UINT32
    ensures Consistent(Inserted(t, hash))
  {
    hide Probe;
    var t' := Inserted(t, hash);
    var d := FirstStop(t, hash, 0);
    if t' != t {
      forall p | 0 <= p < MAX_STREAMS && t'[p].Some?
        ensures Reachable(t', p)
      {
        if p == Probe(hash, d) {
          forall e | 0 <= e < d ensures t'[Probe(hash, e)].Some? && t'[Probe(hash, e)].value.hash != hash {
            assert !Stops(t, hash, Probe(hash, e));
          }
          assert BehindOthers(t', hash, d);
        } else {
          var h := t[p].value.hash;
          assert Reachable(t, p);
          var k :| 0 <= k < MAX_STREAMS && BehindOthers(t, h, k) && Probe(h, k) == p;
          assert BehindOthers(t', h, k);
        }
      }
    }
  }

  /** Insertion never moves, removes or alters a stream. */
  lemma InsertKeepsSlots(t: Table, hash: nat, p: nat)
    requires p < MAX_STREAMS && t[p].Some?
    ensures Inserted(t, hash)[p] == t[p]
  {
  }

  /** No slot is found exactly when all are taken and the hash has none. */
  lemma InsertFailsExactly(t: Table, hash: nat)
    requires Consistent(t) && hash < UINT32
    ensures FirstStop(t, hash, 0) == MAX_STREAMS <==> Full(t) && !Present(t, hash)
  {
    hide Probe;
    var d := FirstStop(t, hash, 0);
    if d == MAX_STREAMS {
      forall p | 0 <= p < MAX_STREAMS ensures t[p].Some? && t[p].value.hash != hash {
        var e := EverySlotProbedOnce(hash, p);
        assert !Stops(t, hash, Probe(hash, e));
      }
    } else {
      var p := Probe(hash, d);
      assert Stops(t, hash, p);
      assert t[p].Some? ==> Present(t, hash);
    }
  }

  /** Afterwards the hash sits where the search stopped. */
  lemma InsertFinds(t: Table, hash: nat)
    requires FirstStop(t, hash, 0) < MAX_STREAMS
    ensures var p := Probe(hash, FirstStop(t, hash, 0));
      Inserted(t, hash)[p].Some? && Inserted(t, hash)[p].value.hash == hash
  {
  }

  /** A full table: stream p in slot p. */
  function FullTable(): Table {
    seq(MAX_STREAMS, p requires 0 <= p => Some(Stream(p, 0, 0, 0)))
  }

  /** In the full table a new hash finds no slot, while those that have one find it. */
  lemma FullTableRefuses(hash: nat)
    requires hash < UINT32
    ensures Consistent(FullTable()) && Full(FullTable())
    ensures FirstStop(FullTable(), hash, 0) == MAX_STREAMS <==> hash >= MAX_STREAMS
  {
    hide FirstStop;
    var t := FullTable();
    forall p | 0 <= p < MAX_STREAMS ensures Reachable(t, p) {
      assert Probe(p, 0) == p && BehindOthers(t, p, 0);
    }
    InsertFailsExactly(t, hash);
    assert hash < MAX_STREAMS ==> t[hash].Some? && t[hash].value.hash == hash;
  }

  lemma SearchStep(t: Table, hash: nat, di: nat)
    requires di < MAX_STREAMS && FirstStop(t, hash, 0) == FirstStop(t, hash, di)
    ensures var p := Probe(hash, di);
      && (Stops(t, hash, p) ==> FirstStop(t, hash, 0) == di)
      && (!Stops(t, hash, p) ==> FirstStop(t, hash, 0) == FirstStop(t, hash, di + 1))
      && (t[p] == None ==> Inserted(t, hash) == t[p := Some(Stream(hash, 0, 0, 0))])
      && (t[p].Some? && t[p].value.hash == hash ==> Inserted(t, hash) == t)
  {
    hide Probe;
  }

  lemma SearchFailed(t: Table, hash: nat)
    requires FirstStop(t, hash, 0) == FirstStop(t, hash, MAX_STREAMS)
    ensures FirstStop(t, hash, 0) == MAX_STREAMS && Inserted(t, hash) == t
  {
    hide Probe;
  }

  // ---------------------------------------------------------------- the engine

  class Aggregator {
    const used: array<bool>
    const hashValue: array<nat>
    const maxSq: array<nat>
    const rxPkts: array<nat>
    const pktSize: array<nat>

    ghost predicate Valid() {
      && used.Length == hashValue.Length == maxSq.Length == rxPkts.Length == pktSize.Length == MAX_STREAMS
      && hashValue != maxSq && hashValue != rxPkts && hashValue != pktSize
      && maxSq != rxPkts && maxSq != pktSize && rxPkts != pktSize
    }

    ghost function Contents(): Table
      requires Valid()
      reads used, hashValue, maxSq, rxPkts, pktSize
    {
      seq(MAX_STREAMS, p requires 0 <= p < MAX_STREAMS reads used, hashValue, maxSq, rxPkts, pktSize requires Valid() =>
        if used[p] then Some(Stream(hashValue[p], maxSq[p], rxPkts[p], pktSize[p])) else None)
    }

    /** `aggregation_begin`: the table is cleared. */
    constructor ()
      ensures Valid() && Contents() == Cleared()
      ensures fresh(used) && fresh(hashValue) && fresh(maxSq) && fresh(rxPkts) && fresh(pktSize)
      ensures UnusedAreZero()
    {
      used := new bool[MAX_STREAMS](_ => false);
      hashValue := new nat[MAX_STREAMS](_ => 0);
      maxSq := new nat[MAX_STREAMS](_ => 0);
      rxPkts := new nat[MAX_STREAMS](_ => 0);
      pktSize := new nat[MAX_STREAMS](_ => 0);
    }

    /** Unused slots still hold the zeros of the clearing. */
    ghost predicate UnusedAreZero()
      requires Valid()
      reads used, maxSq, rxPkts, pktSize
    {
      forall p :: 0 <= p < MAX_STREAMS && !used[p] ==> maxSq[p] == 0 && rxPkts[p] == 0 && pktSize[p] == 0
    }

    /** `insert_hash_table`, as one atomic step. */
    method InsertHashTable(hash: nat) returns (pos: int)
      requires Valid() && UnusedAreZero()
      modifies used, hashValue
      ensures UnusedAreZero() && Contents() == Inserted(old(Contents()), hash)
      ensures var d := FirstStop(old(Contents()), hash, 0);
        pos == if d < MAX_STREAMS then Probe(hash, d) else -1
    {
      hide Probe, FirstStop, Inserted;
      ghost var t := Contents();
      pos := 0;
      for di := 0 to MAX_STREAMS
        invariant UnusedAreZero() && Contents() == t && FirstStop(t, hash, 0) == FirstStop(t, hash, di)
        invariant di > 0 ==> pos == -1
      {
        pos := Probe(hash, di);
        SearchStep(t, hash, di);
        if !used[pos] {
          used[pos] := true;
          hashValue[pos] := hash;
          assert Contents() == t[pos := Some(Stream(hash, 0, 0, 0))];
          return;
        } else if hashValue[pos] == hash {
          return;
        } else {
          pos := -1;
        }
      }
      SearchFailed(t, hash);
    }

    /** The marker branch of the receive loop. The result says whether the packet is freed: it is
        not exactly when the table is full and its stream has no slot. */
    method ReceiveMarker(hash: nat, sq: nat, size: nat) returns (freed: bool)
      requires Valid() && UnusedAreZero()
      modifies used, hashValue, maxSq, rxPkts, pktSize
      ensures UnusedAreZero() && Contents() == Received(old(Contents()), Marker(hash, sq, size))
      ensures freed <==> FirstStop(old(Contents()), hash, 0) < MAX_STREAMS
      ensures Consistent(old(Contents())) && hash < UINT32 ==>
        (!freed <==> Full(old(Contents())) && !Present(old(Contents()), hash))
    {
      hide Probe, FirstStop, Consistent, Full, Present;
      ghost var t := Contents();
      if Consistent(t) && hash < UINT32 {
        InsertFailsExactly(t, hash);
      }
      var pos := InsertHashTable(hash);
      if pos == -1 {
        return false;
      }
      InsertFinds(t, hash);
      ghost var t' := Contents();
      maxSq[pos] := if maxSq[pos] > sq then maxSq[pos] else sq;
      rxPkts[pos] := rxPkts[pos] + 1;
      pktSize[pos] := size;
      assert Contents() == t'[pos := Some(Updated(t'[pos].value, Marker(hash, sq, size)))];
      freed := true;
    }
  }

  /** A marked packet: hash of its addresses and ports, sequence number, size. */
  datatype Marker = Marker(hash: nat, sq: nat, size: nat)

  function Updated(s: Stream, m: Marker): Stream {
    Stream(s.hash, if s.maxSq > m.sq then s.maxSq else m.sq, s.rxPkts + 1, m.size)
  }

  function Received(t: Table, m: Marker): Table {
    var d, t' := FirstStop(t, m.hash, 0), Inserted(t, m.hash);
    if d < MAX_STREAMS && t'[Probe(m.hash, d)].Some?
    then t'[Probe(m.hash, d) := Some(Updated(t'[Probe(m.hash, d)].value, m))]
    else t
  }
}
