/** Numbered streams over a lossy, reordering network: what the receiver's two counters
    say about the packets that never arrived. */
module LossAccounting {
  import opened Counting
  import opened Options
  import opened StreamTable

  // ---------------------------------------------------------------- receiver runs

  ghost predicate Hashed(log: seq<Marker>) {
    forall i :: 0 <= i < |log| ==> log[i].hash < UINT32
  }

  /** The table after the engine has received the markers of the log. */
  ghost function Run(log: seq<Marker>): Table {
    if log == [] then Cleared() else Received(Run(log[..|log| - 1]), log[|log| - 1])
  }

  /** The sequence numbers received for a hash, in order of arrival. */
  ghost function Sqs(log: seq<Marker>, hash: nat): seq<nat> {
    if log == [] then []
    else
      var n := |log| - 1;
      var earlier := Sqs(log[..n], hash);
      if log[n].hash == hash then earlier + [log[n].sq] else earlier
  }

  ghost function Max(a: seq<nat>): (m: nat)
    ensures forall i :: 0 <= i < |a| ==> a[i] <= m
    ensures a != [] ==> m in a
  {
    if a == [] then 0
    else
      var m, x := Max(a[..|a| - 1]), a[|a| - 1];
      if m > x then m else x
  }

  /** What receiving one marker does to the slots. */
  lemma ReceivedSlots(t: Table, m: Marker)
    requires Consistent(t) && m.hash < UINT32
    ensures var t' := Received(t, m);
      && Consistent(t')
      && (forall p :: 0 <= p < MAX_STREAMS && t[p].Some? && t[p].value.hash != m.hash ==> t'[p] == t[p])
      && (forall p :: 0 <= p < MAX_STREAMS && t[p].Some? && t[p].value.hash == m.hash ==>
        t'[p] == Some(Updated(t[p].value, m)))
      && (forall p :: 0 <= p < MAX_STREAMS && t[p] == None && t'[p].Some? ==>
            !Full(t) && !Present(t, m.hash) && t'[p].value == Updated(Stream(m.hash, 0, 0, 0), m))
      && (Present(t', m.hash) || Full(t))
  {
    hide Probe, FirstStop, Reachable, Inserted;
    var d, t1 := FirstStop(t, m.hash, 0), Inserted(t, m.hash);
    InsertKeepsConsistent(t, m.hash);
    InsertFailsExactly(t, m.hash);
    InsertSlots(t, m.hash);
    if d < MAX_STREAMS {
      var q := Probe(m.hash, d);
      var t' := Received(t, m);
      assert t' == t1[q := Some(Updated(t1[q].value, m))] && t'[q].value.hash == m.hash;
      StatsKeepConsistent(t1, t');
      forall p | 0 <= p < MAX_STREAMS && t[p].Some? && t[p].value.hash == m.hash ensures p == q {
        OneSlotPerHash(t1, p, q);
      }
    }
  }

  /** Insertion alters no stream, and its stream sits where the search stopped. */
  lemma InsertSlots(t: Table, hash: nat)
    requires Consistent(t) && hash < UINT32
    ensures var t', d := Inserted(t, hash), FirstStop(t, hash, 0);
      && (forall p :: 0 <= p < MAX_STREAMS && t[p].Some? ==> t'[p] == t[p])
      && (d < MAX_STREAMS ==> t'[Probe(hash, d)].Some? && t'[Probe(hash, d)].value.hash == hash)
      && (forall p :: 0 <= p < MAX_STREAMS && t[p] == None && t'[p].Some? ==>
            p == Probe(hash, d) && !Full(t) && !Present(t, hash) && t'[p].value == Stream(hash, 0, 0, 0))
  {
    hide Probe, Consistent, Present;
    StopOfPresent(t, hash);
    forall p | 0 <= p < MAX_STREAMS && t[p].Some? ensures Inserted(t, hash)[p] == t[p] {
      InsertKeepsSlots(t, hash, p);
    }
  }

  /** The search for a stream that has a slot stops at that slot. */
  lemma PresentIsFound(t: Table, hash: nat, p: nat)
    requires Consistent(t) && p < MAX_STREAMS && t[p].Some? && t[p].value.hash == hash
    ensures FirstStop(t, hash, 0) < MAX_STREAMS && Probe(hash, FirstStop(t, hash, 0)) == p
  {
    hide Probe, FirstStop;
    assert Reachable(t, p);
    var k :| 0 <= k < MAX_STREAMS && BehindOthers(t, hash, k) && Probe(hash, k) == p;
    assert Stops(t, hash, Probe(hash, k));
    assert forall e :: 0 <= e < k ==> !Stops(t, hash, Probe(hash, e));
  }

  lemma StopOfPresent(t: Table, hash: nat)
    requires Consistent(t)
    ensures Present(t, hash) ==> FirstStop(t, hash, 0) < MAX_STREAMS && t[Probe(hash, FirstStop(t, hash, 0))].Some?
  {
    hide Probe, FirstStop, Consistent;
    if p :| 0 <= p < MAX_STREAMS && t[p].Some? && t[p].value.hash == hash {
      PresentIsFound(t, hash, p);
    }
  }

  /** Consistency speaks of hashes only. */
  lemma StatsKeepConsistent(t: Table, t': Table)
    requires Consistent(t)
    requires forall p :: 0 <= p < MAX_STREAMS ==> (t[p].Some? <==> t'[p].Some?)
    requires forall p :: 0 <= p < MAX_STREAMS && t[p].Some? ==> t'[p].value.hash == t[p].value.hash
    ensures Consistent(t')
  {
    hide Probe;
    forall p | 0 <= p < MAX_STREAMS && t'[p].Some? ensures Reachable(t', p) {
      assert Reachable(t, p);
      var h := t[p].value.hash;
      var k :| 0 <= k < MAX_STREAMS && BehindOthers(t, h, k) && Probe(h, k) == p;
      assert BehindOthers(t', h, k);
    }
  }

  /** Entry i of the log is the last marker of its stream. */
  ghost predicate IsLast(log: seq<Marker>, i: nat) {
    i < |log| && forall j :: i < j < |log| ==> log[j].hash != log[i].hash
  }

  /** Each occupied slot counts every packet of its stream, keeps the largest sequence number and
      the size of the last packet; a stream without a slot has found the table full. */
  ghost predicate Accounted(t: Table, log: seq<Marker>) {
    && (forall p :: 0 <= p < MAX_STREAMS && t[p].Some? ==>
          var a := Sqs(log, t[p].value.hash);
          |a| > 0 && t[p].value.rxPkts == |a| && t[p].value.maxSq == Max(a))
    && (forall p, i: nat :: 0 <= p < MAX_STREAMS && t[p].Some? && IsLast(log, i) && log[i].hash == t[p].value.hash ==>
          t[p].value.pktSize == log[i].size)
    && (forall i :: 0 <= i < |log| ==> Present(t, log[i].hash) || Full(t))
  }

  lemma {:induction false} EmptySqs(log: seq<Marker>, hash: nat)
    requires forall i :: 0 <= i < |log| ==> log[i].hash != hash
    ensures Sqs(log, hash) == []
  {
    if log != [] {
      EmptySqs(log[..|log| - 1], hash);
    }
  }

  lemma AccountedStep(t: Table, log: seq<Marker>, m: Marker)
    requires Consistent(t) && Accounted(t, log) && m.hash < UINT32
    ensures Accounted(Received(t, m), log + [m])
  {
    hide Received, Sqs, Max;
    var t', log' := Received(t, m), log + [m];
    ReceivedSlots(t, m);
    forall p | 0 <= p < MAX_STREAMS && t'[p].Some?
      ensures var a := Sqs(log', t'[p].value.hash);
        |a| > 0 && t'[p].value.rxPkts == |a| && t'[p].value.maxSq == Max(a)
    {
      SqsOfOneMore(log, m, t'[p].value.hash);
      if t[p] == None {
        assert forall i :: 0 <= i < |log| ==> log[i].hash != m.hash;
        EmptySqs(log, m.hash);
      }
    }
    forall p, i: nat | 0 <= p < MAX_STREAMS && t'[p].Some? && IsLast(log', i) && log'[i].hash == t'[p].value.hash
      ensures t'[p].value.pktSize == log'[i].size
    {
      if i < |log| {
        assert log'[|log|] == m && log'[i] == log[i];
        assert forall j :: i < j < |log| ==> log'[j] == log[j];
        assert IsLast(log, i);
      }
    }
    forall i | 0 <= i < |log'| ensures Present(t', log'[i].hash) || Full(t') {
      if i < |log| && Present(t, log[i].hash) {
        var p :| 0 <= p < MAX_STREAMS && t[p].Some? && t[p].value.hash == log[i].hash;
        assert t'[p].Some? && t'[p].value.hash == log[i].hash;
      }
    }
  }

  lemma SqsOfOneMore(log: seq<Marker>, m: Marker, hash: nat)
    ensures var a, b := Sqs(log, hash), Sqs(log + [m], hash);
      && (m.hash != hash ==> b == a)
      && (m.hash == hash ==> |b| == |a| + 1 && Max(b) == if a != [] && Max(a) > m.sq then Max(a) else m.sq)
  {
    assert (log + [m])[..|log|] == log;
    var a := Sqs(log, hash);
    assert (a + [m.sq])[..|a|] == a;
  }

  lemma {:induction false} RunInvariant(log: seq<Marker>)
    requires Hashed(log)
    ensures Consistent(Run(log)) && Accounted(Run(log), log)
  {
    hide Received, Consistent, Accounted;
    if log == [] {
      InitiallyAccounted();
    } else {
      var n := |log| - 1;
      RunInvariant(log[..n]);
      ReceivedSlots(Run(log[..n]), log[n]);
      AccountedStep(Run(log[..n]), log[..n], log[n]);
      assert log[..n] + [log[n]] == log;
    }
  }

  lemma InitiallyAccounted()
    ensures Consistent(Cleared()) && Accounted(Cleared(), [])
  {
  }

  /** Once a stream has a slot it keeps that slot for the rest of the run, and it has no other. */
  lemma {:induction false} SlotsAreStable(log: seq<Marker>, more: seq<Marker>, p: nat)
    requires Hashed(log + more) && p < MAX_STREAMS && Run(log)[p].Some?
    ensures Run(log + more)[p].Some? && Run(log + more)[p].value.hash == Run(log)[p].value.hash
    ensures forall q :: 0 <= q < MAX_STREAMS && Run(log + more)[q].Some? ==>
      Run(log + more)[q].value.hash == Run(log)[p].value.hash ==> q == p
  {
    hide Received, Consistent, Accounted;
    if more == [] {
      assert log + more == log;
    } else {
      var n := |more| - 1;
      assert (log + more)[..|log + more| - 1] == log + more[..n];
      SlotsAreStable(log, more[..n], p);
      RunInvariant(log + more[..n]);
      assert (log + more)[|log| + n] == more[n];
      ReceivedSlots(Run(log + more[..n]), more[n]);
    }
    RunInvariant(log + more);
    forall q | 0 <= q < MAX_STREAMS && Run(log + more)[q].Some?
             && Run(log + more)[q].value.hash == Run(log)[p].value.hash
      ensures q == p
    {
      OneSlotPerHash(Run(log + more), p, q);
    }
  }

  // ---------------------------------------------------------------- counting the missing

  ghost predicate NoRepeats(a: seq<nat>) {
    forall i, j :: 0 <= i < j < |a| ==> a[i] != a[j]
  }

  /** The numbers below n. */
  ghost function Below(n: nat): (b: set<nat>)
    ensures |b| == n && forall q: nat :: q in b <==> q < n
  {
    if n == 0 then {} else Below(n - 1) + {n - 1}
  }

  /** Numbers below n that never arrived. */
  ghost function Missing(a: seq<nat>, n: nat): set<nat> {
    set q | q in Below(n) && q !in a
  }

  lemma {:induction false} MissingSize(a: seq<nat>, n: nat)
    requires NoRepeats(a) && forall i :: 0 <= i < |a| ==> a[i] < n
    ensures |Missing(a, n)| == n - |a|
  {
    if a == [] {
      assert Missing(a, n) == Below(n);
    } else {
      var x, b := a[|a| - 1], a[..|a| - 1];
      MissingSize(b, n);
      assert a == b + [x] && x in Missing(b, n);
      assert Missing(a, n) == Missing(b, n) - {x};
    }
  }

  // ---------------------------------------------------------------- the numbered sender

  /** `streams_sequences` and its use in `pkt_burst_prepare`. */
  class ShuntSender {
    const sequences: array<nat>
    ghost var history: seq<nat>

    ghost predicate Valid()
      reads this, sequences
    {
      sequences.Length == MAX_STREAMS
      && forall s :: 0 <= s < MAX_STREAMS ==> sequences[s] == Count(history, s)
    }

    constructor ()
      ensures Valid() && history == [] && fresh(sequences)
    {
      sequences := new nat[MAX_STREAMS](_ => 0);
      history := [];
    }

    /** The stamp of one packet is its number within its stream. */
    method Prepare(stream: nat) returns (sq: nat)
      requires Valid() && stream < MAX_STREAMS
      modifies this, sequences
      ensures Valid() && history == old(history) + [stream]
      ensures sq == Ordinal(history, |old(history)|)
    {
      sq := sequences[stream];
      sequences[stream] := sequences[stream] + 1;
      assert (history + [stream])[..|history|] == history;
      history := history + [stream];
    }
  }

  /** The markers received when the packets named by `arrivals` arrive in that order. */
  ghost function Arrived(history: seq<nat>, arrivals: seq<nat>, hashes: seq<nat>, size: nat -> nat): (log: seq<Marker>)
    requires forall i :: 0 <= i < |arrivals| ==> arrivals[i] < |history| && history[arrivals[i]] < |hashes|
    ensures |log| == |arrivals|
  {
    seq(|arrivals|, i requires 0 <= i < |arrivals| =>
      Marker(hashes[history[arrivals[i]]], Ordinal(history, arrivals[i]), size(i)))
  }

  /** Packet k of the history is number q of stream s. */
  ghost predicate IsNumber(history: seq<nat>, k: nat, s: nat, q: nat) {
    k < |history| && history[k] == s && Ordinal(history, k) == q
  }

  /** Number q of stream s is among the first n arrivals. */
  ghost predicate ArrivedAs(history: seq<nat>, arrivals: seq<nat>, s: nat, n: nat, q: nat) {
    exists i :: 0 <= i < n <= |arrivals| && IsNumber(history, arrivals[i], s, q)
  }

  /** Without duplication and with distinct hashes, no sequence number of a stream arrives twice. */
  lemma {:induction false} ArrivedSqs(history: seq<nat>, arrivals: seq<nat>, hashes: seq<nat>, size: nat -> nat,
                                      s: nat, n: nat)
    requires forall i :: 0 <= i < |arrivals| ==> arrivals[i] < |history| && history[arrivals[i]] < |hashes|
    requires NoRepeats(arrivals) && NoRepeats(hashes) && s < |hashes| && n <= |arrivals|
    ensures var a := Sqs(Arrived(history, arrivals, hashes, size)[..n], hashes[s]);
      NoRepeats(a) && forall q :: q in a ==> ArrivedAs(history, arrivals, s, n, q)
  {
    hide Ordinal, NoRepeats, ArrivedAs, Sqs;
    var log := Arrived(history, arrivals, hashes, size);
    if n == 0 {
      assert log[..0] == [];
      NoSqs(hashes[s]);
    } else {
      ArrivedSqs(history, arrivals, hashes, size, s, n - 1);
      var b, k := Sqs(log[..n - 1], hashes[s]), arrivals[n - 1];
      SqsSnoc(log, n - 1, hashes[s]);
      forall q | q in b ensures ArrivedAs(history, arrivals, s, n, q) {
        ArrivedStays(history, arrivals, s, n - 1, q);
      }
      if log[n - 1].hash == hashes[s] {
        HashNames(hashes, history[k], s);
        NewArrival(history, arrivals, s, n - 1);
        NoRepeatsSnoc(b, Ordinal(history, k));
      }
    }
  }

  lemma NoSqs(hash: nat)
    ensures Sqs([], hash) == [] && NoRepeats([])
  {
  }

  lemma SqsSnoc(log: seq<Marker>, n: nat, hash: nat)
    requires n < |log|
    ensures Sqs(log[..n + 1], hash) == if log[n].hash == hash
      then Sqs(log[..n], hash) + [log[n].sq] else Sqs(log[..n], hash)
  {
    assert log[..n + 1][..n] == log[..n];
  }

  lemma ArrivedStays(history: seq<nat>, arrivals: seq<nat>, s: nat, n: nat, q: nat)
    requires n < |arrivals| && ArrivedAs(history, arrivals, s, n, q)
    ensures ArrivedAs(history, arrivals, s, n + 1, q)
  {
    hide Ordinal;
  }

  /** The number of arrival n is a new one. */
  lemma NewArrival(history: seq<nat>, arrivals: seq<nat>, s: nat, n: nat)
    requires n < |arrivals| && arrivals[n] < |history| && history[arrivals[n]] == s && NoRepeats(arrivals)
    ensures ArrivedAs(history, arrivals, s, n + 1, Ordinal(history, arrivals[n]))
    ensures !ArrivedAs(history, arrivals, s, n, Ordinal(history, arrivals[n]))
  {
    hide Ordinal, NoRepeats;
    assert IsNumber(history, arrivals[n], s, Ordinal(history, arrivals[n]));
    if i :| 0 <= i < n && IsNumber(history, arrivals[i], s, Ordinal(history, arrivals[n])) {
      ArrivalsDiffer(history, arrivals, i, n);
    }
  }

  lemma NoRepeatsSnoc(a: seq<nat>, x: nat)
    requires NoRepeats(a) && x !in a
    ensures NoRepeats(a + [x])
  {
  }

  lemma HashNames(hashes: seq<nat>, i: nat, j: nat)
    requires NoRepeats(hashes) && i < |hashes| && j < |hashes| && hashes[i] == hashes[j]
    ensures i == j
  {
  }

  lemma ArrivalsDiffer(history: seq<nat>, arrivals: seq<nat>, i: nat, j: nat)
    requires NoRepeats(arrivals) && i < j < |arrivals|
    requires arrivals[i] < |history| && arrivals[j] < |history| && history[arrivals[i]] == history[arrivals[j]]
    ensures Ordinal(history, arrivals[i]) != Ordinal(history, arrivals[j])
  {
    hide Ordinal;
    if arrivals[i] < arrivals[j] {
      OrdinalsIncrease(history, arrivals[i], arrivals[j]);
    } else {
      OrdinalsIncrease(history, arrivals[j], arrivals[i]);
    }
  }

  /** For any loss and any reordering without duplication, `max_sq + 1 - rx_pkts` of an
      occupied slot is the number of packets 0 to max_sq of its stream that never arrived;
      all of them had been sent. */
  lemma LossIsCounted(history: seq<nat>, arrivals: seq<nat>, hashes: seq<nat>, size: nat -> nat, s: nat, p: nat)
    requires forall i :: 0 <= i < |arrivals| ==> arrivals[i] < |history| && history[arrivals[i]] < |hashes|
    requires NoRepeats(arrivals) && NoRepeats(hashes) && s < |hashes| && p < MAX_STREAMS
    requires forall i :: 0 <= i < |hashes| ==> hashes[i] < UINT32
    requires var t := Run(Arrived(history, arrivals, hashes, size)); t[p].Some? && t[p].value.hash == hashes[s]
    ensures var log := Arrived(history, arrivals, hashes, size); var slot := Run(log)[p].value;
      && slot.maxSq < Count(history, s)
      && slot.maxSq + 1 - slot.rxPkts == |Missing(Sqs(log, hashes[s]), slot.maxSq + 1)|
  {
    hide *;
    var log := Arrived(history, arrivals, hashes, size);
    ArrivedHashed(history, arrivals, hashes, size);
    RunInvariant(log);
    ArrivedSqs(history, arrivals, hashes, size, s, |log|);
    assert log[..|log|] == log;
    var a := Sqs(log, hashes[s]);
    SlotCounts(Run(log), log, p);
    assert Max(a) in a;
    MissingSize(a, Max(a) + 1);
    SentBelowCount(history, arrivals, s, |log|, Max(a));
  }

  lemma SlotCounts(t: Table, log: seq<Marker>, p: nat)
    requires Accounted(t, log) && p < MAX_STREAMS && t[p].Some?
    ensures var a := Sqs(log, t[p].value.hash); a != [] && t[p].value.rxPkts == |a| && t[p].value.maxSq == Max(a)
  {
  }

  lemma ArrivedHashed(history: seq<nat>, arrivals: seq<nat>, hashes: seq<nat>, size: nat -> nat)
    requires forall i :: 0 <= i < |arrivals| ==> arrivals[i] < |history| && history[arrivals[i]] < |hashes|
    requires forall i :: 0 <= i < |hashes| ==> hashes[i] < UINT32
    ensures Hashed(Arrived(history, arrivals, hashes, size))
  {
    hide Ordinal;
  }

  lemma SentBelowCount(history: seq<nat>, arrivals: seq<nat>, s: nat, n: nat, q: nat)
    requires ArrivedAs(history, arrivals, s, n, q)
    ensures q < Count(history, s)
  {
    hide Count;
    var i :| 0 <= i < n <= |arrivals| && IsNumber(history, arrivals[i], s, q);
    var k := arrivals[i];
    CountMonotone(history, k, |history|, s);
    assert history[..|history|] == history;
  }
}
