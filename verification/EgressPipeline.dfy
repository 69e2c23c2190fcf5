/** `egress_pipeline` over its counter array and packet buffers. */
module EgressPipeline {
  import opened Bytes
  import opened MacTag
  import opened LinkSpec
  import opened MbufPool

  class Egress {
    const macs: seq<nat>
    const counters: array<nat>

    ghost predicate Valid() {
      counters.Length == |macs|
    }

    constructor (macs: seq<nat>)
      ensures Valid() && this.macs == macs && fresh(counters)
      ensures forall s :: 0 <= s < |macs| ==> counters[s] == 0
    {
      this.macs := macs;
      counters := new nat[|macs|](_ => 0);
    }

    /** The filter loop: free what is not newer than its server's counter, restore the
        address of the rest. */
    method Filter(pool: Pool<Frame>, originals: seq<Mbuf>, ghost arrivals: seq<Packet>) returns (filtered: seq<Mbuf>)
      requires Valid() && pool.Valid() && |originals| == |arrivals| && Distinct(originals)
      requires forall i :: 0 <= i < |arrivals| ==>
        originals[i] in pool.live && pool.live[originals[i]] == arrivals[i].frame
      modifies pool, counters
      ensures pool.Valid() && pool.next == old(pool.next)
      ensures counters[..] == EgressCounters(old(counters[..]), arrivals)
      ensures Shows(pool.live, macs, Admitted(old(counters[..]), arrivals), filtered)
      ensures Kept(old(pool.live), pool.live, originals, filtered)
    {
      hide ServerCounter, ServerIndex, Shows, Kept, Restored, WithSource;
      filtered := [];
      ghost var c, before := counters[..], pool.live;
      NothingSeen(before, macs);
      for i := 0 to |originals|
        invariant pool.Valid() && pool.next == old(pool.next)
        invariant counters[..] == EgressCounters(c, arrivals[..i])
        invariant Shows(pool.live, macs, Admitted(c, arrivals[..i]), filtered)
        invariant Kept(before, pool.live, originals[..i], filtered)
      {
        var pkt := originals[i];
        NextKept(before, pool.live, originals, filtered, i);
        assert originals[..i + 1] == originals[..i] + [pkt] && arrivals[..i + 1][..i] == arrivals[..i];
        ghost var live, ps, p := pool.live, Admitted(c, arrivals[..i]), arrivals[i];
        var serverCounter := ServerCounter(pool.live[pkt]);
        var serverIndex := ServerIndex(pool.live[pkt]);
        if serverIndex >= |macs| || counters[serverIndex] >= serverCounter {
          assert !Admits(EgressCounters(c, arrivals[..i]), p.frame);
          pool.Free(pkt);
          FreeKeeps(before, live, originals[..i], macs, ps, filtered, pkt);
        } else {
          assert Admits(EgressCounters(c, arrivals[..i]), p.frame);
          counters[serverIndex] := serverCounter;
          pool.Write(pkt, WithSource(pool.live[pkt], macs[serverIndex]));
          RestoredIs(macs, p);
          RestoreKeeps(before, live, originals[..i], macs, ps, filtered, pkt, p);
          filtered := filtered + [pkt];
        }
      }
      assert arrivals[..|arrivals|] == arrivals && originals[..|originals|] == originals;
    }

    /** `egress_pipeline`: the counters become those of the whole burst, and the server-side
        port gets a prefix of the frames let through, with their own addresses. Every buffer
        received is freed or handed over, once. */
    method Pipeline(pool: Pool<Frame>, arrivals: seq<Packet>, accepts: nat) returns (handed: seq<Frame>)
      requires Valid() && pool.Valid() && |arrivals| <= MAX_PKT_BURST
      modifies pool, counters
      ensures pool.Valid() && pool.live == old(pool.live)
      ensures counters[..] == EgressCounters(old(counters[..]), arrivals)
      ensures var ps := Admitted(old(counters[..]), arrivals);
        && |handed| == (if accepts < |ps| then accepts else |ps|)
        && forall i :: 0 <= i < |handed| ==> handed[i] == Restored(macs, ps[i]).frame
    {
      hide EgressCounters, Admitted, Shows, Kept, Restored;
      ghost var c, before := counters[..], pool.live;
      ghost var ps := Admitted(c, arrivals);
      var originals := pool.Receive(seq(|arrivals|, i requires 0 <= i < |arrivals| => arrivals[i].frame));
      ghost var live := pool.live;
      var filtered := Filter(pool, originals, arrivals);
      HeldAndShown(before, live, pool.live, originals, macs, ps, filtered);
      ghost var restored := pool.live;
      var nbTx := if accepts < |filtered| then accepts else |filtered|;
      handed := pool.Transmit(filtered, nbTx);
      forall i | nbTx <= i < |filtered| ensures filtered[i] in pool.live {
        assert filtered[i] !in filtered[..nbTx];
      }
      ghost var left := pool.live;
      pool.FreeAll(filtered[nbTx..]);
      AllGone(before, restored, left, pool.live, filtered, nbTx);
    }
  }

  /** The buffers kept show the packets let through, restored. */
  ghost predicate Shows(live: map<Mbuf, Frame>, macs: seq<nat>, ps: seq<Packet>, filtered: seq<Mbuf>) {
    && |filtered| == |ps|
    && forall j :: 0 <= j < |ps| ==>
      ServerIndex(ps[j].frame) < |macs| && filtered[j] in live && live[filtered[j]] == Restored(macs, ps[j]).frame
  }

  lemma NothingSeen(live: map<Mbuf, Frame>, macs: seq<nat>)
    ensures Shows(live, macs, [], []) && Kept(live, live, [], [])
  {
  }

  lemma FreeKeeps(before: map<Mbuf, Frame>, live: map<Mbuf, Frame>, seen: seq<Mbuf>,
                  macs: seq<nat>, ps: seq<Packet>, filtered: seq<Mbuf>, pkt: Mbuf)
    requires Shows(live, macs, ps, filtered) && Kept(before, live, seen, filtered)
    requires pkt in live && pkt !in seen && pkt !in filtered
    ensures Shows(live - {pkt}, macs, ps, filtered) && Kept(before, live - {pkt}, seen + [pkt], filtered)
  {
    hide Restored, ServerIndex;
  }

  lemma RestoreKeeps(before: map<Mbuf, Frame>, live: map<Mbuf, Frame>, seen: seq<Mbuf>,
                     macs: seq<nat>, ps: seq<Packet>, filtered: seq<Mbuf>, pkt: Mbuf, p: Packet)
    requires Shows(live, macs, ps, filtered) && Kept(before, live, seen, filtered)
    requires pkt in live && pkt !in seen && pkt !in filtered && ServerIndex(p.frame) < |macs|
    ensures var live' := live[pkt := Restored(macs, p).frame];
      Shows(live', macs, ps + [p], filtered + [pkt]) && Kept(before, live', seen + [pkt], filtered + [pkt])
  {
    hide Restored, ServerIndex;
  }

  lemma RestoredIs(macs: seq<nat>, p: Packet)
    requires ServerIndex(p.frame) < |macs|
    ensures Restored(macs, p).frame == WithSource(p.frame, macs[ServerIndex(p.frame)])
  {
    hide WithSource;
  }

  lemma HeldAndShown(before: map<Mbuf, Frame>, live: map<Mbuf, Frame>, restored: map<Mbuf, Frame>,
                     originals: seq<Mbuf>, macs: seq<nat>, ps: seq<Packet>, filtered: seq<Mbuf>)
    requires Kept(live, restored, originals, filtered) && Shows(restored, macs, ps, filtered)
    requires forall m :: m in live <==> m in before || m in originals
    requires forall m :: m in before ==> m !in originals && live[m] == before[m]
    ensures OnlyHeld(before, restored, filtered) && Distinct(filtered) && |filtered| == |ps|
    ensures forall j :: 0 <= j < |ps| ==>
      && ServerIndex(ps[j].frame) < |macs| && filtered[j] in restored
      && restored[filtered[j]] == Restored(macs, ps[j]).frame
  {
    hide Restored, ServerIndex;
    OnlyFilteredHeld(before, live, restored, originals, filtered);
  }
}
