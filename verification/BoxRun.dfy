/** The two pipelines, pass by pass, against the protocol: what the boxes compute over a whole
    run is what the run of the protocol says. */
module BoxRun {
  import opened Bytes
  import opened MacTag
  import opened LinkSpec
  import opened MbufPool
  import opened LinkProtocol
  import opened IngressPipeline
  import opened EgressPipeline

  function Frames(ps: seq<Packet>): (fs: seq<Frame>)
    ensures |fs| == |ps|
  {
    seq(|ps|, i requires 0 <= i < |ps| => ps[i].frame)
  }

  /** The frames that reached the server side, in order. */
  function Handed(ds: seq<Delivery>): seq<Frame> {
    if ds == [] then []
    else
      var n := |ds| - 1;
      if ds[n].handed then Handed(ds[..n]) + [ds[n].frame] else Handed(ds[..n])
  }

  lemma TookPackets(sent: seq<Frame>, received: seq<Frame>, st: seq<Stamp>, n: nat)
    requires TookPrefix(sent, received, st, n)
    ensures forall i :: 0 <= i < n ==> st[..n][i].origin < |received|
    ensures sent == Frames(Packets(received, st[..n]))
  {
    hide WithTag;
  }

  /** What each link took in an ingress pass is what the protocol puts on its wire. */
  lemma WireGrows(macs: seq<nat>, sys: System, e: Event, sent: seq<seq<Frame>>)
    requires |sys.sender| == |sys.receiver| == |macs| && e.Ingress? && Enabled(sys, e) && |sent| == |e.links|
    requires var st := Stamps(macs, sys.sender, e.rx, |sys.received|);
      forall l :: 0 <= l < |sent| ==> TookPrefix(sent[l], sys.received + e.rx, st, Sent(e.links[l], |st|))
    ensures forall l :: 0 <= l < |sent| ==> Frames(Step(macs, sys, e).wire[l]) == Frames(sys.wire[l]) + sent[l]
  {
    hide WithTag, Stamps, Sent, TookPrefix, Apply, MaxSent;
    var st := Stamps(macs, sys.sender, e.rx, |sys.received|);
    forall l | 0 <= l < |sent| ensures Frames(Step(macs, sys, e).wire[l]) == Frames(sys.wire[l]) + sent[l] {
      TookPackets(sent[l], sys.received + e.rx, st, Sent(e.links[l], |st|));
    }
  }

  method IngressPass(box: Ingress, pool: Pool<Frame>, ghost sys: System, e: Event) returns (sent: seq<seq<Frame>>)
    requires box.Valid() && pool.Valid() && box.counters[..] == sys.sender && |sys.receiver| == |box.macs|
    requires e.Ingress? && Enabled(sys, e)
    modifies pool, box.counters, box.tmpCounters, box.recorder
    ensures pool.Valid() && pool.live == old(pool.live)
    ensures box.counters[..] == Step(box.macs, sys, e).sender && |sent| == |sys.wire|
    ensures forall l :: 0 <= l < |sent| ==> Frames(Step(box.macs, sys, e).wire[l]) == Frames(sys.wire[l]) + sent[l]
  {
    hide TookPrefix, Stamps, Apply, MaxSent, Sent, Packets;
    sent := box.Pipeline(pool, e.rx, e.links, sys.received);
    WireGrows(box.macs, sys, e, sent);
  }

  lemma {:induction false} HandedOfPrefix(a: seq<Delivery>, b: seq<Delivery>, accepts: nat, fs: seq<Frame>)
    requires |fs| == (if accepts < |b| then accepts else |b|)
    requires forall i :: 0 <= i < |b| ==> (b[i].handed <==> i < accepts)
    requires forall i :: 0 <= i < |fs| ==> fs[i] == b[i].frame
    ensures Handed(a + b) == Handed(a) + fs
  {
    if b == [] {
      assert a + b == a;
    } else {
      var n := |b| - 1;
      assert (a + b)[..|a + b| - 1] == a + b[..n];
      if n < accepts {
        HandedOfPrefix(a, b[..n], accepts, fs[..n]);
        assert fs == fs[..n] + [fs[n]];
      } else {
        HandedOfPrefix(a, b[..n], accepts, fs);
      }
    }
  }

  method EgressPass(box: Egress, pool: Pool<Frame>, ghost sys: System, e: Event) returns (handed: seq<Frame>)
    requires box.Valid() && pool.Valid() && box.counters[..] == sys.receiver && |sys.sender| == |box.macs|
    requires e.Egress? && Enabled(sys, e)
    modifies pool, box.counters
    ensures pool.Valid() && pool.live == old(pool.live)
    ensures box.counters[..] == Step(box.macs, sys, e).receiver
    ensures Handed(Step(box.macs, sys, e).delivered) == Handed(sys.delivered) + handed
  {
    hide EgressCounters, Admitted, Restored, ServerIndex, ServerCounter, Handed;
    handed := box.Pipeline(pool, e.arrivals, e.accepts);
    ghost var ps := Admitted(sys.receiver, e.arrivals);
    HandedOfPrefix(sys.delivered, Delivered(box.macs, ps, e.accepts), e.accepts, handed);
  }

  /** What each link has taken so far, and what it took in one pass. */
  method Append(taken: seq<seq<Frame>>, sent: seq<seq<Frame>>) returns (all: seq<seq<Frame>>)
    requires |sent| == |taken|
    ensures |all| == |taken| && forall l :: 0 <= l < |taken| ==> all[l] == taken[l] + sent[l]
  {
    all := seq(|taken|, l requires 0 <= l < |taken| => taken[l] + sent[l]);
  }

  /** Both boxes through a whole run, from freshly set up state, the buffers of both in one pool:
      the counters end as the protocol's, each link has taken what the protocol put on its wire,
      the frames handed to the server side are those the protocol delivers, and no buffer is
      left over. */
  method Play(sender: Ingress, receiver: Egress, pool: Pool<Frame>, ports: nat, events: seq<Event>)
    returns (taken: seq<seq<Frame>>, handed: seq<Frame>)
    requires sender.Valid() && receiver.Valid() && pool.Valid() && sender.macs == receiver.macs
    requires sender.counters != receiver.counters && sender.tmpCounters != receiver.counters
    requires sender.counters[..] == receiver.counters[..] == FreshCounters(|sender.macs|)
    requires forall i :: 0 <= i < |events| ==> Enabled(Run(sender.macs, ports, events[..i]), events[i])
    modifies pool, sender.counters, sender.tmpCounters, sender.recorder, receiver.counters
    ensures pool.Valid() && pool.live == old(pool.live)
    ensures sender.counters[..] == Run(sender.macs, ports, events).sender
    ensures receiver.counters[..] == Run(sender.macs, ports, events).receiver
    ensures |taken| == ports && forall l :: 0 <= l < ports ==>
      taken[l] == Frames(Run(sender.macs, ports, events).wire[l])
    ensures handed == Handed(Run(sender.macs, ports, events).delivered)
  {
    hide Run, Enabled, Step, Handed, Frames;
    taken, handed := seq(ports, _ => []), [];
    ghost var macs := sender.macs;
    RunStarts(macs, ports, events);
    for i := 0 to |events|
      invariant pool.Valid() && pool.live == old(pool.live)
      invariant sender.counters[..] == Run(macs, ports, events[..i]).sender
      invariant receiver.counters[..] == Run(macs, ports, events[..i]).receiver
      invariant |taken| == ports
      invariant forall l :: 0 <= l < ports ==> taken[l] == Frames(Run(macs, ports, events[..i]).wire[l])
      invariant handed == Handed(Run(macs, ports, events[..i]).delivered)
    {
      ghost var sys := Run(macs, ports, events[..i]);
      var e := events[i];
      RunGoesOn(macs, ports, events, i);
      if e.Ingress? {
        var sent := IngressPass(sender, pool, sys, e);
        IngressLeavesReceiver(macs, sys, e);
        taken := Append(taken, sent);
      } else {
        var more := EgressPass(receiver, pool, sys, e);
        EgressLeavesSender(macs, sys, e);
        handed := handed + more;
      }
    }
    assert events[..|events|] == events;
  }

  lemma RunStarts(macs: seq<nat>, ports: nat, events: seq<Event>)
    ensures var sys := Run(macs, ports, events[..0]);
      && sys.sender == sys.receiver == FreshCounters(|macs|) && Handed(sys.delivered) == []
      && forall l :: 0 <= l < ports ==> Frames(sys.wire[l]) == []
  {
  }

  lemma RunGoesOn(macs: seq<nat>, ports: nat, events: seq<Event>, i: nat)
    requires i < |events| && Enabled(Run(macs, ports, events[..i]), events[i])
    ensures events[i].Ingress? ==> |events[i].links| == |Run(macs, ports, events[..i]).wire|
    ensures Run(macs, ports, events[..i + 1]) == Step(macs, Run(macs, ports, events[..i]), events[i])
  {
    hide Step;
    assert events[..i + 1][..i] == events[..i];
  }
}
