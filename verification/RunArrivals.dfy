/** The receiving box over a whole run: everything that arrived, by whatever link and in whatever
    bursts, seen as one merged sequence. */
module RunArrivals {
  import opened LinkProtocol
  import opened LinkSpec
  import opened MacTag
  import opened MergedArrivals

  /** The packets that arrived in the run, in order. */
  ghost function Arrivals(macs: seq<nat>, ports: nat, events: seq<Event>): seq<Packet> {
    if events == [] then []
    else
      var n := |events| - 1;
      var earlier, e := Arrivals(macs, ports, events[..n]), events[n];
      if e.Egress? && Enabled(Run(macs, ports, events[..n]), e) then earlier + e.arrivals else earlier
  }

  /** The link each of them came by. */
  ghost function Via(macs: seq<nat>, ports: nat, events: seq<Event>): (via: seq<nat>)
    ensures |via| == |Arrivals(macs, ports, events)| && forall i :: 0 <= i < |via| ==> via[i] < ports
  {
    if events == [] then []
    else
      var n := |events| - 1;
      var earlier, e := Via(macs, ports, events[..n]), events[n];
      if e.Egress? && Enabled(Run(macs, ports, events[..n]), e)
        then earlier + seq(|e.arrivals|, _ => e.port) else earlier
  }

  /** Deliveries, whether or not the server-side port took them. */
  ghost function LetThrough(ds: seq<Delivery>): (all: seq<Delivery>)
    ensures |all| == |ds|
  {
    seq(|ds|, i requires 0 <= i < |ds| => ds[i].(handed := true))
  }

  lemma DeliveredConcat(macs: seq<nat>, a: seq<Packet>, b: seq<Packet>)
    requires forall i :: 0 <= i < |a| ==> ServerIndex(a[i].frame) < |macs|
    requires forall i :: 0 <= i < |b| ==> ServerIndex(b[i].frame) < |macs|
    ensures Delivered(macs, a + b, |a + b|) == Delivered(macs, a, |a|) + Delivered(macs, b, |b|)
  {
    hide ServerIndex, ServerCounter, Restored;
  }

  lemma LetThroughConcat(macs: seq<nat>, a: seq<Delivery>, ps: seq<Packet>, accepts: nat)
    requires forall i :: 0 <= i < |ps| ==> ServerIndex(ps[i].frame) < |macs|
    ensures LetThrough(a + Delivered(macs, ps, accepts)) == LetThrough(a) + Delivered(macs, ps, |ps|)
  {
    hide ServerIndex, ServerCounter, Restored;
  }

  lemma NothingArrived(macs: seq<nat>, ports: nat)
    ensures Arrivals(macs, ports, []) == [] && Run(macs, ports, []).receiver == FreshCounters(|macs|)
    ensures LetThrough(Run(macs, ports, []).delivered) == []
  {
  }

  /** In every run the counters and the deliveries are those of one pass over all arrivals. */
  lemma {:induction false} RunIsOnePass(macs: seq<nat>, ports: nat, events: seq<Event>)
    ensures Run(macs, ports, events).receiver == EgressCounters(FreshCounters(|macs|), Arrivals(macs, ports, events))
    ensures var ps := Admitted(FreshCounters(|macs|), Arrivals(macs, ports, events));
      LetThrough(Run(macs, ports, events).delivered) == Delivered(macs, ps, |ps|)
  {
    hide Enabled, EgressCounters, Admitted, Delivered, LetThrough, Step;
    var zeros := FreshCounters(|macs|);
    if events == [] {
      NothingArrived(macs, ports);
      NoArrival(zeros);
      NothingDelivered(macs);
    } else {
      var n := |events| - 1;
      var sys, e, rx := Run(macs, ports, events[..n]), events[n], Arrivals(macs, ports, events[..n]);
      RunIsOnePass(macs, ports, events[..n]);
      if Enabled(sys, e) {
        if e.Ingress? {
          EnabledCoversLinks(sys, e);
          IngressLeavesReceiver(macs, sys, e);
        } else {
          var ps, more := Admitted(zeros, rx), Admitted(sys.receiver, e.arrivals);
          BurstsDoNotMatter(zeros, rx, e.arrivals);
          EgressDelivers(macs, sys, e);
          LetThroughConcat(macs, sys.delivered, more, e.accepts);
          DeliveredConcat(macs, ps, more);
        }
      }
    }
  }

  lemma NothingDelivered(macs: seq<nat>)
    ensures Delivered(macs, [], 0) == []
  {
  }

  lemma EnabledCoversLinks(sys: System, e: Event)
    requires e.Ingress? && Enabled(sys, e)
    ensures |e.links| == |sys.wire|
  {
  }

  lemma EgressDelivers(macs: seq<nat>, sys: System, e: Event)
    requires |sys.sender| == |sys.receiver| == |macs| && e.Egress?
    ensures Step(macs, sys, e).receiver == EgressCounters(sys.receiver, e.arrivals)
    ensures Step(macs, sys, e).delivered ==
      sys.delivered + Delivered(macs, Admitted(sys.receiver, e.arrivals), e.accepts)
  {
  }

  /** In every run the deliveries are exactly the strict running maxima of all that arrived. */
  lemma RunDeliversRecords(macs: seq<nat>, ports: nat, events: seq<Event>)
    ensures var ps := Records(FreshCounters(|macs|), Arrivals(macs, ports, events));
      && (forall i :: 0 <= i < |ps| ==> ServerIndex(ps[i].frame) < |macs|)
      && LetThrough(Run(macs, ports, events).delivered) == Delivered(macs, ps, |ps|)
  {
    hide *;
    RunIsOnePass(macs, ports, events);
    AdmittedAreRecords(FreshCounters(|macs|), Arrivals(macs, ports, events));
    FreshCountersLength(|macs|);
  }

  lemma FreshCountersLength(n: nat)
    ensures |FreshCounters(n)| == n && forall s :: 0 <= s < n ==> FreshCounters(n)[s] == 0
  {
  }

  /** The counters delivered for server s, in order. */
  ghost function Numbers(ds: seq<Delivery>, s: nat): seq<nat> {
    if ds == [] then []
    else
      var n := |ds| - 1;
      if ds[n].server == s then Numbers(ds[..n], s) + [ds[n].counter] else Numbers(ds[..n], s)
  }

  lemma {:induction false} NumbersAreCounters(macs: seq<nat>, ds: seq<Delivery>, ps: seq<Packet>, s: nat)
    requires forall i :: 0 <= i < |ps| ==> ServerIndex(ps[i].frame) < |macs|
    requires LetThrough(ds) == Delivered(macs, ps, |ps|)
    ensures Numbers(ds, s) == Counters(ps, s)
  {
    hide ServerIndex, ServerCounter, Restored;
    if ds != [] {
      var n := |ds| - 1;
      assert LetThrough(ds)[n] == Delivered(macs, ps, |ps|)[n];
      forall i | 0 <= i < n ensures LetThrough(ds[..n])[i] == Delivered(macs, ps[..n], n)[i] {
        assert LetThrough(ds)[i] == Delivered(macs, ps, |ps|)[i];
      }
      NumbersAreCounters(macs, ds[..n], ps[..n], s);
    }
  }

  /** In a run in which every link brings the counters of server s in order and without gaps, 1 to
      its own number, exactly 1, 2, ... up to the largest of these are delivered. */
  lemma RunLosesNothing(macs: seq<nat>, ports: nat, events: seq<Event>, s: nat, ks: seq<nat>)
    requires s < |macs| && |ks| == ports
    requires forall l :: 0 <= l < ports ==>
      Counters(By(Arrivals(macs, ports, events), Via(macs, ports, events), l), s) == Upto(ks[l])
    ensures Numbers(Run(macs, ports, events).delivered, s) == Upto(MaxOf(ks))
  {
    hide *;
    var rx := Arrivals(macs, ports, events);
    RunIsOnePass(macs, ports, events);
    FreshCountersLength(|macs|);
    NumbersAreCounters(macs, Run(macs, ports, events).delivered, Admitted(FreshCounters(|macs|), rx), s);
    MergeSoFar(FreshCounters(|macs|), rx, Via(macs, ports, events), s, ks);
  }
}
