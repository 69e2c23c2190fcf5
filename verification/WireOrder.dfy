/** The order of what is put on the links, and what it is good for: when a run delivers every
    committed frame. */
module WireOrder {
  import opened Bytes
  import opened LinkProtocol
  import opened LinkSpec
  import opened MacTag
  import opened MergedArrivals
  import opened RunArrivals

  // ---------------------------------------------------------------- order on the wires

  /** Packets follow one another in the order in which their frames were received, all below n. */
  ghost predicate Ordered(ps: seq<Packet>, n: nat) {
    && (forall i :: 0 <= i < |ps| ==> ps[i].origin < n)
    && forall i, j :: 0 <= i < j < |ps| ==> ps[i].origin < ps[j].origin
  }

  lemma OrderedConcat(a: seq<Packet>, n: nat, b: seq<Packet>, n': nat)
    requires Ordered(a, n) && Ordered(b, n') && n <= n' && forall i :: 0 <= i < |b| ==> n <= b[i].origin
    ensures Ordered(a + b, n')
  {
  }

  lemma StampedInOrder(macs: seq<nat>, c: seq<nat>, received: seq<Frame>, rx: seq<Frame>, m: nat)
    requires |c| == |macs| && m <= |Stamps(macs, c, rx, |received|)|
    ensures var ps := Packets(received + rx, Stamps(macs, c, rx, |received|)[..m]);
      Ordered(ps, |received + rx|) && forall i :: 0 <= i < |ps| ==> |received| <= ps[i].origin
  {
    hide WithTag, Stamps;
    StampsInOrder(macs, c, rx, |received|);
  }

  lemma StepKeepsOrder(macs: seq<nat>, sys: System, e: Event, l: nat)
    requires |sys.sender| == |sys.receiver| == |macs| && Enabled(sys, e) && l < |sys.wire|
    requires Ordered(sys.wire[l], |sys.received|)
    ensures l < |Step(macs, sys, e).wire| && Ordered(Step(macs, sys, e).wire[l], |Step(macs, sys, e).received|)
  {
    hide Ordered, Stamps, Packets, Sent, MaxSent, Apply, EgressCounters, Admitted, Delivered;
    if e.Ingress? {
      var received := sys.received + e.rx;
      var st := Stamps(macs, sys.sender, e.rx, |sys.received|);
      var ps := Packets(received, st[..Sent(e.links[l], |st|)]);
      StampedInOrder(macs, sys.sender, sys.received, e.rx, Sent(e.links[l], |st|));
      OrderedConcat(sys.wire[l], |sys.received|, ps, |received|);
    }
  }

  lemma NothingIsOrdered(macs: seq<nat>, ports: nat, l: nat)
    requires l < ports
    ensures Ordered(Initial(macs, ports).wire[l], 0)
  {
  }

  /** In every run each link is given its packets in the order in which their frames came in. */
  lemma {:induction false} WireIsOrdered(macs: seq<nat>, ports: nat, events: seq<Event>, l: nat)
    requires l < ports
    ensures Ordered(Run(macs, ports, events).wire[l], |Run(macs, ports, events).received|)
  {
    hide Ordered, Step, Enabled;
    if events == [] {
      NothingIsOrdered(macs, ports, l);
    } else {
      var before, e := events[..|events| - 1], events[|events| - 1];
      WireIsOrdered(macs, ports, before, l);
      if Enabled(Run(macs, ports, before), e) {
        StepKeepsOrder(macs, Run(macs, ports, before), e, l);
      }
    }
  }

  /** Packets of one server have strictly increasing counters. */
  ghost predicate CountersRise(ps: seq<Packet>) {
    forall i, j :: 0 <= i < j < |ps| && ServerIndex(ps[i].frame) == ServerIndex(ps[j].frame) ==>
      ServerCounter(ps[i].frame) < ServerCounter(ps[j].frame)
  }

  /** So are, in every run, the counters of each server on each link. */
  lemma WireCountersRise(macs: seq<nat>, ports: nat, events: seq<Event>, l: nat)
    requires l < ports && WithinTags(Run(macs, ports, events).sender)
    ensures CountersRise(Run(macs, ports, events).wire[l])
  {
    hide Run, SenderOk, WithinTags, Ordered, ServerIndex, ServerCounter, OnSomeWire;
    var sys := Run(macs, ports, events);
    SenderInvariant(macs, ports, events);
    WireIsOrdered(macs, ports, events, l);
    forall i, j | 0 <= i < j < |sys.wire[l]| && ServerIndex(sys.wire[l][i].frame) == ServerIndex(sys.wire[l][j].frame)
      ensures ServerCounter(sys.wire[l][i].frame) < ServerCounter(sys.wire[l][j].frame)
    {
      OnThisWire(sys.wire, l, i);
      OnThisWire(sys.wire, l, j);
      OrderedOrigins(sys.wire[l], |sys.received|, i, j);
      LaterPacketIsLater(macs, sys, sys.wire[l][i], sys.wire[l][j]);
    }
  }

  lemma OrderedOrigins(ps: seq<Packet>, n: nat, i: nat, j: nat)
    requires Ordered(ps, n) && i < j < |ps|
    ensures ps[i].origin < ps[j].origin
  {
  }

  lemma LaterPacketIsLater(macs: seq<nat>, sys: System, p: Packet, q: Packet)
    requires |sys.sender| == |macs| && WithinTags(sys.sender) && SenderOk(macs, sys)
    requires OnSomeWire(sys.wire, p) && OnSomeWire(sys.wire, q) && p.origin < q.origin
    requires ServerIndex(p.frame) == ServerIndex(q.frame)
    ensures ServerCounter(p.frame) < ServerCounter(q.frame)
  {
    hide WithinTags, WithTag, ServerIndex, ServerCounter, OnSomeWire, Numbered, WireOk, AllSent, StampsOk, Apply;
    var a := WireTag(macs, sys, p);
    var b := WireTag(macs, sys, q);
    assert a < b;
    NumberedIncreasing(FreshCounters(|sys.sender|), sys.journal, a, b);
  }

  // ---------------------------------------------------------------- what a link carries

  ghost predicate Carries(ps: seq<Packet>, s: nat, k: nat) {
    exists i :: 0 <= i < |ps| && Is(ps[i], s, k)
  }

  lemma {:induction false} CountersAre(ps: seq<Packet>, s: nat)
    requires CountersRise(ps)
    ensures forall x :: x in Counters(ps, s) <==> Carries(ps, s, x)
    ensures forall i, j :: 0 <= i < j < |Counters(ps, s)| ==> Counters(ps, s)[i] < Counters(ps, s)[j]
  {
    hide ServerIndex, ServerCounter, Carries;
    if ps == [] {
      NothingCarried(s);
    } else {
      var n := |ps| - 1;
      CountersAre(ps[..n], s);
      CarriesSnoc(ps, s);
      var b := Counters(ps[..n], s);
      if ServerIndex(ps[n].frame) == s {
        forall i | 0 <= i < |b| ensures b[i] < ServerCounter(ps[n].frame) {
          assert b[i] in b;
          CarriedIsLess(ps, s, b[i]);
        }
      }
    }
  }

  lemma CarriedIsLess(ps: seq<Packet>, s: nat, x: nat)
    requires ps != [] && CountersRise(ps) && Carries(ps[..|ps| - 1], s, x)
    requires ServerIndex(ps[|ps| - 1].frame) == s
    ensures x < ServerCounter(ps[|ps| - 1].frame)
  {
    hide ServerIndex, ServerCounter;
    var n := |ps| - 1;
    var i :| 0 <= i < n && Is(ps[..n][i], s, x);
    assert ps[i] == ps[..n][i];
  }

  lemma NothingCarried(s: nat)
    ensures forall x :: !Carries([], s, x)
  {
  }

  lemma CarriesSnoc(ps: seq<Packet>, s: nat)
    requires ps != []
    ensures forall x :: Carries(ps, s, x) <==> Carries(ps[..|ps| - 1], s, x) || Is(ps[|ps| - 1], s, x)
  {
    hide Is;
    var n := |ps| - 1;
    forall x | Carries(ps, s, x) ensures Carries(ps[..n], s, x) || Is(ps[n], s, x) {
      var i :| 0 <= i < |ps| && Is(ps[i], s, x);
      assert i < n ==> ps[..n][i] == ps[i];
    }
    forall x | Carries(ps[..n], s, x) ensures Carries(ps, s, x) {
      var i :| 0 <= i < n && Is(ps[..n][i], s, x);
      assert ps[i] == ps[..n][i];
    }
  }

  /** Strictly increasing numbers that are exactly those from 1 to n are 1, 2, ..., n. */
  lemma {:induction false} RisingIsUpto(a: seq<nat>, n: nat)
    requires forall i, j :: 0 <= i < j < |a| ==> a[i] < a[j]
    requires forall x :: x in a <==> 1 <= x <= n
    ensures a == Upto(n)
  {
    assert n in a <==> n >= 1;
    if a != [] {
      var m := |a| - 1;
      assert a[m] in a;
      var k :| 0 <= k < |a| && a[k] == n;
      assert k < m ==> a[k] < a[m];
      assert a[m] == n;
      forall x: nat ensures x in a[..m] <==> 1 <= x <= n - 1 {
        RisingWithoutLast(a, x);
      }
      RisingIsUpto(a[..m], n - 1);
      UptoNext(n - 1);
    }
  }

  lemma RisingWithoutLast(a: seq<nat>, x: nat)
    requires a != [] && forall i, j :: 0 <= i < j < |a| ==> a[i] < a[j]
    ensures x in a[..|a| - 1] <==> x in a && x != a[|a| - 1]
  {
    assert a == a[..|a| - 1] + [a[|a| - 1]];
  }

  /** In every run the counters a link has been given for a server are 1, 2, ... up to the sender's
      counter exactly if it has been given them all. */
  lemma FullLinkExactly(macs: seq<nat>, ports: nat, events: seq<Event>, l: nat, s: nat)
    requires l < ports && s < |macs| && WithinTags(Run(macs, ports, events).sender)
    ensures var sys := Run(macs, ports, events);
      Counters(sys.wire[l], s) == Upto(sys.sender[s]) <==>
      forall k :: 1 <= k <= sys.sender[s] ==> Carries(sys.wire[l], s, k)
  {
    hide Run, WithinTags, CountersRise, Carries, Counters, OnSomeWire, ServerIndex, ServerCounter;
    var sys := Run(macs, ports, events);
    var a, n := Counters(sys.wire[l], s), sys.sender[s];
    WireCountersRise(macs, ports, events, l);
    CountersAre(sys.wire[l], s);
    forall k: nat | Carries(sys.wire[l], s, k) ensures 1 <= k <= n {
      CarriedIsOnWire(sys.wire, l, s, k);
      TagsOnWireAreGapFree(macs, ports, events, s, k);
    }
    if forall k :: 1 <= k <= n ==> Carries(sys.wire[l], s, k) {
      RisingIsUpto(a, n);
    }
    if a == Upto(n) {
      forall k | 1 <= k <= n ensures Carries(sys.wire[l], s, k) {
        assert Upto(n)[k - 1] == k;
      }
    }
  }

  lemma CarriedIsOnWire(wire: seq<seq<Packet>>, l: nat, s: nat, k: nat)
    requires l < |wire| && Carries(wire[l], s, k)
    ensures TagOnWire(wire, s, k)
  {
    hide ServerIndex, ServerCounter;
    var i :| 0 <= i < |wire[l]| && Is(wire[l][i], s, k);
    OnThisWire(wire, l, i);
  }

  // ---------------------------------------------------------------- nothing is lost

  /** The packets that came by a link are those given to it, all of them, in order. */
  ghost predicate ArrivedInFull(macs: seq<nat>, ports: nat, events: seq<Event>, l: nat)
    requires l < ports
  {
    By(Arrivals(macs, ports, events), Via(macs, ports, events), l) == Run(macs, ports, events).wire[l]
  }

  /** A link was given every committed frame of server s and has brought them all in order, and
      what the other links brought of that server is in order and without gaps from 1 on, be it
      nothing at all: then the numbers 1 to the sender's counter are delivered, each once. */
  lemma FullLinkLosesNothing(macs: seq<nat>, ports: nat, events: seq<Event>, l: nat, s: nat, ks: seq<nat>)
    requires l < ports == |ks| && s < |macs| && WithinTags(Run(macs, ports, events).sender)
    requires ArrivedInFull(macs, ports, events, l)
    requires forall k :: 1 <= k <= Run(macs, ports, events).sender[s] ==>
      Carries(Run(macs, ports, events).wire[l], s, k)
    requires forall m :: 0 <= m < ports && m != l ==>
      ks[m] <= Run(macs, ports, events).sender[s] &&
      Counters(By(Arrivals(macs, ports, events), Via(macs, ports, events), m), s) == Upto(ks[m])
    ensures Numbers(Run(macs, ports, events).delivered, s) == Upto(Run(macs, ports, events).sender[s])
  {
    hide Run, WithinTags, Carries, Counters, By, Arrivals, Via, Upto, MaxOf, Numbers;
    var n := Run(macs, ports, events).sender[s];
    var all := ks[l := n];
    FullLinkExactly(macs, ports, events, l, s);
    RunLosesNothing(macs, ports, events, s, all);
    assert all[l] == n && MaxOf(all) == n;
  }

  /** Every committed frame of server s has been delivered, with its octets as received. */
  ghost predicate AllDelivered(sys: System, s: nat) {
    forall j :: 0 <= j < |sys.journal| && sys.journal[j].server == s ==>
      sys.journal[j].origin < |sys.received| && DeliveredFrame(sys, sys.journal[j].origin)
  }

  ghost predicate DeliveredFrame(sys: System, origin: nat)
    requires origin < |sys.received|
  {
    exists i :: 0 <= i < |sys.delivered| && sys.delivered[i].origin == origin
             && sys.delivered[i].frame == sys.received[origin]
  }

  lemma {:induction false} NumberHasDelivery(ds: seq<Delivery>, s: nat, k: nat) returns (i: nat)
    requires k in Numbers(ds, s)
    ensures i < |ds| && ds[i].server == s && ds[i].counter == k
  {
    var n := |ds| - 1;
    if ds[n].server == s && ds[n].counter == k {
      i := n;
    } else {
      i := NumberHasDelivery(ds[..n], s, k);
    }
  }

  /** When the delivered numbers of a server are 1 up to the sender's counter, every frame committed
      for it has been delivered. */
  lemma NumbersMeanFrames(macs: seq<nat>, ports: nat, events: seq<Event>, s: nat)
    requires s < |macs| && WithinTags(Run(macs, ports, events).sender)
    requires Numbers(Run(macs, ports, events).delivered, s) == Upto(Run(macs, ports, events).sender[s])
    ensures AllDelivered(Run(macs, ports, events), s)
  {
    hide Run, WithinTags, Apply, Numbered, Numbers, WireOk, AllSent, Increasing, Below, ServerOf, SourceMac;
    var sys := Run(macs, ports, events);
    SenderInvariant(macs, ports, events);
    ReceiverInvariant(macs, ports, events);
    NumberedRange(FreshCounters(|macs|), sys.journal, s);
    forall j | 0 <= j < |sys.journal| && sys.journal[j].server == s
      ensures sys.journal[j].origin < |sys.received| && DeliveredFrame(sys, sys.journal[j].origin)
    {
      var k := sys.journal[j].counter;
      assert Upto(sys.sender[s])[k - 1] == k;
      var i := NumberHasDelivery(sys.delivered, s, k);
      var d := sys.delivered[i];
      assert Genuine(sys, d);
      var a :| 0 <= a < |sys.journal| && sys.journal[a] == Stamp(d.server, d.counter, d.origin);
      SameNumberSameStamp(FreshCounters(|macs|), sys.journal, a, j);
    }
  }

  lemma SameNumberSameStamp(c: seq<nat>, st: seq<Stamp>, a: nat, b: nat)
    requires Numbered(c, st) && a < |st| && b < |st|
    requires st[a].server == st[b].server && st[a].counter == st[b].counter
    ensures a == b
  {
    hide Numbered;
    if a < b {
      NumberedIncreasing(c, st, a, b);
    } else if b < a {
      NumberedIncreasing(c, st, b, a);
    }
  }

  /** So a full link that brings everything in order delivers every committed frame, if the others
      bring theirs without gaps. */
  lemma FullLinkDeliversAll(macs: seq<nat>, ports: nat, events: seq<Event>, l: nat, s: nat, ks: seq<nat>)
    requires l < ports == |ks| && s < |macs| && WithinTags(Run(macs, ports, events).sender)
    requires ArrivedInFull(macs, ports, events, l)
    requires forall k :: 1 <= k <= Run(macs, ports, events).sender[s] ==>
      Carries(Run(macs, ports, events).wire[l], s, k)
    requires forall m :: 0 <= m < ports && m != l ==>
      ks[m] <= Run(macs, ports, events).sender[s] &&
      Counters(By(Arrivals(macs, ports, events), Via(macs, ports, events), m), s) == Upto(ks[m])
    ensures AllDelivered(Run(macs, ports, events), s)
  {
    hide *;
    FullLinkLosesNothing(macs, ports, events, l, s, ks);
    NumbersMeanFrames(macs, ports, events, s);
  }

  /** With one link that brings everything in order, every frame committed for a known server is
      delivered, whatever transmissions were cut short on the way. */
  lemma OneLinkDeliversAll(macs: seq<nat>, events: seq<Event>, s: nat)
    requires s < |macs| && WithinTags(Run(macs, 1, events).sender) && ArrivedInFull(macs, 1, events, 0)
    ensures Numbers(Run(macs, 1, events).delivered, s) == Upto(Run(macs, 1, events).sender[s])
    ensures AllDelivered(Run(macs, 1, events), s)
  {
    hide Run, WithinTags, ArrivedInFull, Carries, AllDelivered, Numbers, Upto;
    var sys := Run(macs, 1, events);
    forall k | 1 <= k <= sys.sender[s] ensures Carries(sys.wire[0], s, k) {
      TagsOnWireAreGapFree(macs, 1, events, s, k);
      OnOnlyWire(sys.wire, s, k);
    }
    FullLinkLosesNothing(macs, 1, events, 0, s, [0]);
    NumbersMeanFrames(macs, 1, events, s);
  }

  lemma OnOnlyWire(wire: seq<seq<Packet>>, s: nat, k: nat)
    requires |wire| == 1 && TagOnWire(wire, s, k)
    ensures Carries(wire[0], s, k)
  {
    hide ServerIndex, ServerCounter;
    var p: Packet :| OnSomeWire(wire, p) && ServerIndex(p.frame) == s && ServerCounter(p.frame) == k;
    var i :| 0 <= i < |wire[0]| && wire[0][i] == p;
    assert Is(wire[0][i], s, k);
  }
}
