/** Two redundancy boxes joined by unreliable links: whole runs of ingress passes on the
    sending box and egress passes on the receiving box, in any interleaving. */
module LinkProtocol {
  import opened Bytes
  import opened MacTag
  import opened LinkSpec

  /** A frame the receiving box let through; `handed` says the server-side port took it. */
  datatype Delivery = Delivery(frame: Frame, origin: nat, server: nat, counter: nat, handed: bool)

  /** Counters of both boxes, and history: every frame received by the sending box, every
      stamp committed, every packet ever put on each link, every frame let through. */
  datatype System = System(
    sender: seq<nat>,
    receiver: seq<nat>,
    received: seq<Frame>,
    journal: seq<Stamp>,
    wire: seq<seq<Packet>>,
    delivered: seq<Delivery>)

  datatype Event =
    | Ingress(rx: seq<Frame>, links: seq<Link>)
    | Egress(port: nat, arrivals: seq<Packet>, accepts: nat)

  function FreshCounters(n: nat): seq<nat> { seq(n, _ => 0) }

  function Initial(macs: seq<nat>, ports: nat): System {
    System(FreshCounters(|macs|), FreshCounters(|macs|), [], [], seq(ports, _ => []), [])
  }

  /** A link may lose, delay, reorder and duplicate: any packets ever put on it may arrive,
      in any order and any number of times, and nothing else may. */
  ghost predicate Enabled(sys: System, e: Event) {
    match e
    case Ingress(rx, links) => |rx| <= MAX_PKT_BURST && |links| == |sys.wire|
    case Egress(port, arrivals, _) =>
      && |arrivals| <= MAX_PKT_BURST && port < |sys.wire|
      && forall i :: 0 <= i < |arrivals| ==> arrivals[i] in sys.wire[port]
  }

  function Delivered(macs: seq<nat>, ps: seq<Packet>, accepts: nat): (ds: seq<Delivery>)
    requires forall i :: 0 <= i < |ps| ==> ServerIndex(ps[i].frame) < |macs|
    ensures |ds| == |ps|
  {
    seq(|ps|, i requires 0 <= i < |ps| =>
      var p := ps[i];
      Delivery(Restored(macs, p).frame, p.origin, ServerIndex(p.frame), ServerCounter(p.frame), i < accepts))
  }

  function Step(macs: seq<nat>, sys: System, e: Event): System
    requires |sys.sender| == |sys.receiver| == |macs|
    requires e.Ingress? ==> |e.links| == |sys.wire|
  {
    match e
    case Ingress(rx, links) =>
      var received := sys.received + rx;
      var st := Stamps(macs, sys.sender, rx, |sys.received|);
      var committed := st[..MaxSent(links, |st|)];
      sys.(received := received,
           journal := sys.journal + committed,
           sender := Apply(sys.sender, committed),
           wire := seq(|links|, l requires 0 <= l < |links| =>
             sys.wire[l] + Packets(received, st[..Sent(links[l], |st|)])))
    case Egress(_, arrivals, accepts) =>
      sys.(receiver := EgressCounters(sys.receiver, arrivals),
           delivered := sys.delivered + Delivered(macs, Admitted(sys.receiver, arrivals), accepts))
  }

  /** The state after a sequence of events; one that is not enabled has no effect. */
  ghost function Run(macs: seq<nat>, ports: nat, events: seq<Event>): (sys: System)
    ensures |sys.sender| == |sys.receiver| == |macs| && |sys.wire| == ports
  {
    if events == [] then Initial(macs, ports)
    else
      var sys := Run(macs, ports, events[..|events| - 1]);
      var e := events[|events| - 1];
      if Enabled(sys, e) then Step(macs, sys, e) else sys
  }

  lemma IngressLeavesReceiver(macs: seq<nat>, sys: System, e: Event)
    requires |sys.sender| == |sys.receiver| == |macs| && e.Ingress? && |e.links| == |sys.wire|
    ensures Step(macs, sys, e).receiver == sys.receiver && Step(macs, sys, e).delivered == sys.delivered
  {
  }

  lemma EgressLeavesSender(macs: seq<nat>, sys: System, e: Event)
    requires |sys.sender| == |sys.receiver| == |macs| && e.Egress?
    ensures Step(macs, sys, e).sender == sys.sender && Step(macs, sys, e).wire == sys.wire
  {
  }

  // ---------------------------------------------------------------- numbering

  /** Every stamp carries the next counter of its server. */
  ghost predicate Numbered(c: seq<nat>, st: seq<Stamp>) {
    forall j :: 0 <= j < |st| ==> st[j].server < |c| && st[j].counter == Apply(c, st[..j])[st[j].server] + 1
  }

  ghost predicate InOrder(st: seq<Stamp>) {
    forall i, j :: 0 <= i < j < |st| ==> st[i].origin < st[j].origin
  }

  lemma {:induction false} ApplyConcat(c: seq<nat>, a: seq<Stamp>, b: seq<Stamp>)
    ensures Apply(c, a + b) == Apply(Apply(c, a), b)
  {
    if b == [] {
      assert a + b == a;
    } else {
      var b' := b[..|b| - 1];
      ApplyConcat(c, a, b');
      assert (a + b)[..|a + b| - 1] == a + b';
    }
  }

  lemma NumberedConcat(c: seq<nat>, a: seq<Stamp>, b: seq<Stamp>)
    requires Numbered(c, a) && Numbered(Apply(c, a), b)
    ensures Numbered(c, a + b)
  {
    forall j | 0 <= j < |a + b|
      ensures (a + b)[j].server < |c|
      ensures (a + b)[j].counter == Apply(c, (a + b)[..j])[(a + b)[j].server] + 1
    {
      if j < |a| {
        assert (a + b)[..j] == a[..j];
      } else {
        assert (a + b)[..j] == a + b[..j - |a|];
        ApplyConcat(c, a, b[..j - |a|]);
      }
    }
  }

  lemma NumberedPrefix(c: seq<nat>, st: seq<Stamp>, m: nat)
    requires Numbered(c, st) && m <= |st|
    ensures Numbered(c, st[..m])
  {
    forall j | 0 <= j < m
      ensures st[..m][j].counter == Apply(c, st[..m][..j])[st[..m][j].server] + 1
    {
      assert st[..m][..j] == st[..j];
    }
  }

  /** Some stamp carries the tag (s, k). */
  ghost predicate Issued(st: seq<Stamp>, s: nat, k: int) {
    exists j :: 0 <= j < |st| && st[j].server == s && st[j].counter == k
  }

  /** A numbered sequence moves each counter up by the stamps it holds: the counters used
      for server s are exactly those above c[s] and up to the final one. */
  lemma {:induction false} NumberedRange(c: seq<nat>, st: seq<Stamp>, s: nat)
    requires Numbered(c, st) && s < |c|
    ensures c[s] <= Apply(c, st)[s]
    ensures forall j :: 0 <= j < |st| && st[j].server == s ==> c[s] < st[j].counter <= Apply(c, st)[s]
    ensures forall k :: c[s] < k <= Apply(c, st)[s] ==> Issued(st, s, k)
  {
    if st != [] {
      var n := |st| - 1;
      NumberedPrefix(c, st, n);
      NumberedRange(c, st[..n], s);
      forall k | c[s] < k <= Apply(c, st)[s]
        ensures Issued(st, s, k)
      {
        if k <= Apply(c, st[..n])[s] {
          assert Issued(st[..n], s, k);
        } else {
          assert st[n].server == s && st[n].counter == k;
        }
      }
      forall j | 0 <= j < |st| && st[j].server == s
        ensures c[s] < st[j].counter <= Apply(c, st)[s]
      {
        if j < n {
          assert st[..n][j] == st[j];
        }
      }
    }
  }

  /** Within a server, a later stamp has a larger counter. */
  lemma NumberedIncreasing(c: seq<nat>, st: seq<Stamp>, i: nat, j: nat)
    requires Numbered(c, st) && i < j < |st| && st[i].server == st[j].server
    ensures st[i].counter < st[j].counter
  {
    NumberedPrefix(c, st, j);
    NumberedRange(c, st[..j], st[i].server);
    assert st[..j][i] == st[i];
  }

  lemma NumberedSnoc(c: seq<nat>, st: seq<Stamp>, s: Stamp)
    requires Numbered(c, st) && s.server < |c| && s.counter == Apply(c, st)[s.server] + 1
    ensures Numbered(c, st + [s])
  {
    hide Apply;
    var st' := st + [s];
    forall j | 0 <= j < |st'|
      ensures st'[j].server < |c| && st'[j].counter == Apply(c, st'[..j])[st'[j].server] + 1
    {
      assert st'[..j] == st[..j];
    }
    assert st[..|st|] == st;
  }

  /** The stamps of one burst are numbered. */
  lemma {:induction false} StampsAreNumbered(macs: seq<nat>, c: seq<nat>, rx: seq<Frame>, base: nat)
    requires |c| == |macs|
    ensures Numbered(c, Stamps(macs, c, rx, base))
  {
    hide SourceMac, ServerOf, Apply, Numbered;
    if rx == [] {
      NumberedEmpty(c);
    } else {
      var n := |rx| - 1;
      StampsAreNumbered(macs, c, rx[..n], base);
      var p, s := Stamps(macs, c, rx[..n], base), ServerOf(macs, SourceMac(rx[n]));
      if s < |macs| {
        NumberedSnoc(c, p, Stamp(s, Apply(c, p)[s] + 1, base + n));
      }
    }
  }

  /** They follow the order of arrival. */
  lemma {:induction false} StampsInOrder(macs: seq<nat>, c: seq<nat>, rx: seq<Frame>, base: nat)
    requires |c| == |macs|
    ensures InOrder(Stamps(macs, c, rx, base))
  {
    hide SourceMac, ServerOf, Apply;
    if rx != [] {
      StampsInOrder(macs, c, rx[..|rx| - 1], base);
    }
  }

  /** They name the server whose address the frame carries. */
  lemma {:induction false} StampsNameServers(macs: seq<nat>, c: seq<nat>, rx: seq<Frame>, base: nat)
    requires |c| == |macs|
    ensures NamesServers(macs, rx, base, Stamps(macs, c, rx, base))
  {
    hide SourceMac, ServerOf, Apply;
    if rx != [] {
      StampsNameServers(macs, c, rx[..|rx| - 1], base);
    }
  }

  lemma NumberedEmpty(c: seq<nat>)
    ensures Numbered(c, [])
  {
  }

  /** Each stamp names the server whose address the stamped frame carries. */
  ghost predicate NamesServers(macs: seq<nat>, rx: seq<Frame>, base: nat, st: seq<Stamp>) {
    forall j :: 0 <= j < |st| ==>
      base <= st[j].origin < base + |rx| && st[j].server == ServerOf(macs, SourceMac(rx[st[j].origin - base]))
  }

  // ---------------------------------------------------------------- sending box

  /** The committed stamps number each server's frames from 1 without gaps, up to the
      sender's counters, in order of arrival. */
  ghost predicate JournalOk(c: seq<nat>, journal: seq<Stamp>) {
    && Numbered(FreshCounters(|c|), journal)
    && Apply(FreshCounters(|c|), journal) == c
    && InOrder(journal)
  }

  /** Each committed stamp names a received frame and the server of its address. */
  ghost predicate StampsOk(macs: seq<nat>, received: seq<Frame>, journal: seq<Stamp>) {
    forall j :: 0 <= j < |journal| ==>
      journal[j].origin < |received| && journal[j].server == ServerOf(macs, SourceMac(received[journal[j].origin]))
  }

  ghost predicate Committed(received: seq<Frame>, journal: seq<Stamp>, p: Packet) {
    exists j :: 0 <= j < |journal| && journal[j].origin < |received| && p == PacketOf(received, journal[j])
  }

  /** Everything ever put on a link is a committed frame with its committed tag. */
  ghost predicate WireOk(sys: System) {
    forall l, i :: 0 <= l < |sys.wire| && 0 <= i < |sys.wire[l]| ==>
      Committed(sys.received, sys.journal, sys.wire[l][i])
  }

  /** The packet was put on some link during the run. */
  ghost predicate OnSomeWire(wire: seq<seq<Packet>>, p: Packet) {
    exists l :: 0 <= l < |wire| && p in wire[l]
  }

  /** Every committed frame was put on some link. */
  ghost predicate AllSent(sys: System) {
    forall j :: 0 <= j < |sys.journal| && sys.journal[j].origin < |sys.received| ==>
      OnSomeWire(sys.wire, PacketOf(sys.received, sys.journal[j]))
  }

  lemma IngressKeepsJournal(macs: seq<nat>, c: seq<nat>, journal: seq<Stamp>, rx: seq<Frame>, base: nat, m: nat)
    requires |c| == |macs| && JournalOk(c, journal)
    requires forall j :: 0 <= j < |journal| ==> journal[j].origin < base
    requires m <= |Stamps(macs, c, rx, base)|
    ensures var committed := Stamps(macs, c, rx, base)[..m];
      JournalOk(Apply(c, committed), journal + committed)
  {
    hide Apply, Stamps, Numbered;
    var st := Stamps(macs, c, rx, base);
    StampsAreNumbered(macs, c, rx, base);
    StampsInOrder(macs, c, rx, base);
    NumberedPrefix(c, st, m);
    NumberedConcat(FreshCounters(|c|), journal, st[..m]);
    ApplyConcat(FreshCounters(|c|), journal, st[..m]);
  }

  lemma IngressKeepsStamps(macs: seq<nat>, c: seq<nat>, received: seq<Frame>, journal: seq<Stamp>, rx: seq<Frame>,
                           m: nat)
    requires |c| == |macs| && StampsOk(macs, received, journal)
    requires m <= |Stamps(macs, c, rx, |received|)|
    ensures StampsOk(macs, received + rx, journal + Stamps(macs, c, rx, |received|)[..m])
  {
    hide SourceMac, ServerOf, Stamps;
    StampsNameServers(macs, c, rx, |received|);
  }

  lemma CommittedStays(received: seq<Frame>, journal: seq<Stamp>, p: Packet, rx: seq<Frame>, st: seq<Stamp>)
    requires Committed(received, journal, p)
    ensures Committed(received + rx, journal + st, p)
  {
    hide WithTag;
    var j :| 0 <= j < |journal| && journal[j].origin < |received| && p == PacketOf(received, journal[j]);
    assert (journal + st)[j] == journal[j] && p == PacketOf(received + rx, journal[j]);
  }

  lemma IngressKeepsWire(macs: seq<nat>, sys: System, e: Event)
    requires |sys.sender| == |sys.receiver| == |macs|
    requires e.Ingress? && Enabled(sys, e) && WireOk(sys)
    ensures WireOk(Step(macs, sys, e))
  {
    hide WithTag, Stamps, Sent, MaxSent, Apply, Committed;
    var next := Step(macs, sys, e);
    var st := Stamps(macs, sys.sender, e.rx, |sys.received|);
    var m := MaxSent(e.links, |st|);
    forall l, i | 0 <= l < |next.wire| && 0 <= i < |next.wire[l]|
      ensures Committed(next.received, next.journal, next.wire[l][i])
    {
      if i < |sys.wire[l]| {
        assert next.wire[l][i] == sys.wire[l][i];
        CommittedStays(sys.received, sys.journal, sys.wire[l][i], e.rx, st[..m]);
      } else {
        var k := i - |sys.wire[l]|;
        assert Sent(e.links[l], |st|) <= m;
        assert next.wire[l][i] == PacketOf(next.received, st[k]);
        CommittedNow(next.received, sys.journal, st, m, k);
      }
    }
  }

  lemma CommittedNow(received: seq<Frame>, journal: seq<Stamp>, st: seq<Stamp>, m: nat, k: nat)
    requires k < m <= |st| && st[k].origin < |received|
    ensures Committed(received, journal + st[..m], PacketOf(received, st[k]))
  {
    assert (journal + st[..m])[|journal| + k] == st[k];
  }

  lemma IngressKeepsAllSent(macs: seq<nat>, sys: System, e: Event)
    requires |sys.sender| == |sys.receiver| == |macs|
    requires forall j :: 0 <= j < |sys.journal| ==> sys.journal[j].origin < |sys.received|
    requires e.Ingress? && Enabled(sys, e) && AllSent(sys)
    ensures AllSent(Step(macs, sys, e))
  {
    hide WithTag, Stamps, Sent, MaxSent, Apply, OnSomeWire;
    var next := Step(macs, sys, e);
    var st := Stamps(macs, sys.sender, e.rx, |sys.received|);
    var m := MaxSent(e.links, |st|);
    forall j | 0 <= j < |next.journal| && next.journal[j].origin < |next.received|
      ensures OnSomeWire(next.wire, PacketOf(next.received, next.journal[j]))
    {
      if j < |sys.journal| {
        assert PacketOf(next.received, next.journal[j]) == PacketOf(sys.received, sys.journal[j]);
        OnWireStays(sys.wire, next.wire, PacketOf(sys.received, sys.journal[j]));
      } else {
        var k := j - |sys.journal|;
        var l :| 0 <= l < |e.links| && Sent(e.links[l], |st|) == m;
        assert next.wire[l][|sys.wire[l]| + k] == PacketOf(next.received, st[k]);
        OnThisWire(next.wire, l, |sys.wire[l]| + k);
      }
    }
  }

  lemma OnWireStays(wire: seq<seq<Packet>>, wire': seq<seq<Packet>>, p: Packet)
    requires OnSomeWire(wire, p)
    requires |wire'| == |wire| && forall l :: 0 <= l < |wire| ==> wire[l] <= wire'[l]
    ensures OnSomeWire(wire', p)
  {
    var l :| 0 <= l < |wire| && p in wire[l];
    assert p in wire'[l];
  }

  lemma OnThisWire(wire: seq<seq<Packet>>, l: nat, i: nat)
    requires l < |wire| && i < |wire[l]|
    ensures OnSomeWire(wire, wire[l][i])
  {
  }

  ghost predicate SenderOk(macs: seq<nat>, sys: System) {
    && JournalOk(sys.sender, sys.journal)
    && StampsOk(macs, sys.received, sys.journal)
    && WireOk(sys) && AllSent(sys)
  }

  lemma IngressKeepsSender(macs: seq<nat>, sys: System, e: Event)
    requires |sys.sender| == |sys.receiver| == |macs|
    requires e.Ingress? && Enabled(sys, e) && SenderOk(macs, sys)
    ensures SenderOk(macs, Step(macs, sys, e))
  {
    hide WireOk, AllSent, JournalOk, Stamps, MaxSent, Sent, Apply, Packets, SourceMac, ServerOf;
    var st := Stamps(macs, sys.sender, e.rx, |sys.received|);
    var m := MaxSent(e.links, |st|);
    IngressKeepsJournal(macs, sys.sender, sys.journal, e.rx, |sys.received|, m);
    IngressKeepsStamps(macs, sys.sender, sys.received, sys.journal, e.rx, m);
    IngressKeepsWire(macs, sys, e);
    IngressKeepsAllSent(macs, sys, e);
  }

  lemma EgressKeepsSender(macs: seq<nat>, sys: System, e: Event)
    requires |sys.sender| == |sys.receiver| == |macs|
    requires e.Egress? && SenderOk(macs, sys)
    ensures SenderOk(macs, Step(macs, sys, e))
  {
    hide JournalOk, StampsOk, OnSomeWire, Committed, PacketOf, EgressCounters, Admitted, Delivered;
  }

  lemma {:induction false} SenderInvariant(macs: seq<nat>, ports: nat, events: seq<Event>)
    ensures SenderOk(macs, Run(macs, ports, events))
  {
    hide SenderOk, Step, Enabled;
    if events == [] {
      InitiallySenderOk(macs, ports);
    } else {
      var sys := Run(macs, ports, events[..|events| - 1]);
      var e := events[|events| - 1];
      SenderInvariant(macs, ports, events[..|events| - 1]);
      if Enabled(sys, e) {
        if e.Ingress? {
          IngressKeepsSender(macs, sys, e);
        } else {
          EgressKeepsSender(macs, sys, e);
        }
      }
    }
  }

  lemma InitiallySenderOk(macs: seq<nat>, ports: nat)
    ensures SenderOk(macs, Initial(macs, ports))
  {
  }

  /** After any run, whatever links went down and whatever clones and transmissions failed, the
      numbers committed for server s are exactly 1 to counters[s], and all of them went out. */
  lemma CommittedTagsAreGapFree(macs: seq<nat>, ports: nat, events: seq<Event>, s: nat, k: nat)
    requires s < |macs|
    ensures var sys := Run(macs, ports, events);
      (1 <= k <= sys.sender[s]) <==>
      exists j :: 0 <= j < |sys.journal| && sys.journal[j].server == s && sys.journal[j].counter == k
               && sys.journal[j].origin < |sys.received| && OnSomeWire(sys.wire, PacketOf(sys.received, sys.journal[j]))
  {
    hide Run, WithTag, OnSomeWire, Apply, Numbered, SourceMac, ServerOf;
    SenderInvariant(macs, ports, events);
    var sys := Run(macs, ports, events);
    NumberedRange(FreshCounters(|macs|), sys.journal, s);
    if 1 <= k <= sys.sender[s] {
      assert Issued(sys.journal, s, k);
      var j :| 0 <= j < |sys.journal| && sys.journal[j].server == s && sys.journal[j].counter == k;
      assert OnSomeWire(sys.wire, PacketOf(sys.received, sys.journal[j]));
    }
  }

  ghost predicate WithinTags(c: seq<nat>) {
    |c| <= 256 && forall s :: 0 <= s < |c| ==> c[s] < COUNTER_LIMIT
  }

  /** The committed stamp behind a packet on a link, which the packet's octets spell out. */
  lemma WireTag(macs: seq<nat>, sys: System, p: Packet) returns (j: nat)
    requires |sys.sender| == |macs| && WithinTags(sys.sender)
    requires SenderOk(macs, sys) && OnSomeWire(sys.wire, p)
    ensures j < |sys.journal| && sys.journal[j].origin < |sys.received| && p == PacketOf(sys.received, sys.journal[j])
    ensures ServerIndex(p.frame) == sys.journal[j].server < |macs|
    ensures ServerCounter(p.frame) == sys.journal[j].counter
  {
    hide Apply, WithTag, AllSent, SourceMac, ServerOf, ServerIndex, ServerCounter;
    var l :| 0 <= l < |sys.wire| && p in sys.wire[l];
    var i :| 0 <= i < |sys.wire[l]| && sys.wire[l][i] == p;
    assert Committed(sys.received, sys.journal, p);
    j :| 0 <= j < |sys.journal| && sys.journal[j].origin < |sys.received|
       && p == PacketOf(sys.received, sys.journal[j]);
    var s := sys.journal[j];
    NumberedRange(FreshCounters(|macs|), sys.journal, s.server);
    TagReadsBack(sys.received[s.origin], s.server, s.counter);
  }

  /** Some packet ever put on a link reads as the tag (s, k). */
  ghost predicate TagOnWire(wire: seq<seq<Packet>>, s: nat, k: nat) {
    exists p: Packet :: OnSomeWire(wire, p) && ServerIndex(p.frame) == s && ServerCounter(p.frame) == k
  }

  /** The tags that the octets of the packets ever put on a link spell out are exactly (s, 1) to
      (s, counters[s]) for the known servers s. */
  lemma TagsOnWireAreGapFree(macs: seq<nat>, ports: nat, events: seq<Event>, s: nat, k: nat)
    requires WithinTags(Run(macs, ports, events).sender)
    ensures var sys := Run(macs, ports, events);
      TagOnWire(sys.wire, s, k) <==> s < |macs| && 1 <= k <= sys.sender[s]
  {
    hide Run, WithTag, OnSomeWire, Apply, Numbered, SourceMac, ServerOf, ServerIndex, ServerCounter, WithinTags;
    SenderInvariant(macs, ports, events);
    var sys := Run(macs, ports, events);
    if s < |macs| && 1 <= k <= sys.sender[s] {
      CommittedTagsAreGapFree(macs, ports, events, s, k);
      var j :| 0 <= j < |sys.journal| && sys.journal[j].server == s && sys.journal[j].counter == k
             && sys.journal[j].origin < |sys.received| && OnSomeWire(sys.wire, PacketOf(sys.received, sys.journal[j]));
      var p := PacketOf(sys.received, sys.journal[j]);
      WithinTagsBounds(sys.sender, s);
      TagReadsBack(sys.received[sys.journal[j].origin], s, k);
      assert OnSomeWire(sys.wire, p) && ServerIndex(p.frame) == s && ServerCounter(p.frame) == k;
    }
    if p: Packet :| OnSomeWire(sys.wire, p) && ServerIndex(p.frame) == s && ServerCounter(p.frame) == k {
      var j := WireTag(macs, sys, p);
      NumberedRange(FreshCounters(|macs|), sys.journal, s);
    }
  }

  lemma WithinTagsBounds(c: seq<nat>, s: nat)
    requires WithinTags(c) && s < |c|
    ensures s < 256 && c[s] < COUNTER_LIMIT
  {
  }

  /** Two packets ever put on links with the same tag are clones of one received frame:
      a tag that is tried again was never on a wire. */
  lemma SameTagSameFrame(macs: seq<nat>, ports: nat, events: seq<Event>, p: Packet, q: Packet)
    requires WithinTags(Run(macs, ports, events).sender)
    requires OnSomeWire(Run(macs, ports, events).wire, p) && OnSomeWire(Run(macs, ports, events).wire, q)
    requires ServerIndex(p.frame) == ServerIndex(q.frame) && ServerCounter(p.frame) == ServerCounter(q.frame)
    ensures p == q
  {
    hide Run, WithTag, ServerIndex, ServerCounter, Apply, WireOk, AllSent, StampsOk, OnSomeWire, WithinTags, Numbered;
    SenderInvariant(macs, ports, events);
    var sys := Run(macs, ports, events);
    var a := WireTag(macs, sys, p);
    var b := WireTag(macs, sys, q);
    if a < b {
      NumberedIncreasing(FreshCounters(|macs|), sys.journal, a, b);
    } else if b < a {
      NumberedIncreasing(FreshCounters(|macs|), sys.journal, b, a);
    }
  }

  // ---------------------------------------------------------------- receiving box

  /** A delivery is a committed frame with its payload and address as first received. */
  ghost predicate Genuine(sys: System, d: Delivery) {
    && d.origin < |sys.received| && d.frame == sys.received[d.origin]
    && Stamp(d.server, d.counter, d.origin) in sys.journal
  }

  /** Deliveries of one server have strictly increasing counters. */
  ghost predicate Increasing(ds: seq<Delivery>) {
    forall i, k :: 0 <= i < k < |ds| && ds[i].server == ds[k].server ==> ds[i].counter < ds[k].counter
  }

  ghost predicate Below(c: seq<nat>, ds: seq<Delivery>) {
    forall i :: 0 <= i < |ds| ==> ds[i].server < |c| && ds[i].counter <= c[ds[i].server]
  }

  ghost predicate Above(c: seq<nat>, ds: seq<Delivery>) {
    forall i :: 0 <= i < |ds| ==> ds[i].server < |c| && c[ds[i].server] < ds[i].counter
  }

  /** What one burst lets through lies strictly above the counters before it and not above
      those after it, in strictly increasing order. */
  lemma {:induction false} AdmittedIncreases(macs: seq<nat>, c: seq<nat>, rx: seq<Packet>, accepts: nat)
    requires |c| == |macs|
    ensures var ds := Delivered(macs, Admitted(c, rx), accepts); var c' := EgressCounters(c, rx);
      && Increasing(ds) && Below(c', ds) && Above(c, ds)
      && forall s :: 0 <= s < |c| ==> c[s] <= c'[s]
  {
    hide ServerIndex, ServerCounter, Restored;
    if rx != [] {
      var n := |rx| - 1;
      AdmittedIncreases(macs, c, rx[..n], accepts);
      var ps, ps' := Admitted(c, rx[..n]), Admitted(c, rx);
      var ds, ds' := Delivered(macs, ps, accepts), Delivered(macs, ps', accepts);
      assert forall i :: 0 <= i < |ps| ==> ds'[i] == ds[i];
    }
  }

  /** Every packet let through came from the burst. */
  lemma {:induction false} AdmittedArrived(c: seq<nat>, rx: seq<Packet>)
    ensures forall i :: 0 <= i < |Admitted(c, rx)| ==> Admitted(c, rx)[i] in rx
  {
    hide Admits;
    if rx != [] {
      var n := |rx| - 1;
      AdmittedArrived(c, rx[..n]);
      assert rx[n] in rx && forall p :: p in rx[..n] ==> p in rx;
    }
  }

  ghost predicate ReceiverOk(sys: System) {
    && Increasing(sys.delivered)
    && Below(sys.receiver, sys.delivered)
    && AllGenuine(sys, sys.delivered)
  }

  ghost predicate AllGenuine(sys: System, ds: seq<Delivery>) {
    forall i :: 0 <= i < |ds| ==> Genuine(sys, ds[i])
  }

  /** Stripping the tag of a packet found on a link gives back the received frame. */
  lemma WirePacketIsGenuine(macs: seq<nat>, sys: System, p: Packet, handed: bool)
    requires |sys.sender| == |macs| && WithinTags(sys.sender)
    requires SenderOk(macs, sys) && OnSomeWire(sys.wire, p)
    ensures ServerIndex(p.frame) < |macs|
    ensures Genuine(sys, Delivery(Restored(macs, p).frame, p.origin, ServerIndex(p.frame),
                                  ServerCounter(p.frame), handed))
  {
    hide WithTag, ServerIndex, ServerCounter, SourceMac, WithSource, OnSomeWire, AllSent, WireOk, JournalOk;
    var j := WireTag(macs, sys, p);
    var s := sys.journal[j];
    RestoreUndoesTag(sys.received[s.origin], s.server, s.counter);
    assert s in sys.journal;
  }

  lemma BurstIsGenuine(macs: seq<nat>, sys: System, e: Event)
    requires |sys.sender| == |sys.receiver| == |macs| && WithinTags(sys.sender)
    requires e.Egress? && Enabled(sys, e) && SenderOk(macs, sys)
    ensures AllGenuine(sys, Delivered(macs, Admitted(sys.receiver, e.arrivals), e.accepts))
  {
    hide ServerIndex, ServerCounter, Restored, Admitted, Genuine, SenderOk, WithinTags, OnSomeWire;
    var ps := Admitted(sys.receiver, e.arrivals);
    var ds := Delivered(macs, ps, e.accepts);
    AdmittedArrived(sys.receiver, e.arrivals);
    forall i | 0 <= i < |ds|
      ensures Genuine(sys, ds[i])
    {
      assert ps[i] in e.arrivals && ps[i] in sys.wire[e.port];
      var k :| 0 <= k < |sys.wire[e.port]| && sys.wire[e.port][k] == ps[i];
      OnThisWire(sys.wire, e.port, k);
      WirePacketIsGenuine(macs, sys, ps[i], i < e.accepts);
    }
  }

  lemma IncreasingConcat(c: seq<nat>, c': seq<nat>, a: seq<Delivery>, b: seq<Delivery>)
    requires |c| == |c'| && forall s :: 0 <= s < |c| ==> c[s] <= c'[s]
    requires Increasing(a) && Below(c, a) && Increasing(b) && Above(c, b) && Below(c', b)
    ensures Increasing(a + b) && Below(c', a + b)
  {
  }

  lemma EgressKeepsReceiver(macs: seq<nat>, sys: System, e: Event)
    requires |sys.sender| == |sys.receiver| == |macs| && WithinTags(sys.sender)
    requires e.Egress? && Enabled(sys, e) && SenderOk(macs, sys) && ReceiverOk(sys)
    ensures ReceiverOk(Step(macs, sys, e))
  {
    hide Admitted, EgressCounters, Delivered, Increasing, Below, Above, SenderOk;
    var ds := Delivered(macs, Admitted(sys.receiver, e.arrivals), e.accepts);
    AdmittedIncreases(macs, sys.receiver, e.arrivals, e.accepts);
    BurstIsGenuine(macs, sys, e);
    IncreasingConcat(sys.receiver, EgressCounters(sys.receiver, e.arrivals), sys.delivered, ds);
  }

  lemma IngressKeepsReceiver(macs: seq<nat>, sys: System, e: Event)
    requires |sys.sender| == |sys.receiver| == |macs|
    requires e.Ingress? && Enabled(sys, e) && ReceiverOk(sys)
    ensures ReceiverOk(Step(macs, sys, e))
  {
    hide Stamps, MaxSent, Sent, Apply, Packets, Increasing, Below;
    var next := Step(macs, sys, e);
    forall i | 0 <= i < |next.delivered|
      ensures Genuine(next, next.delivered[i])
    {
      assert Genuine(sys, sys.delivered[i]);
    }
  }

  /** Sender counters never go down. */
  lemma SenderMonotone(macs: seq<nat>, sys: System, e: Event)
    requires |sys.sender| == |sys.receiver| == |macs|
    requires Enabled(sys, e)
    ensures forall s :: 0 <= s < |macs| ==> sys.sender[s] <= Step(macs, sys, e).sender[s]
  {
    hide Apply, Stamps, MaxSent, Sent, Packets, Numbered, Admitted, EgressCounters, Delivered;
    if e.Ingress? {
      var st := Stamps(macs, sys.sender, e.rx, |sys.received|);
      var m := MaxSent(e.links, |st|);
      StampsAreNumbered(macs, sys.sender, e.rx, |sys.received|);
      NumberedPrefix(sys.sender, st, m);
      forall s | 0 <= s < |macs| ensures sys.sender[s] <= Apply(sys.sender, st[..m])[s] {
        NumberedRange(sys.sender, st[..m], s);
      }
    }
  }

  lemma {:induction false} ReceiverInvariant(macs: seq<nat>, ports: nat, events: seq<Event>)
    requires WithinTags(Run(macs, ports, events).sender)
    ensures ReceiverOk(Run(macs, ports, events))
  {
    hide SenderOk, ReceiverOk, Step, Enabled;
    if events == [] {
      InitiallyReceiverOk(macs, ports);
    } else {
      var before := events[..|events| - 1];
      var sys, e := Run(macs, ports, before), events[|events| - 1];
      if Enabled(sys, e) {
        SenderMonotone(macs, sys, e);
      }
      ReceiverInvariant(macs, ports, before);
      SenderInvariant(macs, ports, before);
      if Enabled(sys, e) {
        if e.Ingress? {
          IngressKeepsReceiver(macs, sys, e);
        } else {
          EgressKeepsReceiver(macs, sys, e);
        }
      }
    }
  }

  lemma InitiallyReceiverOk(macs: seq<nat>, ports: nat)
    ensures ReceiverOk(Initial(macs, ports))
  {
  }

  /** Two deliveries come from different frames, in the order of arrival if of one server. */
  lemma GenuineInOrder(sys: System, d: Delivery, d': Delivery)
    requires JournalOk(sys.sender, sys.journal) && Genuine(sys, d) && Genuine(sys, d')
    requires d.server == d'.server ==> d.counter < d'.counter
    ensures d.origin != d'.origin && (d.server == d'.server ==> d.origin < d'.origin)
  {
    hide Numbered, Apply;
    var a :| 0 <= a < |sys.journal| && sys.journal[a] == Stamp(d.server, d.counter, d.origin);
    var b :| 0 <= b < |sys.journal| && sys.journal[b] == Stamp(d'.server, d'.counter, d'.origin);
    if d.server == d'.server && b < a {
      NumberedIncreasing(FreshCounters(|sys.sender|), sys.journal, b, a);
    }
  }

  /** End to end: in every run over links that lose, delay, reorder and duplicate, each frame
      received by the sending box is let through at most once, octet for octet as it was
      received, source address included, and each server's frames come out in the order they
      went in. */
  lemma EndToEnd(macs: seq<nat>, ports: nat, events: seq<Event>)
    requires WithinTags(Run(macs, ports, events).sender)
    ensures var sys := Run(macs, ports, events); var ds := sys.delivered;
      && (forall i :: 0 <= i < |ds| ==>
            ds[i].origin < |sys.received| && ds[i].frame == sys.received[ds[i].origin]
            && ds[i].server == ServerOf(macs, SourceMac(ds[i].frame)))
      && (forall i, k :: 0 <= i < k < |ds| ==> ds[i].origin != ds[k].origin)
      && (forall i, k :: 0 <= i < k < |ds| && ds[i].server == ds[k].server ==> ds[i].origin < ds[k].origin)
  {
    hide Run, WithinTags, JournalOk, WireOk, AllSent, SourceMac, ServerOf, Below;
    var sys := Run(macs, ports, events);
    var ds := sys.delivered;
    ReceiverInvariant(macs, ports, events);
    SenderInvariant(macs, ports, events);
    forall i, k | 0 <= i < k < |ds|
      ensures ds[i].origin != ds[k].origin
      ensures ds[i].server == ds[k].server ==> ds[i].origin < ds[k].origin
    {
      GenuineInOrder(sys, ds[i], ds[k]);
    }
  }
}
