/** Completeness of the sending box: which frames are tagged, and when every frame of a known
    server goes out, is committed and is delivered. */
module HealthyLink {
  import opened Bytes
  import opened LinkProtocol
  import opened LinkSpec
  import opened MacTag
  import opened MergedArrivals
  import opened RunArrivals
  import opened WireOrder

  // ---------------------------------------------------------------- one burst

  /** Exactly one stamp was given to the frame numbered `origin`. */
  ghost predicate StampedOnce(st: seq<Stamp>, origin: nat) {
    exists j :: 0 <= j < |st| && OnlyStampOf(st, j, origin)
  }

  ghost predicate OnlyStampOf(st: seq<Stamp>, j: nat, origin: nat)
    requires j < |st|
  {
    forall k :: 0 <= k < |st| ==> (st[k].origin == origin <==> k == j)
  }

  ghost predicate Unstamped(st: seq<Stamp>, origin: nat) {
    forall k :: 0 <= k < |st| ==> st[k].origin != origin
  }

  lemma FoundIsListed(macs: seq<nat>, mac: nat)
    ensures ServerOf(macs, mac) < |macs| <==> mac in macs
  {
    assert macs[..|macs|] == macs;
  }

  /** Of a burst exactly the frames whose source address is listed are tagged, each once. */
  lemma {:induction false} StampsAreComplete(macs: seq<nat>, c: seq<nat>, rx: seq<Frame>, base: nat, i: nat)
    requires |c| == |macs| && i < |rx|
    ensures SourceMac(rx[i]) in macs ==> StampedOnce(Stamps(macs, c, rx, base), base + i)
    ensures SourceMac(rx[i]) !in macs ==> Unstamped(Stamps(macs, c, rx, base), base + i)
  {
    hide SourceMac, ServerOf, Apply;
    var n := |rx| - 1;
    var earlier, st := Stamps(macs, c, rx[..n], base), Stamps(macs, c, rx, base);
    FoundIsListed(macs, SourceMac(rx[n]));
    if i < n {
      StampsAreComplete(macs, c, rx[..n], base, i);
      if SourceMac(rx[i]) in macs {
        var j :| 0 <= j < |earlier| && OnlyStampOf(earlier, j, base + i);
        assert OnlyStampOf(st, j, base + i);
      }
    } else if SourceMac(rx[n]) in macs {
      assert OnlyStampOf(st, |earlier|, base + n);
    }
  }

  // ---------------------------------------------------------------- one pass

  /** A link that is down, or for which a clone fails, takes nothing; any other takes what the
      driver accepts of the burst. */
  lemma SentExactly(link: Link, n: nat)
    ensures !link.up ==> Sent(link, n) == 0
    ensures (exists i :: 0 <= i < n && i in link.cloneFails) ==> Sent(link, n) == 0
    ensures link.up && (forall i :: 0 <= i < n ==> i !in link.cloneFails) ==>
      Sent(link, n) <= link.accepts && (Sent(link, n) == n || Sent(link, n) == link.accepts)
  {
  }

  /** The link is up, no clone of a burst of n frames fails, and the driver accepts all. */
  ghost predicate TakesAll(link: Link, n: nat) {
    link.up && n <= link.accepts && forall i :: 0 <= i < n ==> i !in link.cloneFails
  }

  /** The frame numbered `origin` is committed, with a tag of the server of its address, and has
      been put on link l under that tag. */
  ghost predicate CommittedOn(macs: seq<nat>, sys: System, l: nat, origin: nat)
    requires l < |sys.wire| && origin < |sys.received|
  {
    exists j :: 0 <= j < |sys.journal| && IsCommittedOn(macs, sys, l, origin, j)
  }

  ghost predicate IsCommittedOn(macs: seq<nat>, sys: System, l: nat, origin: nat, j: nat)
    requires l < |sys.wire| && origin < |sys.received| && j < |sys.journal|
  {
    && sys.journal[j].origin == origin
    && sys.journal[j].server == ServerOf(macs, SourceMac(sys.received[origin]))
    && PacketOf(sys.received, sys.journal[j]) in sys.wire[l]
  }

  /** In a pass in which a link takes everything, every received frame of a known server is
      committed and put on that link. */
  lemma PassCommitsKnownFrames(macs: seq<nat>, sys: System, e: Event, l: nat, i: nat)
    requires |sys.sender| == |sys.receiver| == |macs| && e.Ingress? && Enabled(sys, e)
    requires l < |e.links| && TakesAll(e.links[l], |e.rx|) && i < |e.rx| && SourceMac(e.rx[i]) in macs
    ensures |Step(macs, sys, e).wire| == |sys.wire| && Step(macs, sys, e).received == sys.received + e.rx
    ensures CommittedOn(macs, Step(macs, sys, e), l, |sys.received| + i)
  {
    hide WithTag, SourceMac, ServerOf, Stamps, Apply, MaxSent, Sent;
    var base, next := |sys.received|, Step(macs, sys, e);
    var st := Stamps(macs, sys.sender, e.rx, base);
    FullPrefix(e.links, l, |st|);
    StampsAreComplete(macs, sys.sender, e.rx, base, i);
    StampsNameServers(macs, sys.sender, e.rx, base);
    var j :| 0 <= j < |st| && OnlyStampOf(st, j, base + i);
    assert st[..|st|] == st;
    assert next.journal[|sys.journal| + j] == st[j];
    assert next.wire[l][|sys.wire[l]| + j] == PacketOf(next.received, st[j]);
    assert IsCommittedOn(macs, next, l, base + i, |sys.journal| + j);
  }

  lemma FullPrefix(links: seq<Link>, l: nat, n: nat)
    requires l < |links| && links[l].up && n <= links[l].accepts && forall i :: 0 <= i < n ==> i !in links[l].cloneFails
    ensures Sent(links[l], n) == MaxSent(links, n) == n
  {
    SentExactly(links[l], n);
  }

  // ---------------------------------------------------------------- whole runs

  /** In every pass of the run link l takes everything. */
  ghost predicate Healthy(events: seq<Event>, l: nat) {
    forall t :: 0 <= t < |events| && events[t].Ingress? ==>
      l < |events[t].links| && TakesAll(events[t].links[l], |events[t].rx|)
  }

  /** Every received frame of a known server is committed and on link l. */
  ghost predicate AllCommittedOn(macs: seq<nat>, sys: System, l: nat)
    requires l < |sys.wire|
  {
    forall o :: 0 <= o < |sys.received| && SourceMac(sys.received[o]) in macs ==> CommittedOn(macs, sys, l, o)
  }

  /** Everything committed is on link l. */
  ghost predicate JournalOn(sys: System, l: nat)
    requires l < |sys.wire|
  {
    forall j :: 0 <= j < |sys.journal| && sys.journal[j].origin < |sys.received| ==>
      PacketOf(sys.received, sys.journal[j]) in sys.wire[l]
  }

  lemma CommittedStaysOn(macs: seq<nat>, sys: System, next: System, l: nat, o: nat)
    requires l < |sys.wire| == |next.wire| && o < |sys.received| && CommittedOn(macs, sys, l, o)
    requires sys.received <= next.received && sys.journal <= next.journal && sys.wire[l] <= next.wire[l]
    ensures CommittedOn(macs, next, l, o)
  {
    hide WithTag, SourceMac, ServerOf;
    var j :| 0 <= j < |sys.journal| && IsCommittedOn(macs, sys, l, o, j);
    var p := PacketOf(sys.received, sys.journal[j]);
    var i :| 0 <= i < |sys.wire[l]| && sys.wire[l][i] == p;
    assert next.journal[j] == sys.journal[j] && next.wire[l][i] == p && PacketOf(next.received, next.journal[j]) == p;
    assert IsCommittedOn(macs, next, l, o, j);
  }

  /** Nothing is taken back: what was received, committed and put on links stays. */
  lemma StepOnlyAdds(macs: seq<nat>, sys: System, e: Event)
    requires |sys.sender| == |sys.receiver| == |macs| && Enabled(sys, e)
    ensures var next := Step(macs, sys, e);
      && sys.received <= next.received && sys.journal <= next.journal && |next.wire| == |sys.wire|
      && (forall l :: 0 <= l < |sys.wire| ==> sys.wire[l] <= next.wire[l])
  {
    hide Stamps, Packets, Sent, MaxSent, Apply, EgressCounters, Admitted, Delivered;
  }

  lemma HealthyPassKeeps(macs: seq<nat>, sys: System, e: Event, l: nat)
    requires |sys.sender| == |sys.receiver| == |macs| && e.Ingress? && Enabled(sys, e)
    requires l < |e.links| && TakesAll(e.links[l], |e.rx|)
    requires AllCommittedOn(macs, sys, l) && JournalOn(sys, l)
    ensures |Step(macs, sys, e).wire| == |sys.wire|
    ensures AllCommittedOn(macs, Step(macs, sys, e), l)
  {
    hide WithTag, SourceMac, CommittedOn, TakesAll, Step;
    StepOnlyAdds(macs, sys, e);
    PassReceives(macs, sys, e);
    var next := Step(macs, sys, e);
    forall o | 0 <= o < |next.received| && SourceMac(next.received[o]) in macs ensures CommittedOn(macs, next, l, o) {
      if o < |sys.received| {
        assert next.received[o] == sys.received[o];
        CommittedStaysOn(macs, sys, next, l, o);
      } else {
        PassCommitsKnownFrames(macs, sys, e, l, o - |sys.received|);
      }
    }
  }

  lemma PassReceives(macs: seq<nat>, sys: System, e: Event)
    requires |sys.sender| == |sys.receiver| == |macs| && e.Ingress? && Enabled(sys, e)
    ensures Step(macs, sys, e).received == sys.received + e.rx
  {
  }

  lemma HealthyPassKeepsJournal(macs: seq<nat>, sys: System, e: Event, l: nat)
    requires |sys.sender| == |sys.receiver| == |macs| && e.Ingress? && Enabled(sys, e)
    requires l < |e.links| && TakesAll(e.links[l], |e.rx|) && JournalOn(sys, l)
    requires forall j :: 0 <= j < |sys.journal| ==> sys.journal[j].origin < |sys.received|
    ensures |Step(macs, sys, e).wire| == |sys.wire| && JournalOn(Step(macs, sys, e), l)
  {
    hide WithTag, SourceMac, ServerOf, Stamps, Apply, MaxSent, Sent;
    var next := Step(macs, sys, e);
    var st := Stamps(macs, sys.sender, e.rx, |sys.received|);
    FullPrefix(e.links, l, |st|);
    assert st[..|st|] == st;
    forall j | 0 <= j < |next.journal| && next.journal[j].origin < |next.received|
      ensures PacketOf(next.received, next.journal[j]) in next.wire[l]
    {
      if j < |sys.journal| {
        var p := PacketOf(sys.received, sys.journal[j]);
        assert PacketOf(next.received, next.journal[j]) == p;
        var i :| 0 <= i < |sys.wire[l]| && sys.wire[l][i] == p;
        assert next.wire[l][i] == p;
      } else {
        var k := j - |sys.journal|;
        assert next.wire[l][|sys.wire[l]| + k] == PacketOf(next.received, st[k]);
      }
    }
  }

  lemma NothingToCommit(macs: seq<nat>, ports: nat, l: nat)
    requires l < ports
    ensures AllCommittedOn(macs, Initial(macs, ports), l) && JournalOn(Initial(macs, ports), l)
  {
  }

  lemma EgressKeepsSendingSide(macs: seq<nat>, sys: System, e: Event)
    requires |sys.sender| == |sys.receiver| == |macs| && e.Egress?
    ensures var next := Step(macs, sys, e);
      next.received == sys.received && next.journal == sys.journal && next.wire == sys.wire
  {
  }

  lemma SameSendingSide(macs: seq<nat>, sys: System, next: System, l: nat)
    requires next.received == sys.received && next.journal == sys.journal && next.wire == sys.wire
    requires l < |sys.wire| && AllCommittedOn(macs, sys, l) && JournalOn(sys, l)
    ensures AllCommittedOn(macs, next, l) && JournalOn(next, l)
  {
    hide WithTag, SourceMac, ServerOf;
    forall o | 0 <= o < |next.received| && SourceMac(next.received[o]) in macs ensures CommittedOn(macs, next, l, o) {
      CommittedStaysOn(macs, sys, next, l, o);
    }
  }

  /** In every run in which link l takes everything in every pass, every received frame of a known
      server is committed and was put on link l, and so was everything committed. */
  lemma {:induction false} HealthyLinkCommitsAll(macs: seq<nat>, ports: nat, events: seq<Event>, l: nat)
    requires l < ports && Healthy(events, l)
    ensures AllCommittedOn(macs, Run(macs, ports, events), l) && JournalOn(Run(macs, ports, events), l)
  {
    hide AllCommittedOn, JournalOn, Step, Enabled, TakesAll;
    if events == [] {
      NothingToCommit(macs, ports, l);
    } else {
      var n := |events| - 1;
      var sys, e := Run(macs, ports, events[..n]), events[n];
      assert forall t :: 0 <= t < n ==> events[..n][t] == events[t];
      HealthyLinkCommitsAll(macs, ports, events[..n], l);
      if Enabled(sys, e) {
        if e.Ingress? {
          JournalIsOfReceived(macs, ports, events[..n]);
          HealthyPassKeeps(macs, sys, e, l);
          HealthyPassKeepsJournal(macs, sys, e, l);
        } else {
          EgressKeepsSendingSide(macs, sys, e);
          SameSendingSide(macs, sys, Step(macs, sys, e), l);
        }
      }
    }
  }

  lemma JournalIsOfReceived(macs: seq<nat>, ports: nat, events: seq<Event>)
    ensures forall j :: 0 <= j < |Run(macs, ports, events).journal| ==>
      Run(macs, ports, events).journal[j].origin < |Run(macs, ports, events).received|
  {
    hide Run, JournalOk, WireOk, AllSent, SourceMac, ServerOf;
    SenderInvariant(macs, ports, events);
  }

  /** So such a link has been given every number up to the sender's counter. */
  lemma HealthyLinkIsFull(macs: seq<nat>, ports: nat, events: seq<Event>, l: nat, s: nat, k: nat)
    requires l < ports && Healthy(events, l) && s < |macs| && WithinTags(Run(macs, ports, events).sender)
    requires 1 <= k <= Run(macs, ports, events).sender[s]
    ensures Carries(Run(macs, ports, events).wire[l], s, k)
  {
    hide Run, Healthy, WithTag, WithinTags, ServerIndex, ServerCounter, OnSomeWire, AllCommittedOn;
    var sys := Run(macs, ports, events);
    HealthyLinkCommitsAll(macs, ports, events, l);
    CommittedTagsAreGapFree(macs, ports, events, s, k);
    var j :| 0 <= j < |sys.journal| && sys.journal[j].server == s && sys.journal[j].counter == k
           && sys.journal[j].origin < |sys.received| && OnSomeWire(sys.wire, PacketOf(sys.received, sys.journal[j]));
    var p := PacketOf(sys.received, sys.journal[j]);
    var i :| 0 <= i < |sys.wire[l]| && sys.wire[l][i] == p;
    WithinTagsBounds(sys.sender, s);
    TagReadsBack(sys.received[sys.journal[j].origin], s, k);
    assert Is(sys.wire[l][i], s, k);
  }

  /** Every received frame of a known server has been delivered, octet for octet. */
  ghost predicate EveryKnownFrameDelivered(macs: seq<nat>, sys: System) {
    forall o :: 0 <= o < |sys.received| && SourceMac(sys.received[o]) in macs ==> DeliveredFrame(sys, o)
  }

  lemma CommittedAndDelivered(macs: seq<nat>, sys: System, l: nat)
    requires l < |sys.wire| && AllCommittedOn(macs, sys, l)
    requires forall s :: 0 <= s < |macs| ==> AllDelivered(sys, s)
    ensures EveryKnownFrameDelivered(macs, sys)
  {
    hide WithTag, SourceMac, DeliveredFrame;
    forall o | 0 <= o < |sys.received| && SourceMac(sys.received[o]) in macs ensures DeliveredFrame(sys, o) {
      var j :| 0 <= j < |sys.journal| && IsCommittedOn(macs, sys, l, o, j);
      FoundIsListed(macs, SourceMac(sys.received[o]));
      assert AllDelivered(sys, sys.journal[j].server);
    }
  }

  /** A link takes everything in every pass and brings it all in order, and the others bring what
      they were given without gaps, or nothing: then every frame that the sending box received from
      a known server comes out of the receiving box, octet for octet. */
  lemma HealthyLinkDeliversAll(macs: seq<nat>, ports: nat, events: seq<Event>, l: nat, ks: seq<seq<nat>>)
    requires l < ports && Healthy(events, l) && WithinTags(Run(macs, ports, events).sender)
    requires ArrivedInFull(macs, ports, events, l)
    requires |ks| == |macs| && forall s :: 0 <= s < |macs| ==> OthersGapFree(macs, ports, events, l, s, ks[s])
    ensures EveryKnownFrameDelivered(macs, Run(macs, ports, events))
  {
    hide *;
    forall s | 0 <= s < |macs| ensures AllDelivered(Run(macs, ports, events), s) {
      HealthyLinkDeliversServer(macs, ports, events, l, s, ks[s]);
    }
    HealthyLinkCommitsAll(macs, ports, events, l);
    CommittedAndDelivered(macs, Run(macs, ports, events), l);
  }

  /** What the links other than l brought of server s is in order and without gaps from 1 on. */
  ghost predicate OthersGapFree(macs: seq<nat>, ports: nat, events: seq<Event>, l: nat, s: nat, ks: seq<nat>)
    requires s < |macs|
  {
    |ks| == ports && forall m :: 0 <= m < ports && m != l ==>
      ks[m] <= Run(macs, ports, events).sender[s] &&
      Counters(By(Arrivals(macs, ports, events), Via(macs, ports, events), m), s) == Upto(ks[m])
  }

  lemma HealthyLinkDeliversServer(macs: seq<nat>, ports: nat, events: seq<Event>, l: nat, s: nat, ks: seq<nat>)
    requires l < ports && Healthy(events, l) && WithinTags(Run(macs, ports, events).sender)
    requires ArrivedInFull(macs, ports, events, l)
    requires s < |macs| && OthersGapFree(macs, ports, events, l, s, ks)
    ensures AllDelivered(Run(macs, ports, events), s)
  {
    hide Run, WithinTags, Healthy, ArrivedInFull, Carries, AllDelivered, Counters, By, Upto;
    forall k | 1 <= k <= Run(macs, ports, events).sender[s] ensures Carries(Run(macs, ports, events).wire[l], s, k) {
      HealthyLinkIsFull(macs, ports, events, l, s, k);
    }
    FullLinkDeliversAll(macs, ports, events, l, s, ks);
  }

  /** With one link, a frame of a known server received in a pass in which the link takes everything
      is delivered once the link has brought all it was given, in order, whatever happened in the
      other passes. */
  lemma FrameOfHealthyPassIsDelivered(macs: seq<nat>, events: seq<Event>, t: nat, i: nat)
    requires t < |events| && events[t].Ingress? && Enabled(Run(macs, 1, events[..t]), events[t])
    requires |events[t].links| == 1 && TakesAll(events[t].links[0], |events[t].rx|)
    requires i < |events[t].rx| && SourceMac(events[t].rx[i]) in macs
    requires WithinTags(Run(macs, 1, events).sender) && ArrivedInFull(macs, 1, events, 0)
    ensures var o := |Run(macs, 1, events[..t]).received| + i;
      && o < |Run(macs, 1, events).received| && Run(macs, 1, events).received[o] == events[t].rx[i]
      && DeliveredFrame(Run(macs, 1, events), o)
  {
    hide Run, Enabled, Step, TakesAll, CommittedOn, ArrivedInFull, WithinTags, DeliveredFrame, SourceMac, AllDelivered;
    var sys, e := Run(macs, 1, events[..t]), events[t];
    var o := |sys.received| + i;
    PassCommitsKnownFrames(macs, sys, e, 0, i);
    RunSteps(macs, 1, events, t);
    RunOnlyAdds(macs, 1, events, t + 1);
    var mid, now := Run(macs, 1, events[..t + 1]), Run(macs, 1, events);
    assert now.received[o] == mid.received[o] == e.rx[i];
    CommittedStaysOn(macs, mid, now, 0, o);
    DeliveredIfCommitted(macs, now, o, events);
  }

  lemma RunSteps(macs: seq<nat>, ports: nat, events: seq<Event>, t: nat)
    requires t < |events| && Enabled(Run(macs, ports, events[..t]), events[t])
    ensures events[t].Ingress? ==> |events[t].links| == ports
    ensures Run(macs, ports, events[..t + 1]) == Step(macs, Run(macs, ports, events[..t]), events[t])
  {
    hide Step;
    assert events[..t + 1][..t] == events[..t];
  }

  lemma {:induction false} RunOnlyAdds(macs: seq<nat>, ports: nat, events: seq<Event>, t: nat)
    requires t <= |events|
    ensures var sys, end := Run(macs, ports, events[..t]), Run(macs, ports, events);
      && sys.received <= end.received && sys.journal <= end.journal
      && forall l :: 0 <= l < ports ==> sys.wire[l] <= end.wire[l]
  {
    hide Step, Enabled;
    var n := |events| - 1;
    if t == |events| {
      assert events[..t] == events;
    } else {
      RunOnlyAdds(macs, ports, events[..n], t);
      assert events[..n][..t] == events[..t];
      if Enabled(Run(macs, ports, events[..n]), events[n]) {
        StepOnlyAdds(macs, Run(macs, ports, events[..n]), events[n]);
      }
    }
  }

  lemma DeliveredIfCommitted(macs: seq<nat>, sys: System, o: nat, events: seq<Event>)
    requires sys == Run(macs, 1, events) && o < |sys.received| && SourceMac(sys.received[o]) in macs
    requires CommittedOn(macs, sys, 0, o) && WithinTags(sys.sender) && ArrivedInFull(macs, 1, events, 0)
    ensures DeliveredFrame(sys, o)
  {
    hide Run, WithinTags, ArrivedInFull, DeliveredFrame, SourceMac, WithTag, Numbers, Upto;
    var j :| 0 <= j < |sys.journal| && IsCommittedOn(macs, sys, 0, o, j);
    FoundIsListed(macs, SourceMac(sys.received[o]));
    OneLinkDeliversAll(macs, events, sys.journal[j].server);
  }
}
