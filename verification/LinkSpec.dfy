/** What one pass of the ingress and of the egress pipeline does, as functions of the
    burst received and of what the driver did with it. */
module LinkSpec {
  import opened Bytes
  import opened MacTag

  const MAX_PKT_BURST: nat := 32

  /** A tag given to a frame: server, counter, and which received frame it was given to. */
  datatype Stamp = Stamp(server: nat, counter: nat, origin: nat)

  /** A frame on a wire; `origin` is a history variable no pipeline looks at. */
  datatype Packet = Packet(frame: Frame, origin: nat)

  /** What one egress-side link does during one ingress pass: is it up when the mask is
      read, which clone allocations fail, how many packets would the driver accept. */
  datatype Link = Link(up: bool, cloneFails: set<nat>, accepts: nat)

  /** The first server with this address, or the number of servers. */
  function ServerOf(macs: seq<nat>, mac: nat): (i: nat)
    ensures i <= |macs| && mac !in macs[..i]
    ensures i < |macs| ==> macs[i] == mac
  {
    if macs == [] || macs[0] == mac then 0 else 1 + ServerOf(macs[1..], mac)
  }

  /** Counters after the given stamps have been issued. */
  function Apply(c: seq<nat>, stamps: seq<Stamp>): (r: seq<nat>)
    ensures |r| == |c|
  {
    if stamps == [] then c
    else
      var s := stamps[|stamps| - 1];
      var r := Apply(c, stamps[..|stamps| - 1]);
      if s.server < |c| then r[s.server := s.counter] else r
  }

  /** The stamps an ingress pass gives to a burst; `base` numbers the first frame. */
  function Stamps(macs: seq<nat>, c: seq<nat>, rx: seq<Frame>, base: nat): (st: seq<Stamp>)
    requires |c| == |macs|
    ensures |st| <= |rx|
    ensures forall i :: 0 <= i < |st| ==> base <= st[i].origin < base + |rx|
  {
    if rx == [] then []
    else
      var n := |rx| - 1;
      var p := Stamps(macs, c, rx[..n], base);
      var s := ServerOf(macs, SourceMac(rx[n]));
      if s == |macs| then p else p + [Stamp(s, Apply(c, p)[s] + 1, base + n)]
  }

  function PacketOf(received: seq<Frame>, s: Stamp): Packet
    requires s.origin < |received|
  {
    Packet(WithTag(received[s.origin], s.server, s.counter), s.origin)
  }

  /** The stamped frames of a burst, as they go out on a link. */
  function Packets(received: seq<Frame>, stamps: seq<Stamp>): (ps: seq<Packet>)
    requires forall i :: 0 <= i < |stamps| ==> stamps[i].origin < |received|
    ensures |ps| == |stamps|
  {
    seq(|stamps|, i requires 0 <= i < |stamps| => PacketOf(received, stamps[i]))
  }

  predicate ClonesAll(link: Link, n: nat) {
    forall i :: 0 <= i < n ==> i !in link.cloneFails
  }

  /** How many of n stamped frames a link takes. */
  function Sent(link: Link, n: nat): (k: nat)
    ensures k <= n
  {
    if !link.up || !ClonesAll(link, n) then 0 else if link.accepts < n then link.accepts else n
  }

  /** The longest prefix any link took. */
  function MaxSent(links: seq<Link>, n: nat): (m: nat)
    ensures m <= n
    ensures forall l :: 0 <= l < |links| ==> Sent(links[l], n) <= m
    ensures m > 0 ==> exists l :: 0 <= l < |links| && Sent(links[l], n) == m
  {
    if links == [] then 0
    else
      var k := |links| - 1;
      var m := MaxSent(links[..k], n);
      assert m > 0 ==> exists l :: 0 <= l < k && Sent(links[..k][l], n) == m && Sent(links[l], n) == m;
      assert forall l :: 0 <= l < k ==> Sent(links[..k][l], n) <= m && links[..k][l] == links[l];
      if Sent(links[k], n) > m then Sent(links[k], n) else m
  }

  /** Does the egress side let this frame through? */
  predicate Admits(c: seq<nat>, f: Frame) {
    ServerIndex(f) < |c| && c[ServerIndex(f)] < ServerCounter(f)
  }

  /** Egress counters after a burst. */
  function EgressCounters(c: seq<nat>, rx: seq<Packet>): (r: seq<nat>)
    ensures |r| == |c|
  {
    if rx == [] then c
    else
      var f := rx[|rx| - 1].frame;
      var r := EgressCounters(c, rx[..|rx| - 1]);
      if Admits(r, f) then r[ServerIndex(f) := ServerCounter(f)] else r
  }

  /** The packets of a burst the egress side lets through, in order. */
  function Admitted(c: seq<nat>, rx: seq<Packet>): (ps: seq<Packet>)
    ensures |ps| <= |rx|
    ensures forall i :: 0 <= i < |ps| ==> ServerIndex(ps[i].frame) < |c|
  {
    if rx == [] then []
    else
      var n := |rx| - 1;
      var ps := Admitted(c, rx[..n]);
      if Admits(EgressCounters(c, rx[..n]), rx[n].frame) then ps + [rx[n]] else ps
  }

  /** The frame handed to the server side: the server's own address is put back. */
  function Restored(macs: seq<nat>, p: Packet): Packet
    requires ServerIndex(p.frame) < |macs|
  {
    Packet(WithSource(p.frame, macs[ServerIndex(p.frame)]), p.origin)
  }
}
