/** The parser against the header stacks: when the lengths it reports describe the packet. */
module TunnelLayout {

  import opened Bytes
  import opened HeaderStacks
  import opened TunnelParser

  function KindOf(t: Tunnel): Kind {
    match t
    case NoTunnel => NoKind
    case Gtp(_) => GtpKind
    case Vxlan(_, _) => VxlanKind
    case VxlanGpe(_) => VxlanGpeKind
    case Geneve(_, _) => GeneveKind
    case Gre(_, _, _, _) => GreKind
    case IpInIp(_) => IpIpKind
  }

  /** The inner lengths are those of the header `ip`. */
  ghost predicate Describes(i: Info, ip: Ip) {
    && i.ethertype == EtherType(ip) && i.l3Len == IpLength(ip)
    && i.l4Proto == Number(ip.l4) && i.l4Len == L4Length(ip.l4)
  }

  /** The inner part of the record after a tunnel: `distance` octets from the end of the outer IP
      header there is the IP header `ip`. */
  ghost predicate InnerIs(i: Info, distance: nat, ip: Ip) {
    i.isTunnel && i.l2Len == distance && Describes(i, ip)
  }

  /** Does the result describe the stack? Adding the outer offset, the outer IP length and the
      inner layer 2 length gives the inner IP header, and the record describes that header. */
  ghost predicate Right(d: Dissection, s: Stack) {
    var l2 := 14 + 4 * s.tags;
    && d.kind == KindOf(s.tunnel)
    && if s.tunnel.NoTunnel? then
         !d.info.isTunnel && d.info.l2Len == d.l3 == l2 && Describes(d.info, s.ip)
       else
         && d.outerL3 == l2 && d.l3 == l2 + IpLength(s.ip) + Distance(s.tunnel)
         && d.info.outerEthertype == EtherType(s.ip) && d.info.outerL2Len == l2 && d.info.outerL3Len == IpLength(s.ip)
         && InnerIs(d.info, Distance(s.tunnel), InnerIp(s.tunnel))
  }

  // What a UDP header, or what follows an IP header, is taken for, by the numbers in it.

  ghost predicate LooksLikeGtp(p: Packet, udp: nat) {
    DstPort(p, udp) in {2123, 2152} || SrcPort(p, udp) == 2123
  }

  ghost predicate LooksLikeGpe(p: Packet, c: Config, udp: nat) {
    DstPort(p, udp) == c.gpePort && Octet(p, udp + 8 + 3) in {0, 1, 2, 3}
  }

  ghost predicate LooksLikeVxlan(p: Packet, c: Config, udp: nat) {
    DstPort(p, udp) == 4789 || c.nicTunnel
  }

  ghost predicate LooksLikeGeneve(p: Packet, c: Config, udp: nat) {
    DstPort(p, udp) == c.genevePort && Word(p, udp + 8 + 2) in {0, 0x0800, 0x86DD, 0x6558}
  }

  ghost predicate LooksLikeGre(p: Packet, gre: nat) {
    Word(p, gre + 2) in {0x0800, 0x86DD, 0x6558}
  }

  ghost predicate LooksLikeIp(p: Packet, at: nat) {
    Octet(p, at) / 16 in {4, 6}
  }

  lemma GuardsAre(p: Packet, c: Config, at: nat)
    ensures GtpClaims(p, at) <==> LooksLikeGtp(p, at)
    ensures GpeClaims(p, c, at) <==> LooksLikeGpe(p, c, at)
    ensures VxlanClaims(p, c, at) <==> LooksLikeVxlan(p, c, at)
    ensures GeneveClaims(p, c, at) <==> LooksLikeGeneve(p, c, at)
    ensures GreClaims(p, at) <==> LooksLikeGre(p, at)
    ensures IpIpClaims(p, at) <==> LooksLikeIp(p, at)
  {
  }

  /** The dispatch takes the packet for something else: it looks like a tunnel that is tried first,
      or, when it has no tunnel, like any. */
  ghost predicate Mistaken(p: Packet, c: Config, s: Stack) {
    var at := 14 + 4 * s.tags + IpLength(s.ip);
    match s.tunnel
    case NoTunnel =>
      || (s.ip.l4.Udp? &&
          (LooksLikeGtp(p, at) || LooksLikeGpe(p, c, at) || LooksLikeVxlan(p, c, at) || LooksLikeGeneve(p, c, at)))
      || (Number(s.ip.l4) == 47 && LooksLikeGre(p, at))
      || (Number(s.ip.l4) == 4 && LooksLikeIp(p, at))
    case Gtp(_) => false
    case VxlanGpe(_) => LooksLikeGtp(p, at)
    case Vxlan(_, _) => LooksLikeGtp(p, at) || LooksLikeGpe(p, c, at)
    case Geneve(_, _) => LooksLikeGtp(p, at) || LooksLikeGpe(p, c, at) || LooksLikeVxlan(p, c, at)
    case Gre(_, _, _, _) => false
    case IpInIp(_) => false
  }

  // ---------------------------------------------------------------- one layer

  lemma Ipv4Right(p: Packet, at: nat, ip: Ip, i: Info)
    requires ip.V4? && HoldsIp(p, at, ip)
    ensures Describes(Ipv4Parsed(p, at, i).(ethertype := ETHER_IPV4), ip)
  {
    assert Octet(p, at) % 16 == ip.words;
  }

  lemma Ipv6Right(p: Packet, at: nat, ip: Ip, i: Info)
    requires ip.V6? && HoldsIp(p, at, ip)
    ensures Describes(Ipv6Parsed(p, at, i).(ethertype := ETHER_IPV6), ip)
  {
  }

  lemma {:induction false} TagsRight(p: Packet, at: nat, tags: nat, ip: Ip, k: nat)
    requires k <= tags && HoldsFrame(p, at, tags, ip)
    ensures TagsParsed(p, at, 14 + 4 * k) == (14 + 4 * tags, EtherType(ip))
    decreases tags - k
  {
    if k < tags {
      assert IsTag(TypeAt(p, at, k));
      TagsRight(p, at, tags, ip, k + 1);
    }
  }

  lemma FrameRight(p: Packet, at: nat, tags: nat, ip: Ip, i: Info)
    requires HoldsFrame(p, at, tags, ip)
    ensures Describes(EthernetParsed(p, at, i), ip) && EthernetParsed(p, at, i).l2Len == 14 + 4 * tags
    ensures EthernetParsed(p, at, i) ==
      i.(ethertype := EtherType(ip), l2Len := 14 + 4 * tags, l3Len := IpLength(ip), l4Proto := Number(ip.l4),
        l4Len := L4Length(ip.l4))
  {
    hide TagsParsed, Octet, HoldsIp, Ipv4Parsed, Ipv6Parsed;
    TagsRight(p, at, tags, ip, 0);
    var j := i.(l2Len := 14 + 4 * tags, ethertype := EtherType(ip));
    if ip.V4? {
      Ipv4Right(p, at + 14 + 4 * tags, ip, j);
      Ipv4Keeps(p, at + 14 + 4 * tags, j);
    } else {
      Ipv6Right(p, at + 14 + 4 * tags, ip, j);
      Ipv6Keeps(p, at + 14 + 4 * tags, j);
    }
  }

  /** An IP header sets the layer 3 and 4 fields and nothing else. */
  lemma Ipv4Keeps(p: Packet, at: nat, i: Info)
    ensures var j := Ipv4Parsed(p, at, i); j == i.(l3Len := j.l3Len, l4Proto := j.l4Proto, l4Len := j.l4Len)
  {
  }

  lemma Ipv6Keeps(p: Packet, at: nat, i: Info)
    ensures var j := Ipv6Parsed(p, at, i); j == i.(l3Len := j.l3Len, l4Proto := j.l4Proto, l4Len := j.l4Len)
  {
  }

  lemma BareRight(p: Packet, at: nat, ip: Ip, i: Info)
    requires HoldsIp(p, at, ip)
    ensures BareParsed(p, ip.V6?, at, i) ==
      i.(ethertype := EtherType(ip), l2Len := 0, l3Len := IpLength(ip), l4Proto := Number(ip.l4),
        l4Len := L4Length(ip.l4))
  {
    hide Octet, HoldsIp, Ipv4Parsed, Ipv6Parsed;
    if ip.V4? {
      Ipv4Right(p, at, ip, i);
      Ipv4Keeps(p, at, i);
    } else {
      Ipv6Right(p, at, ip, i);
      Ipv6Keeps(p, at, i);
    }
  }

  // ---------------------------------------------------------------- one tunnel

  /** The record after a tunnel whose outer part was `i`. */
  ghost function Expected(i: Info, t: Tunnel): Info
    requires !t.NoTunnel?
  {
    var ip := InnerIp(t);
    Saved(i).(l2Len := Distance(t), ethertype := EtherType(ip), l3Len := IpLength(ip), l4Proto := Number(ip.l4),
      l4Len := L4Length(ip.l4), outerL4Proto := if t.IpInIp? then i.outerL4Proto else i.l4Proto)
  }

  lemma GtpRight(p: Packet, udp: nat, c: Config, number: nat, t: Tunnel, i: Info)
    requires t.Gtp? && HoldsTunnel(p, udp, c, number, t)
    ensures GtpClaims(p, udp) && GtpParsed(p, udp, i) == Expected(i, t)
  {
    hide BareParsed;
    var j := Saved(i).(l2Len := 0);
    assert Octet(p, udp + 16) / 16 == if t.ip.V4? then 4 else 6;
    BareRight(p, udp + 16, t.ip, j);
  }

  lemma VxlanRight(p: Packet, udp: nat, c: Config, number: nat, t: Tunnel, i: Info)
    requires t.Vxlan? && HoldsTunnel(p, udp, c, number, t)
    ensures VxlanClaims(p, c, udp) && VxlanParsed(p, c, udp, i) == Expected(i, t)
  {
    hide EthernetParsed, HoldsFrame, Octet;
    FrameRight(p, udp + 16, t.tags, t.ip, Saved(i));
  }

  lemma InnerRight(p: Packet, at: nat, inner: Inner, i: Info)
    requires HoldsInner(p, at, inner)
    ensures (if inner.Link? then EthernetParsed(p, at, i) else BareParsed(p, inner.ip.V6?, at, i)) ==
      i.(ethertype := EtherType(inner.ip), l2Len := LinkLength(inner), l3Len := IpLength(inner.ip),
         l4Proto := Number(inner.ip.l4), l4Len := L4Length(inner.ip.l4))
  {
    hide EthernetParsed, BareParsed, HoldsFrame, HoldsIp;
    if inner.Link? {
      FrameRight(p, at, inner.tags, inner.ip, i);
    } else {
      BareRight(p, at, inner.ip, i);
    }
  }

  lemma GpeRight(p: Packet, udp: nat, c: Config, number: nat, t: Tunnel, i: Info)
    requires t.VxlanGpe? && HoldsTunnel(p, udp, c, number, t)
    ensures GpeClaims(p, c, udp) && GpeParsed(p, c, udp, i) == Expected(i, t)
  {
    hide EthernetParsed, BareParsed, HoldsInner, Octet;
    InnerRight(p, udp + 16, t.inner, Saved(i));
  }

  lemma GeneveRight(p: Packet, udp: nat, c: Config, number: nat, t: Tunnel, i: Info)
    requires t.Geneve? && HoldsTunnel(p, udp, c, number, t)
    ensures GeneveClaims(p, c, udp) && GeneveParsed(p, c, udp, i) == Expected(i, t)
  {
    hide EthernetParsed, BareParsed, HoldsInner, Octet, Word;
    InnerRight(p, udp + 16 + 4 * t.options, t.inner, Saved(i));
  }

  lemma GreLengthRight(p: Packet, gre: nat, checksum: bool, key: bool, sequence: bool)
    requires Octet(p, gre) ==
      (if checksum then 0x80 else 0) + (if key then 0x20 else 0) + (if sequence then 0x10 else 0)
    ensures GreLenParsed(p, gre) == GreLength(checksum, key, sequence)
  {
    hide Octet;
    var flags := Word(p, gre);
    assert flags / 0x100 == Octet(p, gre);
    assert flags / 0x8000 == flags / 0x100 / 0x80;
    assert flags / 0x2000 == flags / 0x100 / 0x20;
    assert flags / 0x1000 == flags / 0x100 / 0x10;
  }

  lemma GreRight(p: Packet, gre: nat, c: Config, number: nat, t: Tunnel, i: Info)
    requires t.Gre? && HoldsTunnel(p, gre, c, number, t)
    ensures GreClaims(p, gre) && GreParsed(p, gre, i) == Expected(i, t)
  {
    hide EthernetParsed, BareParsed, HoldsInner, Octet, Word, GreLenParsed;
    GreLengthRight(p, gre, t.checksum, t.key, t.sequence);
    InnerRight(p, gre + GreLength(t.checksum, t.key, t.sequence), t.inner, Saved(i));
  }

  lemma IpIpRight(p: Packet, at: nat, c: Config, number: nat, t: Tunnel, i: Info)
    requires t.IpInIp? && HoldsTunnel(p, at, c, number, t)
    ensures IpIpClaims(p, at) && IpIpParsed(p, at, i) == Expected(i, t)
  {
    hide BareParsed;
    assert Octet(p, at) / 16 == if t.ip.V4? then 4 else 6;
    BareRight(p, at, t.ip, Saved(i).(outerL4Proto := i.outerL4Proto));
  }

  // ---------------------------------------------------------------- the whole packet

  /** After the outer headers of a packet that holds a stack. */
  ghost function Outer(before: Info, s: Stack): Info {
    before.(isTunnel := false, ethertype := EtherType(s.ip), l2Len := 14 + 4 * s.tags, l3Len := IpLength(s.ip),
      l4Proto := Number(s.ip.l4), l4Len := L4Length(s.ip.l4))
  }

  /** What the tunnel dispatch makes of a packet that holds a stack. */
  lemma TunnelRightExactly(p: Packet, c: Config, s: Stack, i: Info)
    requires Holds(p, c, s) && i.l4Proto == Number(s.ip.l4) && !i.isTunnel
    ensures var (j, kind) := TunnelParsed(p, c, 14 + 4 * s.tags + IpLength(s.ip), i);
      && (j.isTunnel <==> kind != NoKind)
      && (kind == KindOf(s.tunnel) <==> !Mistaken(p, c, s))
      && (kind == KindOf(s.tunnel) ==> j == if s.tunnel.NoTunnel? then i else Expected(i, s.tunnel))
  {
    hide GtpParsed, GpeParsed, VxlanParsed, GeneveParsed, GreParsed, IpIpParsed;
    hide GtpClaims, GpeClaims, VxlanClaims, GeneveClaims, GreClaims, IpIpClaims;
    hide LooksLikeGtp, LooksLikeGpe, LooksLikeVxlan, LooksLikeGeneve, LooksLikeGre, LooksLikeIp;
    hide Expected, HoldsFrame, HoldsL4;
    var at := 14 + 4 * s.tags + IpLength(s.ip);
    EveryTunnelIsMarked(p, c, at, i);
    GuardsAre(p, c, at);
    L4NumberIsOther(p, s);
    match s.tunnel
    case NoTunnel =>
    case Gtp(_) => GtpRight(p, at, c, i.l4Proto, s.tunnel, i);
    case Vxlan(_, _) => VxlanRight(p, at, c, i.l4Proto, s.tunnel, i);
    case VxlanGpe(_) => GpeRight(p, at, c, i.l4Proto, s.tunnel, i);
    case Geneve(_, _) => GeneveRight(p, at, c, i.l4Proto, s.tunnel, i);
    case Gre(_, _, _, _) => GreRight(p, at, c, i.l4Proto, s.tunnel, i);
    case IpInIp(_) => IpIpRight(p, at, c, i.l4Proto, s.tunnel, i);
  }

  lemma L4NumberIsOther(p: Packet, s: Stack)
    requires HoldsFrame(p, 0, s.tags, s.ip)
    ensures s.ip.l4.OtherL4? ==> s.ip.l4.number != PROTO_UDP
  {
  }

  /** For every packet that holds a supported header stack the result describes the stack exactly
      when no other guard of the dispatch fires first. */
  lemma RightExactly(p: Packet, c: Config, s: Stack, before: Info)
    requires Holds(p, c, s)
    ensures Right(Dissected(p, c, true, before), s) <==> !Mistaken(p, c, s)
  {
    hide EthernetParsed, TunnelParsed, HoldsFrame, HoldsTunnel, Mistaken;
    FrameRight(p, 0, s.tags, s.ip, before.(isTunnel := false));
    TunnelRightExactly(p, c, s, Outer(before, s));
  }

  /** Then the IP header that the packet has at the place reported is the innermost one. */
  lemma PlaceIsInnermost(p: Packet, c: Config, s: Stack, before: Info)
    requires Holds(p, c, s) && !Mistaken(p, c, s)
    ensures HoldsIp(p, Dissected(p, c, true, before).l3, if s.tunnel.NoTunnel? then s.ip else InnerIp(s.tunnel))
  {
    hide HoldsIp, Mistaken, Dissected, Octet, Word;
    RightExactly(p, c, s, before);
  }

  /** The outer part of the record is what it was. */
  ghost predicate SameOuter(i: Info, before: Info) {
    && i.outerEthertype == before.outerEthertype && i.outerL2Len == before.outerL2Len
    && i.outerL3Len == before.outerL3Len && i.outerL4Proto == before.outerL4Proto
  }

  /** The result describes the outermost headers only. */
  ghost predicate OutermostOnly(d: Dissection, tags: nat, ip: Ip, before: Info) {
    && d.kind == NoKind && !d.info.isTunnel && d.l3 == d.outerL3 == d.info.l2Len == 14 + 4 * tags
    && Describes(d.info, ip) && SameOuter(d.info, before)
  }

  /** When tunnels are not to be parsed the result describes the outermost headers, whatever they
      carry, and leaves the outer part of the record alone. */
  lemma WithoutTunnelParsing(p: Packet, c: Config, tags: nat, ip: Ip, before: Info)
    requires HoldsFrame(p, 0, tags, ip)
    ensures OutermostOnly(Dissected(p, c, false, before), tags, ip, before)
  {
    hide EthernetParsed, HoldsFrame;
    FrameRight(p, 0, tags, ip, before.(isTunnel := false));
  }

  /** When they are, it is the same for a packet without a tunnel that no guard mistakes for one. */
  lemma WithoutTunnel(p: Packet, c: Config, s: Stack, before: Info)
    requires Holds(p, c, s) && s.tunnel.NoTunnel? && !Mistaken(p, c, s)
    ensures OutermostOnly(Dissected(p, c, true, before), s.tags, s.ip, before)
  {
    hide EthernetParsed, TunnelParsed, HoldsFrame, HoldsTunnel, Mistaken;
    FrameRight(p, 0, s.tags, s.ip, before.(isTunnel := false));
    TunnelRightExactly(p, c, s, Outer(before, s));
  }

  /** A packet of another type has no network header to describe, and no tunnel. */
  lemma NeitherIpv4NorIpv6(p: Packet, c: Config, parseTunnel: bool, tags: nat, before: Info)
    requires forall k :: 0 <= k < tags ==> IsTag(TypeAt(p, 0, k))
    requires !IsTag(TypeAt(p, 0, tags)) && TypeAt(p, 0, tags) != ETHER_IPV4 && TypeAt(p, 0, tags) != ETHER_IPV6
    ensures var d := Dissected(p, c, parseTunnel, before);
      && d.kind == NoKind && !d.info.isTunnel && d.l3 == d.outerL3 == d.info.l2Len == 14 + 4 * tags
      && d.info.ethertype == TypeAt(p, 0, tags) && d.info.l3Len == d.info.l4Len == d.info.l4Proto == 0
      && SameOuter(d.info, before)
  {
    hide Octet;
    TagsEnd(p, 0, tags, 0);
  }

  lemma {:induction false} TagsEnd(p: Packet, at: nat, tags: nat, k: nat)
    requires k <= tags && !IsTag(TypeAt(p, at, tags)) && forall j :: 0 <= j < tags ==> IsTag(TypeAt(p, at, j))
    ensures TagsParsed(p, at, 14 + 4 * k) == (14 + 4 * tags, TypeAt(p, at, tags))
    decreases tags - k
  {
    if k < tags {
      assert IsTag(TypeAt(p, at, k));
      TagsEnd(p, at, tags, k + 1);
    }
  }

  /** A GTP packet that is not data has no inner headers: its inner part starts behind the GTP
      header and all its fields are zero. */
  lemma GtpControl(p: Packet, c: Config, tags: nat, ip: Ip, before: Info)
    requires HoldsFrame(p, 0, tags, ip) && ip.l4.Udp?
    requires LooksLikeGtp(p, 14 + 4 * tags + IpLength(ip)) && Octet(p, 14 + 4 * tags + IpLength(ip) + 9) != 0xFF
    ensures var d := Dissected(p, c, true, before);
      && d.kind == GtpKind && d.info.isTunnel && d.outerL3 == 14 + 4 * tags && d.info.l2Len == 16
      && d.l3 == 14 + 4 * tags + IpLength(ip) + 16
      && d.info.ethertype == d.info.l3Len == d.info.l4Len == d.info.l4Proto == 0
      && d.info.outerEthertype == EtherType(ip) && d.info.outerL2Len == 14 + 4 * tags
      && d.info.outerL3Len == IpLength(ip) && d.info.outerL4Proto == PROTO_UDP
  {
    hide EthernetParsed, HoldsFrame, Octet, Word;
    FrameRight(p, 0, tags, ip, before.(isTunnel := false));
    GuardsAre(p, c, 14 + 4 * tags + IpLength(ip));
  }

  // ---------------------------------------------------------------- the outer protocol

  /** The outer layer 4 protocol is right for every tunnel but IP in IP, where it is whatever an
      earlier packet of the burst left there. */
  lemma OuterProtocolExactly(p: Packet, c: Config, s: Stack, before: Info)
    requires Holds(p, c, s) && !Mistaken(p, c, s) && !s.tunnel.NoTunnel?
    ensures Dissected(p, c, true, before).info.outerL4Proto == Number(s.ip.l4) <==>
      !s.tunnel.IpInIp? || before.outerL4Proto == PROTO_IPIP
  {
    hide EthernetParsed, TunnelParsed, HoldsFrame, Mistaken, Octet, Word, HoldsIp, HoldsInner;
    FrameRight(p, 0, s.tags, s.ip, before.(isTunnel := false));
    TunnelRightExactly(p, c, s, Outer(before, s));
  }

  /** So an IP-in-IP packet that follows a UDP tunnel in its burst is taken to have an outer UDP
      header. */
  lemma StaleOuterProtocol(p: Packet, q: Packet, c: Config, s: Stack, t: Stack, before: Info)
    requires Holds(p, c, s) && !Mistaken(p, c, s) && !s.tunnel.NoTunnel? && s.ip.l4.Udp?
    requires Holds(q, c, t) && t.tunnel.IpInIp?
    ensures Dissected(q, c, true, Dissected(p, c, true, before).info).info.outerL4Proto == PROTO_UDP
  {
    hide EthernetParsed, TunnelParsed, HoldsFrame, Octet, Word, HoldsIp, HoldsInner;
    FrameRight(p, 0, s.tags, s.ip, before.(isTunnel := false));
    TunnelRightExactly(p, c, s, Outer(before, s));
    var left := Dissected(p, c, true, before).info;
    FrameRight(q, 0, t.tags, t.ip, left.(isTunnel := false));
    TunnelRightExactly(q, c, t, Outer(left, t));
  }

  // ---------------------------------------------------------------- packets that are mistaken

  /** VXLAN over IPv4 and UDP, sent from the port `src`. */
  function VxlanPacket(src: nat): Packet
    requires src < 0x1_0000
  {
    seq(84, k =>
      if k == 12 || k == 62 then 0x08
      else if k == 14 || k == 64 then 0x45
      else if k == 23 then PROTO_UDP
      else if k == 34 then src / 256 else if k == 35 then src % 256
      else if k == 36 then PORT_VXLAN / 256 else if k == 37 then PORT_VXLAN % 256
      else if k == 73 then 1
      else 0)
  }

  /** A VXLAN packet is described unless its sender happens to use port 2123, which stands for GTP. */
  lemma SourcePortMisleads(src: nat, before: Info)
    requires src < 0x1_0000
    ensures var s := Stack(0, V4(5, Udp), Vxlan(0, V4(5, OtherL4(1))));
      && Holds(VxlanPacket(src), Config(4790, 6081, false), s)
      && (Right(Dissected(VxlanPacket(src), Config(4790, 6081, false), true, before), s) <==> src != PORT_GTPC)
  {
    hide Dissected, Right;
    var p, c, s := VxlanPacket(src), Config(4790, 6081, false), Stack(0, V4(5, Udp), Vxlan(0, V4(5, OtherL4(1))));
    assert TypeAt(p, 0, 0) == ETHER_IPV4 && HoldsIp(p, 14, s.ip) && HoldsFrame(p, 0, 0, s.ip);
    assert TypeAt(p, 50, 0) == ETHER_IPV4 && HoldsIp(p, 64, s.tunnel.ip) && HoldsFrame(p, 50, 0, s.tunnel.ip);
    assert DstPort(p, 34) == PORT_VXLAN && SrcPort(p, 34) == src;
    RightExactly(p, c, s, before);
  }

  /** IPv4 in IPv4. */
  function IpIpPacket(): Packet {
    seq(54, k =>
      if k == 12 then 0x08
      else if k == 14 || k == 34 then 0x45
      else if k == 23 then PROTO_IPIP
      else if k == 43 then 1
      else 0)
  }

  /** The first packet of a burst, IPv4 in IPv4: its outer protocol is reported as 0. */
  lemma FirstIpIpHasNoOuterProtocol()
    ensures var s := Stack(0, V4(5, OtherL4(PROTO_IPIP)), IpInIp(V4(5, OtherL4(1))));
      var d := Dissected(IpIpPacket(), Config(4790, 6081, false), true, Info(0, 0, 0, 0, 0, false, 0, 0, 0, 0));
      Holds(IpIpPacket(), Config(4790, 6081, false), s) && Right(d, s) && d.info.outerL4Proto != PROTO_IPIP
  {
    hide Dissected, Right;
    var p, c := IpIpPacket(), Config(4790, 6081, false);
    var s := Stack(0, V4(5, OtherL4(PROTO_IPIP)), IpInIp(V4(5, OtherL4(1))));
    assert TypeAt(p, 0, 0) == ETHER_IPV4 && HoldsIp(p, 14, s.ip) && HoldsFrame(p, 0, 0, s.ip);
    assert HoldsIp(p, 34, s.tunnel.ip);
    var clear := Info(0, 0, 0, 0, 0, false, 0, 0, 0, 0);
    RightExactly(p, c, s, clear);
    OuterProtocolExactly(p, c, s, clear);
  }
}
