/** The header parser of the checksum engine: one record of lengths, filled layer by layer. */
module TunnelParser {

  import opened HeaderStacks

  datatype Info = Info(
    ethertype: nat, l2Len: nat, l3Len: nat, l4Len: nat, l4Proto: nat, isTunnel: bool,
    outerEthertype: nat, outerL2Len: nat, outerL3Len: nat, outerL4Proto: nat)

  /** Which tunnel flag the packet is marked with. */
  datatype Kind = NoKind | GtpKind | VxlanGpeKind | VxlanKind | GeneveKind | GreKind | IpIpKind

  /** Result for one packet: the record, the tunnel flag, and where the IP headers are. */
  datatype Dissection = Dissection(info: Info, kind: Kind, l3: nat, outerL3: nat)

  /** The longest packet for which no length can exceed 16 bits. */
  const MAX_PACKET: nat := 65530

  // ---------------------------------------------------------------- IP and Ethernet

  function L4Parsed(p: Packet, at: nat, number: nat): nat {
    if number == PROTO_TCP then Octet(p, at + 12) / 16 * 4 else if number == PROTO_UDP then 8 else 0
  }

  function Ipv4Parsed(p: Packet, at: nat, i: Info): Info {
    var l3 := Octet(p, at) % 16 * 4;
    var number := Octet(p, at + 9);
    i.(l3Len := l3, l4Proto := number, l4Len := L4Parsed(p, at + l3, number))
  }

  function Ipv6Parsed(p: Packet, at: nat, i: Info): Info {
    var number := Octet(p, at + 6);
    i.(l3Len := 40, l4Proto := number, l4Len := L4Parsed(p, at + 40, number))
  }

  /** Skipping VLAN tags: length of the link header and the type behind it. */
  function TagsParsed(p: Packet, at: nat, l2: nat): (r: (nat, nat))
    requires l2 >= 14
    ensures l2 <= r.0 && (r.0 == l2 || at + r.0 <= |p| + 5)
    decreases |p| + 2 - at - l2
  {
    var ethertype := Word(p, at + l2 - 2);
    if IsTag(ethertype) then TagsParsed(p, at, l2 + 4) else (l2, ethertype)
  }

  function EthernetParsed(p: Packet, at: nat, i: Info): Info {
    var (l2, ethertype) := TagsParsed(p, at, 14);
    var j := i.(l2Len := l2, ethertype := ethertype);
    if ethertype == ETHER_IPV4 then Ipv4Parsed(p, at + l2, j)
    else if ethertype == ETHER_IPV6 then Ipv6Parsed(p, at + l2, j)
    else j.(l4Len := 0, l3Len := 0, l4Proto := 0)
  }

  // ---------------------------------------------------------------- tunnels

  /** The lengths so far become the outer ones. */
  function Saved(i: Info): Info {
    i.(isTunnel := true, outerEthertype := i.ethertype, outerL2Len := i.l2Len, outerL3Len := i.l3Len,
       outerL4Proto := i.l4Proto)
  }

  /** An IP header that follows a tunnel header directly. */
  function BareParsed(p: Packet, v6: bool, at: nat, i: Info): Info {
    if v6 then Ipv6Parsed(p, at, i).(ethertype := ETHER_IPV6, l2Len := 0)
    else Ipv4Parsed(p, at, i).(ethertype := ETHER_IPV4, l2Len := 0)
  }

  predicate GtpClaims(p: Packet, udp: nat) {
    DstPort(p, udp) == PORT_GTPC || SrcPort(p, udp) == PORT_GTPC || DstPort(p, udp) == PORT_GTPU
  }

  function GtpParsed(p: Packet, udp: nat, i: Info): Info {
    if !GtpClaims(p, udp) then i
    else
      var j := Saved(i).(l2Len := 0);
      var k :=
        if Octet(p, udp + 9) == 0xFF then
          if Octet(p, udp + 16) / 16 == 4 then BareParsed(p, false, udp + 16, j)
          else if Octet(p, udp + 16) / 16 == 6 then BareParsed(p, true, udp + 16, j)
          else j
        else j.(ethertype := 0, l4Len := 0, l3Len := 0, l4Proto := 0);
      k.(l2Len := k.l2Len + 16)
  }

  predicate VxlanClaims(p: Packet, c: Config, udp: nat) {
    DstPort(p, udp) == PORT_VXLAN || c.nicTunnel
  }

  function VxlanParsed(p: Packet, c: Config, udp: nat, i: Info): Info {
    if !VxlanClaims(p, c, udp) then i
    else
      var k := EthernetParsed(p, udp + 16, Saved(i));
      k.(l2Len := k.l2Len + 16)
  }

  predicate GpeClaims(p: Packet, c: Config, udp: nat) {
    DstPort(p, udp) == c.gpePort && Octet(p, udp + 11) <= 3
  }

  function GpeParsed(p: Packet, c: Config, udp: nat, i: Info): Info {
    if !GpeClaims(p, c, udp) then i
    else
      var next, j := Octet(p, udp + 11), Saved(i);
      var k := if next == 3 then EthernetParsed(p, udp + 16, j) else BareParsed(p, next == 2, udp + 16, j);
      k.(l2Len := k.l2Len + 16)
  }

  predicate GeneveClaims(p: Packet, c: Config, udp: nat) {
    && DstPort(p, udp) == c.genevePort
    && (Word(p, udp + 10) == 0 || Word(p, udp + 10) == ETHER_IPV4 || Word(p, udp + 10) == ETHER_IPV6
        || Word(p, udp + 10) == ETHER_TEB)
  }

  function GeneveParsed(p: Packet, c: Config, udp: nat, i: Info): Info {
    if !GeneveClaims(p, c, udp) then i
    else
      var proto, len, j := Word(p, udp + 10), 8 + Octet(p, udp + 8) % 64 * 4, Saved(i);
      var k := if proto == ETHER_TEB then EthernetParsed(p, udp + 8 + len, j)
               else BareParsed(p, proto == ETHER_IPV6, udp + 8 + len, j);
      k.(l2Len := k.l2Len + 8 + len)
  }

  predicate GreClaims(p: Packet, gre: nat) {
    Word(p, gre + 2) == ETHER_IPV4 || Word(p, gre + 2) == ETHER_IPV6 || Word(p, gre + 2) == ETHER_TEB
  }

  /** Header length by the flags: each optional field takes four octets. */
  function GreLenParsed(p: Packet, gre: nat): nat {
    var flags := Word(p, gre);
    4 + (if flags / 0x2000 % 2 == 1 then 4 else 0) + (if flags / 0x1000 % 2 == 1 then 4 else 0)
    + (if flags / 0x8000 % 2 == 1 then 4 else 0)
  }

  function GreParsed(p: Packet, gre: nat, i: Info): Info {
    if !GreClaims(p, gre) then i
    else
      var proto, len, j := Word(p, gre + 2), GreLenParsed(p, gre), Saved(i);
      var k := if proto == ETHER_TEB then EthernetParsed(p, gre + len, j)
               else BareParsed(p, proto == ETHER_IPV6, gre + len, j);
      k.(l2Len := k.l2Len + len)
  }

  predicate IpIpClaims(p: Packet, at: nat) {
    Octet(p, at) / 16 == 4 || Octet(p, at) / 16 == 6
  }

  /** IP in IP keeps the outer layer 4 protocol of an earlier packet. */
  function IpIpParsed(p: Packet, at: nat, i: Info): Info {
    if !IpIpClaims(p, at) then i
    else BareParsed(p, Octet(p, at) / 16 == 6, at, Saved(i).(outerL4Proto := i.outerL4Proto))
  }

  // ---------------------------------------------------------------- dispatch

  function UdpParsed(p: Packet, c: Config, udp: nat, i: Info): (Info, Kind) {
    if GtpClaims(p, udp) then (GtpParsed(p, udp, i), GtpKind)
    else if GpeClaims(p, c, udp) then (GpeParsed(p, c, udp, i), VxlanGpeKind)
    else if VxlanClaims(p, c, udp) then (VxlanParsed(p, c, udp, i), VxlanKind)
    else if GeneveClaims(p, c, udp) then (GeneveParsed(p, c, udp, i), GeneveKind)
    else (i, NoKind)
  }

  function TunnelParsed(p: Packet, c: Config, at: nat, i: Info): (Info, Kind) {
    if i.l4Proto == PROTO_UDP then UdpParsed(p, c, at, i)
    else if i.l4Proto == PROTO_GRE then (GreParsed(p, at, i), if GreClaims(p, at) then GreKind else NoKind)
    else if i.l4Proto == PROTO_IPIP then (IpIpParsed(p, at, i), if IpIpClaims(p, at) then IpIpKind else NoKind)
    else (i, NoKind)
  }

  /** The whole parse of one packet; `before` is what the previous packet of the burst left. */
  function Dissected(p: Packet, c: Config, parseTunnel: bool, before: Info): Dissection {
    var i := EthernetParsed(p, 0, before.(isTunnel := false));
    var l3 := i.l2Len;
    var (j, kind) := if parseTunnel then TunnelParsed(p, c, l3 + i.l3Len, i) else (i, NoKind);
    if j.isTunnel then Dissection(j, kind, l3 + j.outerL3Len + j.l2Len, l3) else Dissection(j, kind, l3, l3)
  }

  /** A tunnel is marked exactly when its guard fires; otherwise the record stays as it is. */
  lemma EveryTunnelIsMarked(p: Packet, c: Config, at: nat, i: Info)
    requires !i.isTunnel
    ensures GtpParsed(p, at, i).isTunnel <==> GtpClaims(p, at)
    ensures GpeParsed(p, c, at, i).isTunnel <==> GpeClaims(p, c, at)
    ensures VxlanParsed(p, c, at, i).isTunnel <==> VxlanClaims(p, c, at)
    ensures GeneveParsed(p, c, at, i).isTunnel <==> GeneveClaims(p, c, at)
    ensures GreParsed(p, at, i).isTunnel <==> GreClaims(p, at)
    ensures IpIpParsed(p, at, i).isTunnel <==> IpIpClaims(p, at)
    ensures !GtpClaims(p, at) ==> GtpParsed(p, at, i) == i
    ensures !GpeClaims(p, c, at) ==> GpeParsed(p, c, at, i) == i
    ensures !VxlanClaims(p, c, at) ==> VxlanParsed(p, c, at, i) == i
    ensures !GeneveClaims(p, c, at) ==> GeneveParsed(p, c, at, i) == i
    ensures !GreClaims(p, at) ==> GreParsed(p, at, i) == i
    ensures !IpIpClaims(p, at) ==> IpIpParsed(p, at, i) == i
  {
    hide GtpClaims, GpeClaims, VxlanClaims, GeneveClaims, GreClaims, IpIpClaims, Octet, TagsParsed, L4Parsed, Word;
  }

  // ---------------------------------------------------------------- lengths fit

  ghost predicate Fits(i: Info) {
    && i.ethertype <= 0xFFFF && i.l2Len <= 0xFFFF && i.l3Len <= 60 && i.l4Len <= 60 && i.l4Proto <= 0xFF
    && i.outerEthertype <= 0xFFFF && i.outerL2Len <= 0xFFFF && i.outerL3Len <= 0xFFFF && i.outerL4Proto <= 0xFF
  }

  lemma EthernetFits(p: Packet, at: nat, i: Info)
    requires Fits(i) && |p| <= MAX_PACKET
    ensures Fits(EthernetParsed(p, at, i)) && EthernetParsed(p, at, i).isTunnel == i.isTunnel
    ensures EthernetParsed(p, at, i).l2Len == 14 || at + EthernetParsed(p, at, i).l2Len <= |p| + 5
  {
    TypeFits(p, at, 14);
  }

  lemma {:induction false} TypeFits(p: Packet, at: nat, l2: nat)
    requires l2 >= 14
    ensures TagsParsed(p, at, l2).1 <= 0xFFFF
    decreases |p| + 2 - at - l2
  {
    if IsTag(Word(p, at + l2 - 2)) {
      TypeFits(p, at, l2 + 4);
    }
  }

  lemma BareFits(p: Packet, v6: bool, at: nat, i: Info)
    requires Fits(i)
    ensures Fits(BareParsed(p, v6, at, i)) && BareParsed(p, v6, at, i).l2Len == 0
  {
  }

  lemma GtpFits(p: Packet, udp: nat, i: Info)
    requires Fits(i)
    ensures Fits(GtpParsed(p, udp, i))
  {
    hide BareParsed, Octet, GtpClaims;
    var j := Saved(i).(l2Len := 0);
    BareFits(p, false, udp + 16, j);
    BareFits(p, true, udp + 16, j);
  }

  lemma UdpFits(p: Packet, c: Config, udp: nat, i: Info)
    requires Fits(i) && |p| <= MAX_PACKET
    ensures Fits(UdpParsed(p, c, udp, i).0)
  {
    hide EthernetParsed, BareParsed, Octet, GtpParsed, GtpClaims, GpeClaims, VxlanClaims, GeneveClaims;
    GtpFits(p, udp, i);
    EthernetFits(p, udp + 16, Saved(i));
    BareFits(p, Octet(p, udp + 11) == 2, udp + 16, Saved(i));
    var len := 8 + Octet(p, udp + 8) % 64 * 4;
    EthernetFits(p, udp + 8 + len, Saved(i));
    BareFits(p, Word(p, udp + 10) == ETHER_IPV6, udp + 8 + len, Saved(i));
  }

  lemma TunnelFits(p: Packet, c: Config, at: nat, i: Info)
    requires Fits(i) && |p| <= MAX_PACKET
    ensures Fits(TunnelParsed(p, c, at, i).0)
  {
    hide EthernetParsed, BareParsed, Octet, Word, UdpParsed, GreClaims, IpIpClaims;
    UdpFits(p, c, at, i);
    var len := GreLenParsed(p, at);
    EthernetFits(p, at + len, Saved(i));
    BareFits(p, Word(p, at + 2) == ETHER_IPV6, at + len, Saved(i));
    BareFits(p, Octet(p, at) / 16 == 6, at, Saved(i).(outerL4Proto := i.outerL4Proto));
  }

  /** No length of any packet up to the limit needs more than its 16 or 8 bits. */
  lemma LengthsFit(p: Packet, c: Config, parseTunnel: bool, before: Info)
    requires Fits(before) && |p| <= MAX_PACKET
    ensures Fits(Dissected(p, c, parseTunnel, before).info)
  {
    hide EthernetParsed, TunnelParsed, Fits;
    CleanFits(before);
    EthernetFits(p, 0, before.(isTunnel := false));
    var i := EthernetParsed(p, 0, before.(isTunnel := false));
    TunnelFits(p, c, i.l2Len + i.l3Len, i);
  }

  lemma CleanFits(i: Info)
    requires Fits(i)
    ensures Fits(i.(isTunnel := false))
  {
  }
}
