/** The header stacks the checksum engine supports, and what it means for a packet to hold one. */
module HeaderStacks {

  import opened Bytes

  const ETHER_IPV4 := 0x0800
  const ETHER_IPV6 := 0x86DD
  const ETHER_VLAN := 0x8100
  const ETHER_QINQ := 0x88A8
  const ETHER_TEB := 0x6558
  const PROTO_IPIP := 4
  const PROTO_TCP := 6
  const PROTO_UDP := 17
  const PROTO_GRE := 47
  const PORT_GTPC := 2123
  const PORT_GTPU := 2152
  const PORT_VXLAN := 4789

  type Packet = seq<Byte>

  function Octet(p: Packet, k: nat): Byte {
    if k < |p| then p[k] else 0
  }

  /** A 16-bit number in network byte order. */
  function Word(p: Packet, k: nat): nat {
    (Octet(p, k) as int) * 256 + Octet(p, k + 1)
  }

  predicate IsTag(ethertype: nat) {
    ethertype == ETHER_VLAN || ethertype == ETHER_QINQ
  }

  // ---------------------------------------------------------------- stacks

  /** What an IP header carries; a TCP header says how many 32-bit words it has. */
  datatype L4 = Tcp(words: nat) | Udp | OtherL4(number: nat)

  /** An IP header; an IPv4 header says how many 32-bit words it has, options included. */
  datatype Ip = V4(words: nat, l4: L4) | V6(l4: L4)

  /** What a tunnel carries: an Ethernet frame with VLAN tags, or an IP packet. */
  datatype Inner = Link(tags: nat, ip: Ip) | Bare(ip: Ip)

  datatype Tunnel =
    | NoTunnel
    | Gtp(ip: Ip)
    | Vxlan(tags: nat, ip: Ip)
    | VxlanGpe(inner: Inner)
    | Geneve(options: nat, inner: Inner)
    | Gre(checksum: bool, key: bool, sequence: bool, inner: Inner)
    | IpInIp(ip: Ip)

  datatype Stack = Stack(tags: nat, ip: Ip, tunnel: Tunnel)

  /** The configurable UDP ports, and whether the network card flags the packet as a tunnel. */
  datatype Config = Config(gpePort: nat, genevePort: nat, nicTunnel: bool)

  function Number(l4: L4): nat {
    match l4
    case Tcp(_) => PROTO_TCP
    case Udp => PROTO_UDP
    case OtherL4(n) => n
  }

  /** The length reported for the layer 4 header: none but TCP and UDP have one. */
  function L4Length(l4: L4): nat {
    match l4
    case Tcp(words) => 4 * words
    case Udp => 8
    case OtherL4(_) => 0
  }

  function IpLength(ip: Ip): nat {
    if ip.V4? then 4 * ip.words else 40
  }

  function EtherType(ip: Ip): nat {
    if ip.V4? then ETHER_IPV4 else ETHER_IPV6
  }

  function InnerIp(t: Tunnel): Ip
    requires !t.NoTunnel?
  {
    match t
    case Gtp(ip) => ip
    case Vxlan(_, ip) => ip
    case IpInIp(ip) => ip
    case VxlanGpe(inner) => inner.ip
    case Geneve(_, inner) => inner.ip
    case Gre(_, _, _, inner) => inner.ip
  }

  /** Octets of link header before the IP header of what a tunnel carries. */
  function LinkLength(inner: Inner): nat {
    if inner.Link? then 14 + 4 * inner.tags else 0
  }

  function GreLength(checksum: bool, key: bool, sequence: bool): nat {
    4 + (if checksum then 4 else 0) + (if key then 4 else 0) + (if sequence then 4 else 0)
  }

  /** Octets from the end of the outer IP header to the inner one. */
  function Distance(t: Tunnel): nat {
    match t
    case NoTunnel => 0
    case Gtp(_) => 8 + 8
    case Vxlan(tags, _) => 8 + 8 + 14 + 4 * tags
    case VxlanGpe(inner) => 8 + 8 + LinkLength(inner)
    case Geneve(options, inner) => 8 + 8 + 4 * options + LinkLength(inner)
    case Gre(checksum, key, sequence, inner) => GreLength(checksum, key, sequence) + LinkLength(inner)
    case IpInIp(_) => 0
  }

  // ---------------------------------------------------------------- packets that hold them

  ghost predicate HoldsL4(p: Packet, at: nat, l4: L4) {
    match l4
    case Tcp(words) => Octet(p, at + 12) / 16 == words
    case Udp => true
    case OtherL4(n) => n != PROTO_TCP && n != PROTO_UDP
  }

  ghost predicate HoldsIp(p: Packet, at: nat, ip: Ip) {
    && (ip.V4? ==> 5 <= ip.words < 16 && Octet(p, at) == 0x40 + ip.words && Octet(p, at + 9) == Number(ip.l4))
    && (ip.V6? ==> Octet(p, at) / 16 == 6 && Octet(p, at + 6) == Number(ip.l4))
    && HoldsL4(p, at + IpLength(ip), ip.l4)
  }

  /** The type field after `k` VLAN tags. */
  function TypeAt(p: Packet, at: nat, k: nat): nat {
    Word(p, at + 12 + 4 * k)
  }

  ghost predicate HoldsFrame(p: Packet, at: nat, tags: nat, ip: Ip) {
    && (forall k :: 0 <= k < tags ==> IsTag(TypeAt(p, at, k)))
    && TypeAt(p, at, tags) == EtherType(ip)
    && HoldsIp(p, at + 14 + 4 * tags, ip)
  }

  ghost predicate HoldsInner(p: Packet, at: nat, inner: Inner) {
    match inner
    case Link(tags, ip) => HoldsFrame(p, at, tags, ip)
    case Bare(ip) => HoldsIp(p, at, ip)
  }

  function DstPort(p: Packet, udp: nat): nat { Word(p, udp + 2) }

  function SrcPort(p: Packet, udp: nat): nat { Word(p, udp) }

  /** The next-protocol octet of VXLAN-GPE: 0 and 1 IPv4, 2 IPv6, 3 Ethernet. */
  ghost predicate GpeCarries(next: nat, inner: Inner) {
    match inner
    case Link(_, _) => next == 3
    case Bare(ip) => if ip.V4? then next == 0 || next == 1 else next == 2
  }

  /** The protocol field of Geneve; 0 is taken for IPv4. */
  ghost predicate GeneveCarries(proto: nat, inner: Inner) {
    match inner
    case Link(_, _) => proto == ETHER_TEB
    case Bare(ip) => proto == EtherType(ip) || (ip.V4? && proto == 0)
  }

  ghost predicate GreCarries(proto: nat, inner: Inner) {
    match inner
    case Link(_, _) => proto == ETHER_TEB
    case Bare(ip) => proto == EtherType(ip)
  }

  /** The packet has the tunnel `t` right after an outer IP header that carries protocol `number`. */
  ghost predicate HoldsTunnel(p: Packet, at: nat, c: Config, number: nat, t: Tunnel) {
    match t
    case NoTunnel => true
    case Gtp(ip) =>
      && number == PROTO_UDP
      && (DstPort(p, at) == PORT_GTPC || SrcPort(p, at) == PORT_GTPC || DstPort(p, at) == PORT_GTPU)
      && Octet(p, at + 8) % 8 == 0 && Octet(p, at + 9) == 0xFF && HoldsIp(p, at + 16, ip)
    case Vxlan(tags, ip) =>
      number == PROTO_UDP && (DstPort(p, at) == PORT_VXLAN || c.nicTunnel) && HoldsFrame(p, at + 16, tags, ip)
    case VxlanGpe(inner) =>
      && number == PROTO_UDP && DstPort(p, at) == c.gpePort
      && GpeCarries(Octet(p, at + 11), inner) && HoldsInner(p, at + 16, inner)
    case Geneve(options, inner) =>
      && number == PROTO_UDP && DstPort(p, at) == c.genevePort && Octet(p, at + 8) % 64 == options
      && GeneveCarries(Word(p, at + 10), inner) && HoldsInner(p, at + 16 + 4 * options, inner)
    case Gre(checksum, key, sequence, inner) =>
      && number == PROTO_GRE
      && Octet(p, at) == (if checksum then 0x80 else 0) + (if key then 0x20 else 0) + (if sequence then 0x10 else 0)
      && GreCarries(Word(p, at + 2), inner) && HoldsInner(p, at + GreLength(checksum, key, sequence), inner)
    case IpInIp(ip) => number == PROTO_IPIP && HoldsIp(p, at, ip)
  }

  /** The packet is the stack `s` from its first octet on. */
  ghost predicate Holds(p: Packet, c: Config, s: Stack) {
    && HoldsFrame(p, 0, s.tags, s.ip)
    && HoldsTunnel(p, 14 + 4 * s.tags + IpLength(s.ip), c, Number(s.ip.l4), s.tunnel)
  }
}
