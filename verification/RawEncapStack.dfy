/** What the built raw headers mean to a reader: they hold the header stack that the items name. */
module RawEncapStack {
  import opened Bytes
  import opened HeaderStacks
  import R = RawEncap
  import TunnelLayout
  import TunnelParser

  type Items = seq<R.Item>

  // ---------------------------------------------------------------- what items name

  /** An octet of an item's own; a header of the item's kind has it. */
  function Own(item: R.Item, k: nat): Byte {
    if k < |R.Octets(item)| then R.Octets(item)[k] else 0
  }

  function OwnWord(item: R.Item, k: nat): nat {
    (Own(item, k) as int) * 256 + Own(item, k + 1)
  }

  ghost predicate IsKind(items: Items, i: nat, kind: R.Kind) {
    i < |items| && items[i].kind == kind
  }

  /** The items behind an IP header name its payload. The header's own protocol field is the default,
      0, or already says the same. */
  ghost predicate NamesL4(own: Byte, items: Items, l4: L4) {
    && (own == 0 || own == Number(l4))
    && match l4
       case Udp => IsKind(items, 0, R.Udp)
       case Tcp(words) => IsKind(items, 0, R.Tcp) && Own(items[0], 12) / 16 == words
       case OtherL4(n) =>
         || (items == [] && n == own && n != 6 && n != 17)
         || ((IsKind(items, 0, R.Gre) || IsKind(items, 0, R.Nvgre)) && n == 47)
         || (IsKind(items, 0, R.Esp) && n == 50)
         || (IsKind(items, 0, R.Ah) && n == 51)
         || (IsKind(items, 0, R.L2tpv3) && n == 115)
         || ((IsKind(items, 0, R.Mpls) || IsKind(items, 0, R.GreKey)) && n == own && n != 6 && n != 17)
         || ((IsKind(items, 0, R.Ipv4) || IsKind(items, 0, R.Ipv6)) && n == own == 4)
  }

  ghost predicate NamesIp(items: Items, ip: Ip) {
    items != [] &&
    match ip
    case V4(words, l4) => IsKind(items, 0, R.Ipv4) && words == 5 && NamesL4(Own(items[0], 9), items[1..], l4)
    case V6(l4) => IsKind(items, 0, R.Ipv6) && NamesL4(Own(items[0], 6), items[1..], l4)
  }

  /** VLAN items, each with the type of what follows it among its own octets, then an IP header. */
  ghost predicate NamesVlans(items: Items, tags: nat, ip: Ip)
    decreases tags
  {
    if tags == 0 then NamesIp(items, ip)
    else
      && IsKind(items, 0, R.Vlan)
      && (if tags == 1 then OwnWord(items[0], 2) == EtherType(ip) else IsTag(OwnWord(items[0], 2)))
      && NamesVlans(items[1..], tags - 1, ip)
  }

  /** An Ethernet item, whatever type it brings, then VLAN items and an IP header. */
  ghost predicate NamesFrame(items: Items, tags: nat, ip: Ip) {
    IsKind(items, 0, R.Eth) && NamesVlans(items[1..], tags, ip)
  }

  ghost predicate NamesInner(items: Items, inner: Inner) {
    match inner
    case Link(tags, ip) => NamesFrame(items, tags, ip)
    case Bare(ip) => NamesIp(items, ip)
  }

  /** The items behind the outer IP header name the tunnel. */
  ghost predicate NamesTunnel(items: Items, c: Config, t: Tunnel) {
    match t
    case NoTunnel => true
    case Gtp(ip) =>
      && IsKind(items, 0, R.Udp) && IsKind(items, 1, R.Gtp)
      && (OwnWord(items[0], 2) in {2123, 2152} || OwnWord(items[0], 0) == 2123)
      && Own(items[1], 0) % 8 == 0 && Own(items[1], 1) == 0xFF && NamesIp(items[2..], ip)
    case Vxlan(tags, ip) =>
      && IsKind(items, 0, R.Udp) && IsKind(items, 1, R.Vxlan)
      && OwnWord(items[0], 2) == 4789 && NamesFrame(items[2..], tags, ip)
    case VxlanGpe(inner) =>
      && IsKind(items, 0, R.Udp) && IsKind(items, 1, R.VxlanGpe)
      && OwnWord(items[0], 2) == c.gpePort && GpeCarries(Own(items[1], 3), inner) && NamesInner(items[2..], inner)
    case Geneve(options, inner) =>
      && IsKind(items, 0, R.Udp) && IsKind(items, 1, R.Geneve) && options == 0
      && OwnWord(items[0], 2) == c.genevePort && Own(items[1], 0) % 64 == 0
      && GeneveCarries(OwnWord(items[1], 2), inner) && NamesInner(items[2..], inner)
    case Gre(checksum, key, sequence, inner) =>
      && !checksum && !sequence
      && (|| (NamesGre(items, key, inner) && NamesInner(items[if key then 2 else 1..], inner))
          || (IsKind(items, 0, R.Nvgre) && key && inner.Link? && NamesInner(items[1..], inner)))
    case IpInIp(ip) => NamesIp(items, ip)
  }

  /** A GRE item, with a key item if its flags announce one. */
  ghost predicate NamesGre(items: Items, key: bool, inner: Inner) {
    && IsKind(items, 0, R.Gre) && Own(items[0], 0) == (if key then 0x20 else 0)
    && GreCarries(OwnWord(items[0], 2), inner) && (key ==> IsKind(items, 1, R.GreKey))
  }

  ghost predicate NamesStack(items: Items, c: Config, s: Stack) {
    && NamesFrame(items, s.tags, s.ip)
    && s.tags + 2 <= |items| && NamesTunnel(items[s.tags + 2..], c, s.tunnel)
  }

  // ---------------------------------------------------------------- reading the built octets

  /** The packet has the headers built from the items at this place. */
  ghost predicate Here(p: Packet, at: nat, items: Items)
    requires R.Complete(items)
  {
    at + |R.Wire(items)| <= |p| && p[at..at + |R.Wire(items)|] == R.Wire(items)
  }

  lemma AllIsHere(items: Items)
    requires R.Complete(items)
    ensures Here(R.Wire(items), 0, items)
  {
    hide R.Wire;
    assert R.Wire(items)[0..|R.Wire(items)|] == R.Wire(items);
  }

  lemma HereRest(p: Packet, at: nat, items: Items)
    requires R.Complete(items) && items != [] && Here(p, at, items)
    ensures R.Complete(items[1..]) && Here(p, at + R.Size(items[0].kind), items[1..])
    ensures R.Size(items[0].kind) <= |R.Octets(items[0])|
    ensures at + R.Size(items[0].kind) <= |p|
    ensures p[at..at + R.Size(items[0].kind)] == R.HeaderOf(items[0], R.Upper(items[1..]))
  {
    hide R.HeaderOf, R.Upper, R.Octets, R.Size;
    var h, rest := R.HeaderOf(items[0], R.Upper(items[1..])), R.Wire(items[1..]);
    var n := R.Size(items[0].kind);
    assert R.Wire(items) == h + rest;
    assert p[at..at + n] == p[at..at + |R.Wire(items)|][..n];
    assert p[at + n..at + n + |rest|] == p[at..at + |R.Wire(items)|][n..];
  }

  /** An octet of the header of the first item. */
  lemma HereOctet(p: Packet, at: nat, items: Items, k: nat)
    requires R.Complete(items) && items != [] && Here(p, at, items) && k < R.Size(items[0].kind)
    ensures R.Complete(items[1..]) && R.Size(items[0].kind) <= |R.Octets(items[0])|
    ensures Octet(p, at + k) == R.HeaderOf(items[0], R.Upper(items[1..]))[k]
    ensures !R.PatchesOctet(items[0].kind, R.Octets(items[0]), R.Upper(items[1..]), k) ==>
      Octet(p, at + k) == Own(items[0], k)
  {
    HereRest(p, at, items);
    assert p[at..at + R.Size(items[0].kind)][k] == p[at + k];
  }

  /** Two octets that are the item's own. */
  lemma HereOwnWord(p: Packet, at: nat, items: Items, k: nat)
    requires R.Complete(items) && items != [] && Here(p, at, items) && k + 2 <= R.Size(items[0].kind)
    requires items[0].kind in {R.Vlan, R.Udp, R.Gre, R.Geneve}
    ensures Word(p, at + k) == OwnWord(items[0], k)
  {
    hide Here;
    HereOctet(p, at, items, k);
    HereOctet(p, at, items, k + 1);
  }

  /** The protocol field that an IP header goes out with. */
  lemma ProtocolBuilt(own: Byte, items: Items, l4: L4)
    requires NamesL4(own, items, l4)
    ensures Number(l4) < 256
    ensures own == 0 && R.Upper(items) != 0 ==> R.Upper(items) == Number(l4)
    ensures own != 0 || R.Upper(items) == 0 ==> own == Number(l4)
  {
  }

  lemma L4Built(p: Packet, at: nat, own: Byte, items: Items, l4: L4)
    requires R.Complete(items) && Here(p, at, items) && NamesL4(own, items, l4)
    ensures HoldsL4(p, at, l4)
  {
    hide Here, Octet;
    if l4.Tcp? {
      HereOctet(p, at, items, 12);
    }
  }

  lemma IpBuilt(p: Packet, at: nat, items: Items, ip: Ip)
    requires R.Complete(items) && Here(p, at, items) && NamesIp(items, ip)
    ensures HoldsIp(p, at, ip)
    ensures R.Complete(items[1..]) && Here(p, at + IpLength(ip), items[1..])
  {
    hide Here, Octet, HoldsL4;
    HereRest(p, at, items);
    HereOctet(p, at, items, 0);
    HereOctet(p, at, items, if ip.V4? then 9 else 6);
    ProtocolBuilt(Own(items[0], if ip.V4? then 9 else 6), items[1..], ip.l4);
    L4Built(p, at + IpLength(ip), Own(items[0], if ip.V4? then 9 else 6), items[1..], ip.l4);
  }

  /** The type field of VLAN item k, counted from 1, of those that start at `at`. */
  function VlanType(p: Packet, at: nat, k: nat): nat
    requires k > 0
  {
    Word(p, at + 4 * k - 2)
  }

  lemma {:induction false} VlansBuilt(p: Packet, at: nat, items: Items, tags: nat, ip: Ip)
    requires R.Complete(items) && Here(p, at, items) && NamesVlans(items, tags, ip)
    ensures tags < |items|
    ensures forall k :: 1 <= k < tags ==> IsTag(VlanType(p, at, k))
    ensures tags > 0 ==> VlanType(p, at, tags) == EtherType(ip)
    ensures HoldsIp(p, at + 4 * tags, ip)
    ensures R.Complete(items[tags + 1..]) && Here(p, at + 4 * tags + IpLength(ip), items[tags + 1..])
    decreases tags
  {
    hide Here, Word, HoldsIp, NamesIp, R.Complete;
    if tags == 0 {
      NamedIpIsThere(items, ip);
      IpBuilt(p, at, items, ip);
    } else {
      HereRest(p, at, items);
      HereOwnWord(p, at, items, 2);
      VlansBuilt(p, at + 4, items[1..], tags - 1, ip);
      assert items[1..][tags..] == items[tags + 1..];
      forall k | 1 <= k < tags ensures IsTag(VlanType(p, at, k)) {
        if k > 1 {
          assert VlanType(p, at, k) == VlanType(p, at + 4, k - 1);
        }
      }
      assert tags > 1 ==> VlanType(p, at, tags) == VlanType(p, at + 4, tags - 1);
    }
  }

  lemma NamedIpIsThere(items: Items, ip: Ip)
    requires NamesIp(items, ip)
    ensures items != []
  {
  }

  /** The type an Ethernet header goes out with: that of the VLAN or IP header behind it. */
  lemma TypeBuilt(items: Items, tags: nat, ip: Ip)
    requires NamesVlans(items, tags, ip)
    ensures R.Upper(items) == if tags > 0 then ETHER_VLAN else EtherType(ip)
  {
  }

  lemma FrameBuilt(p: Packet, at: nat, items: Items, tags: nat, ip: Ip)
    requires R.Complete(items) && Here(p, at, items) && NamesFrame(items, tags, ip)
    ensures HoldsFrame(p, at, tags, ip) && tags + 1 < |items|
    ensures R.Complete(items[tags + 2..]) && Here(p, at + 14 + 4 * tags + IpLength(ip), items[tags + 2..])
  {
    hide Here, HoldsIp, NamesVlans, Octet, R.Complete;
    HereRest(p, at, items);
    TypeBuilt(items[1..], tags, ip);
    HereOctet(p, at, items, 12);
    HereOctet(p, at, items, 13);
    VlansBuilt(p, at + 14, items[1..], tags, ip);
    assert items[1..][tags + 1..] == items[tags + 2..];
    assert Word(p, at + 12) == R.Upper(items[1..]);
    forall k | 0 <= k < tags ensures IsTag(TypeAt(p, at, k)) {
      if k > 0 {
        assert TypeAt(p, at, k) == VlanType(p, at + 14, k);
      }
    }
    assert tags > 0 ==> TypeAt(p, at, tags) == VlanType(p, at + 14, tags);
  }

  lemma InnerBuilt(p: Packet, at: nat, items: Items, inner: Inner)
    requires R.Complete(items) && Here(p, at, items) && NamesInner(items, inner)
    ensures HoldsInner(p, at, inner)
  {
    hide Here, HoldsIp, HoldsFrame, NamesFrame, NamesIp, R.Complete;
    match inner
    case Link(tags, ip) => FrameBuilt(p, at, items, tags, ip);
    case Bare(ip) => IpBuilt(p, at, items, ip);
  }

  /** UDP, then a tunnel header of eight octets: both ports and the tunnel's own octets. */
  lemma UdpTunnelBuilt(p: Packet, at: nat, items: Items, kind: R.Kind)
    requires R.Complete(items) && Here(p, at, items) && IsKind(items, 0, R.Udp) && IsKind(items, 1, kind)
    requires kind in {R.Vxlan, R.VxlanGpe, R.Gtp, R.Geneve}
    ensures SrcPort(p, at) == OwnWord(items[0], 0) && DstPort(p, at) == OwnWord(items[0], 2)
    ensures R.Complete(items[1..]) && Here(p, at + 8, items[1..]) && items[1..][0] == items[1]
    ensures R.Complete(items[2..]) && Here(p, at + 16, items[2..])
  {
    hide Here, Word, R.Complete;
    HereOwnWord(p, at, items, 0);
    HereOwnWord(p, at, items, 2);
    HereRest(p, at, items);
    HereRest(p, at + 8, items[1..]);
    assert items[1..][1..] == items[2..];
  }

  lemma GreBuilt(p: Packet, at: nat, items: Items, c: Config, t: Tunnel)
    requires R.Complete(items) && Here(p, at, items) && t.Gre? && NamesTunnel(items, c, t)
    ensures HoldsTunnel(p, at, c, 47, t)
  {
    hide Here, HoldsInner, NamesInner, Octet;
    HereRest(p, at, items);
    HereOctet(p, at, items, 0);
    HereOctet(p, at, items, 2);
    HereOctet(p, at, items, 3);
    if IsKind(items, 0, R.Nvgre) {
      InnerBuilt(p, at + 8, items[1..], t.inner);
    } else if t.key {
      HereRest(p, at + 4, items[1..]);
      assert items[1..][1..] == items[2..];
      InnerBuilt(p, at + 8, items[2..], t.inner);
    } else {
      InnerBuilt(p, at + 4, items[1..], t.inner);
    }
  }

  lemma GtpBuilt(p: Packet, at: nat, items: Items, c: Config, t: Tunnel)
    requires R.Complete(items) && Here(p, at, items) && t.Gtp? && NamesTunnel(items, c, t)
    ensures HoldsTunnel(p, at, c, 17, t)
  {
    hide Here, NamesIp, HoldsIp, Octet, Word, R.Complete;
    UdpTunnelBuilt(p, at, items, R.Gtp);
    HereOctet(p, at + 8, items[1..], 0);
    HereOctet(p, at + 8, items[1..], 1);
    IpBuilt(p, at + 16, items[2..], t.ip);
  }

  lemma GpeBuilt(p: Packet, at: nat, items: Items, c: Config, t: Tunnel)
    requires R.Complete(items) && Here(p, at, items) && t.VxlanGpe? && NamesTunnel(items, c, t)
    ensures HoldsTunnel(p, at, c, 17, t)
  {
    hide Here, HoldsInner, NamesInner, Octet, Word, R.Complete;
    UdpTunnelBuilt(p, at, items, R.VxlanGpe);
    HereOctet(p, at + 8, items[1..], 3);
    InnerBuilt(p, at + 16, items[2..], t.inner);
  }

  lemma GeneveBuilt(p: Packet, at: nat, items: Items, c: Config, t: Tunnel)
    requires R.Complete(items) && Here(p, at, items) && t.Geneve? && NamesTunnel(items, c, t)
    ensures HoldsTunnel(p, at, c, 17, t)
  {
    hide Here, HoldsInner, NamesInner, Octet, Word, R.Complete;
    UdpTunnelBuilt(p, at, items, R.Geneve);
    HereOctet(p, at + 8, items[1..], 0);
    HereOwnWord(p, at + 8, items[1..], 2);
    InnerBuilt(p, at + 16, items[2..], t.inner);
  }

  lemma TunnelBuilt(p: Packet, at: nat, items: Items, c: Config, own: Byte, l4: L4, t: Tunnel)
    requires R.Complete(items) && Here(p, at, items) && NamesTunnel(items, c, t) && NamesL4(own, items, l4)
    ensures HoldsTunnel(p, at, c, Number(l4), t)
  {
    hide Here, HoldsInner, NamesInner, HoldsFrame, NamesFrame, NamesIp, HoldsIp, Octet, Word, R.Complete;
    match t
    case NoTunnel =>
    case Gtp(_) => GtpBuilt(p, at, items, c, t);
    case Vxlan(tags, ip) =>
      UdpTunnelBuilt(p, at, items, R.Vxlan);
      FrameBuilt(p, at + 16, items[2..], tags, ip);
    case VxlanGpe(_) => GpeBuilt(p, at, items, c, t);
    case Geneve(_, _) => GeneveBuilt(p, at, items, c, t);
    case Gre(_, _, _, _) =>
      GreIsNumbered(own, items, c, l4, t);
      GreBuilt(p, at, items, c, t);
    case IpInIp(ip) =>
      IpInIpIsNumbered(own, items, l4, ip);
      IpBuilt(p, at, items, ip);
  }

  lemma GreIsNumbered(own: Byte, items: Items, c: Config, l4: L4, t: Tunnel)
    requires t.Gre? && NamesTunnel(items, c, t) && NamesL4(own, items, l4)
    ensures Number(l4) == 47
  {
  }

  lemma IpInIpIsNumbered(own: Byte, items: Items, l4: L4, ip: Ip)
    requires NamesIp(items, ip) && NamesL4(own, items, l4)
    ensures Number(l4) == 4
  {
  }

  lemma {:induction false} OuterNamesL4(items: Items, tags: nat, ip: Ip) returns (own: Byte)
    requires NamesVlans(items, tags, ip)
    ensures tags + 1 <= |items| && NamesL4(own, items[tags + 1..], ip.l4)
    decreases tags
  {
    hide NamesL4;
    if tags == 0 {
      own := Own(items[0], if ip.V4? then 9 else 6);
    } else {
      own := OuterNamesL4(items[1..], tags - 1, ip);
      assert items[1..][tags..] == items[tags + 1..];
    }
  }

  /** A packet that starts with the built headers holds the stack the items name. */
  lemma BuiltHoldsStack(p: Packet, items: Items, c: Config, s: Stack)
    requires R.Complete(items) && Here(p, 0, items) && NamesStack(items, c, s)
    ensures Holds(p, c, s)
  {
    hide Here, HoldsFrame, HoldsTunnel, NamesTunnel, NamesL4, NamesVlans, R.Complete;
    FrameBuilt(p, 0, items, s.tags, s.ip);
    var own := OuterNamesL4(items[1..], s.tags, s.ip);
    assert items[1..][s.tags + 1..] == items[s.tags + 2..];
    TunnelBuilt(p, 14 + 4 * s.tags + IpLength(s.ip), items[s.tags + 2..], c, own, s.ip.l4, s.tunnel);
  }

  /** So parsing the built headers, whatever follows them, gives the stack back, unless a port makes
      them look like another tunnel. */
  lemma BuiltParsesBack(items: Items, payload: Packet, c: Config, s: Stack, before: TunnelParser.Info)
    requires R.Complete(items) && NamesStack(items, c, s)
    ensures TunnelLayout.Right(TunnelParser.Dissected(R.Wire(items) + payload, c, true, before), s) <==>
      !TunnelLayout.Mistaken(R.Wire(items) + payload, c, s)
  {
    hide NamesStack, R.Complete, R.Wire, Holds, TunnelLayout.Right, TunnelLayout.Mistaken, TunnelParser.Dissected;
    var p := R.Wire(items) + payload;
    assert p[0..|R.Wire(items)|] == R.Wire(items);
    BuiltHoldsStack(p, items, c, s);
    TunnelLayout.RightExactly(p, c, s, before);
  }

  /** Ethernet, IPv4 and UDP items with default type and protocol fields: 42 octets that say so. */
  lemma EthernetIpUdp(eth: R.Item, ip: R.Item, udp: R.Item, c: Config)
    requires R.Complete([eth, ip, udp]) && eth.kind == R.Eth && ip.kind == R.Ipv4 && udp.kind == R.Udp
    requires Own(ip, 9) == 0
    ensures NamesStack([eth, ip, udp], c, Stack(0, V4(5, Udp), NoTunnel))
    ensures |R.Wire([eth, ip, udp])| == 42
    ensures Word(R.Wire([eth, ip, udp]), 12) == 0x0800 && Octet(R.Wire([eth, ip, udp]), 14) == 0x45
    ensures Octet(R.Wire([eth, ip, udp]), 23) == 17
  {
    var items, s := [eth, ip, udp], Stack(0, V4(5, Udp), NoTunnel);
    hide R.Wire, R.HeaderOf, R.Complete, Octet;
    assert items[1..] == [ip, udp] && items[1..][1..] == [udp] && items[2..] == [udp];
    assert NamesL4(Own(ip, 9), [udp], Udp);
    assert R.Total([udp]) == 8 && R.Total([ip, udp]) == 28;
    var p := R.Wire(items);
    assert p[0..|p|] == p;
    BuiltHoldsStack(p, items, c, s);
    assert HoldsFrame(p, 0, 0, s.ip) && TypeAt(p, 0, 0) == 0x0800;
  }

  /** The assigned protocol number and the length of the headers that may stand behind an IP header;
      0 for those that are not announced there. */
  const FORMATS: map<R.Kind, (Byte, nat)> := map[
    R.Tcp := (6, 20), R.Udp := (17, 8), R.Gre := (47, 4), R.Nvgre := (47, 8), R.Esp := (50, 8), R.Ah := (51, 12),
    R.L2tpv3 := (115, 4), R.Mpls := (0, 4), R.GreKey := (0, 4), R.Vxlan := (0, 8), R.VxlanGpe := (0, 8),
    R.Geneve := (0, 8), R.Gtp := (0, 8), R.Pfcp := (0, 16)]

  /** Ethernet and IPv4 items with default fields and any of these: the type is IPv4, the protocol is
      the assigned one, and the headers take the octets their formats define. */
  lemma EthernetIpAnd(eth: R.Item, ip: R.Item, x: R.Item)
    requires R.Complete([eth, ip, x]) && eth.kind == R.Eth && ip.kind == R.Ipv4 && x.kind in FORMATS
    requires Own(ip, 9) == 0
    ensures var w := R.Wire([eth, ip, x]);
      && |w| == 34 + FORMATS[x.kind].1
      && Word(w, 12) == 0x0800 && Octet(w, 14) == 0x45 && Octet(w, 23) == FORMATS[x.kind].0
  {
    hide R.Wire, R.HeaderOf, R.Complete, R.Total, R.Upper, R.Size, Octet, Here, FORMATS;
    var items, w := [eth, ip, x], R.Wire([eth, ip, x]);
    ThreeHeaders(eth, ip, x);
    AllIsHere(items);
    HereRest(w, 0, items);
    HereOctet(w, 0, items, 12);
    HereOctet(w, 0, items, 13);
    HereOctet(w, 14, items[1..], 0);
    HereOctet(w, 14, items[1..], 9);
    R.HeaderFields(eth, 0x0800);
    R.HeaderFields(ip, FORMATS[x.kind].0);
  }

  lemma ThreeHeaders(eth: R.Item, ip: R.Item, x: R.Item)
    requires eth.kind == R.Eth && ip.kind == R.Ipv4 && x.kind in FORMATS
    ensures var items := [eth, ip, x];
      && items[1..] == [ip, x] && items[1..][1..] == [x] && R.Total(items) == 34 + FORMATS[x.kind].1
      && R.Upper(items[1..]) == 0x0800 && R.Upper(items[1..][1..]) == FORMATS[x.kind].0
      && R.Size(eth.kind) == 14 && R.Size(ip.kind) == 20
  {
    var items := [eth, ip, x];
    assert items[1..] == [ip, x] && items[1..][1..] == [x] && [x][1..] == [];
    assert R.Total([x]) == R.Size(x.kind) && R.Total([ip, x]) == 20 + R.Size(x.kind);
  }

  /** Kinds that no header below can announce are passed over. */
  lemma PassedOver(items: Items)
    requires items != []
    ensures R.Upper(items) == R.Upper(items[1..]) ||
      items[0].kind !in {R.Eth, R.Vxlan, R.VxlanGpe, R.Geneve, R.Gtp, R.Pfcp}
  {
  }

  /** The flags of the tunnel headers: VXLAN says that its network identifier is valid, and nothing
      else (section 5 of RFC 7348); VXLAN-GPE says so and that it names its payload; NVGRE has a key and
      carries Ethernet frames (section 3.2 of RFC 7637). */
  lemma TunnelFlags(p: Packet, at: nat, items: Items)
    requires R.Complete(items) && items != [] && Here(p, at, items)
    ensures IsKind(items, 0, R.Vxlan) ==> Word(p, at) == 0x0800 && Word(p, at + 2) == 0
    ensures IsKind(items, 0, R.VxlanGpe) ==> Octet(p, at) / 8 % 2 == 1 && Octet(p, at) / 4 % 2 == 1
    ensures IsKind(items, 0, R.Nvgre) ==> Word(p, at) == 0x2000 && Word(p, at + 2) == 0x6558
  {
    hide Here;
    if IsKind(items, 0, R.Nvgre) {
      HereOctet(p, at, items, 0);
      HereOctet(p, at, items, 1);
      HereOctet(p, at, items, 2);
      HereOctet(p, at, items, 3);
    }
    if IsKind(items, 0, R.Vxlan) {
      HereOctet(p, at, items, 0);
      HereOctet(p, at, items, 1);
      HereOctet(p, at, items, 2);
      HereOctet(p, at, items, 3);
    }
    if IsKind(items, 0, R.VxlanGpe) {
      HereOctet(p, at, items, 0);
    }
  }
}
