/** The record of header lengths as the checksum engine fills it in place, one record for all
    packets of a burst. */
module OffloadInfo {

  import opened HeaderStacks
  import opened TunnelParser

  class Record {
    var ethertype: nat
    var l2Len: nat
    var l3Len: nat
    var l4Len: nat
    var l4Proto: nat
    var isTunnel: bool
    var outerEthertype: nat
    var outerL2Len: nat
    var outerL3Len: nat
    var outerL4Proto: nat

    ghost function View(): Info
      reads this
    {
      Info(ethertype, l2Len, l3Len, l4Len, l4Proto, isTunnel, outerEthertype, outerL2Len, outerL3Len, outerL4Proto)
    }

    /** Cleared at the start of a burst. */
    constructor ()
      ensures View() == Info(0, 0, 0, 0, 0, false, 0, 0, 0, 0)
    {
      ethertype, l2Len, l3Len, l4Len, l4Proto, isTunnel := 0, 0, 0, 0, 0, false;
      outerEthertype, outerL2Len, outerL3Len, outerL4Proto := 0, 0, 0, 0;
    }

    method ParseL4(p: Packet, at: nat)
      modifies this
      ensures View() == old(View()).(l4Len := L4Parsed(p, at, old(l4Proto)))
    {
      if l4Proto == PROTO_TCP {
        l4Len := Octet(p, at + 12) / 16 * 4;
      } else if l4Proto == PROTO_UDP {
        l4Len := 8;
      } else {
        l4Len := 0;
      }
    }

    method ParseIpv4(p: Packet, at: nat)
      modifies this
      ensures View() == Ipv4Parsed(p, at, old(View()))
    {
      l3Len := Octet(p, at) % 16 * 4;
      l4Proto := Octet(p, at + 9);
      ParseL4(p, at + l3Len);
    }

    method ParseIpv6(p: Packet, at: nat)
      modifies this
      ensures View() == Ipv6Parsed(p, at, old(View()))
    {
      l3Len := 40;
      l4Proto := Octet(p, at + 6);
      ParseL4(p, at + l3Len);
    }

    /** `parse_ethernet`: any number of VLAN tags, then the IP header if there is one. */
    method ParseEthernet(p: Packet, at: nat)
      modifies this
      ensures View() == EthernetParsed(p, at, old(View()))
    {
      l2Len := 14;
      ethertype := Word(p, at + 12);
      while IsTag(ethertype)
        invariant l2Len >= 14 && ethertype == Word(p, at + l2Len - 2)
        invariant TagsParsed(p, at, 14) == TagsParsed(p, at, l2Len)
        invariant View() == old(View()).(l2Len := l2Len, ethertype := ethertype)
        decreases |p| + 2 - at - l2Len
      {
        l2Len := l2Len + 4;
        ethertype := Word(p, at + l2Len - 2);
      }
      if ethertype == ETHER_IPV4 {
        ParseIpv4(p, at + l2Len);
      } else if ethertype == ETHER_IPV6 {
        ParseIpv6(p, at + l2Len);
      } else {
        l4Len, l3Len, l4Proto := 0, 0, 0;
      }
    }

    method UpdateTunnelOuter()
      modifies this
      ensures View() == Saved(old(View()))
    {
      isTunnel := true;
      outerEthertype, outerL2Len, outerL3Len, outerL4Proto := ethertype, l2Len, l3Len, l4Proto;
    }

    method ParseGtp(p: Packet, udp: nat)
      modifies this
      ensures View() == GtpParsed(p, udp, old(View()))
    {
      hide Octet, L4Parsed;
      if DstPort(p, udp) != PORT_GTPC && SrcPort(p, udp) != PORT_GTPC && DstPort(p, udp) != PORT_GTPU {
        return;
      }
      UpdateTunnelOuter();
      l2Len := 0;
      if Octet(p, udp + 9) == 0xFF {
        var version := Octet(p, udp + 16) / 16;
        if version == 4 {
          ethertype := ETHER_IPV4;
          ParseIpv4(p, udp + 16);
        } else if version == 6 {
          ethertype := ETHER_IPV6;
          ParseIpv6(p, udp + 16);
        }
      } else {
        ethertype, l4Len, l3Len, l4Proto := 0, 0, 0, 0;
      }
      l2Len := l2Len + 16;
    }

    method ParseVxlan(p: Packet, c: Config, udp: nat)
      modifies this
      ensures View() == VxlanParsed(p, c, udp, old(View()))
    {
      if DstPort(p, udp) != PORT_VXLAN && !c.nicTunnel {
        return;
      }
      UpdateTunnelOuter();
      ParseEthernet(p, udp + 16);
      l2Len := l2Len + 16;
    }

    method ParseVxlanGpe(p: Packet, c: Config, udp: nat)
      modifies this
      ensures View() == GpeParsed(p, c, udp, old(View()))
    {
      hide Octet, L4Parsed, EthernetParsed;
      if DstPort(p, udp) != c.gpePort {
        return;
      }
      var next := Octet(p, udp + 11);
      if next == 0 || next == 1 {
        UpdateTunnelOuter();
        ParseIpv4(p, udp + 16);
        ethertype, l2Len := ETHER_IPV4, 0;
      } else if next == 2 {
        UpdateTunnelOuter();
        ethertype := ETHER_IPV6;
        ParseIpv6(p, udp + 16);
        l2Len := 0;
      } else if next == 3 {
        UpdateTunnelOuter();
        ParseEthernet(p, udp + 16);
      } else {
        return;
      }
      l2Len := l2Len + 16;
    }

    method ParseGeneve(p: Packet, c: Config, udp: nat)
      modifies this
      ensures View() == GeneveParsed(p, c, udp, old(View()))
    {
      hide Octet, Word, L4Parsed, EthernetParsed;
      if DstPort(p, udp) != c.genevePort {
        return;
      }
      var len := 8 + Octet(p, udp + 8) % 64 * 4;
      var proto := Word(p, udp + 10);
      if proto == 0 || proto == ETHER_IPV4 {
        UpdateTunnelOuter();
        ParseIpv4(p, udp + 8 + len);
        ethertype, l2Len := ETHER_IPV4, 0;
      } else if proto == ETHER_IPV6 {
        UpdateTunnelOuter();
        ParseIpv6(p, udp + 8 + len);
        ethertype, l2Len := ETHER_IPV6, 0;
      } else if proto == ETHER_TEB {
        UpdateTunnelOuter();
        ParseEthernet(p, udp + 8 + len);
      } else {
        return;
      }
      l2Len := l2Len + (8 + len);
    }

    method ParseGre(p: Packet, gre: nat)
      modifies this
      ensures View() == GreParsed(p, gre, old(View()))
    {
      hide Octet, Word, L4Parsed, EthernetParsed;
      var len, flags := 4, Word(p, gre);
      if flags / 0x2000 % 2 == 1 {
        len := len + 4;
      }
      if flags / 0x1000 % 2 == 1 {
        len := len + 4;
      }
      if flags / 0x8000 % 2 == 1 {
        len := len + 4;
      }
      var proto := Word(p, gre + 2);
      if proto == ETHER_IPV4 {
        UpdateTunnelOuter();
        ParseIpv4(p, gre + len);
        ethertype, l2Len := ETHER_IPV4, 0;
      } else if proto == ETHER_IPV6 {
        UpdateTunnelOuter();
        ethertype := ETHER_IPV6;
        ParseIpv6(p, gre + len);
        l2Len := 0;
      } else if proto == ETHER_TEB {
        UpdateTunnelOuter();
        ParseEthernet(p, gre + len);
      } else {
        return;
      }
      l2Len := l2Len + len;
    }

    /** `parse_encap_ip`, which leaves the outer layer 4 protocol alone. */
    method ParseEncapIp(p: Packet, at: nat)
      modifies this
      ensures View() == IpIpParsed(p, at, old(View()))
    {
      hide Octet, L4Parsed;
      var version := Octet(p, at) / 16;
      if version != 4 && version != 6 {
        return;
      }
      isTunnel := true;
      outerEthertype, outerL2Len, outerL3Len := ethertype, l2Len, l3Len;
      if version == 4 {
        ParseIpv4(p, at);
        ethertype := ETHER_IPV4;
      } else {
        ParseIpv6(p, at);
        ethertype := ETHER_IPV6;
      }
      l2Len := 0;
    }

    /** The tunnel dispatch after the outer headers are parsed. */
    method ParseTunnel(p: Packet, c: Config, at: nat) returns (kind: Kind)
      requires !isTunnel
      modifies this
      ensures (View(), kind) == TunnelParsed(p, c, at, old(View()))
      ensures isTunnel <==> kind != NoKind
    {
      hide GtpParsed, GpeParsed, VxlanParsed, GeneveParsed, GreParsed, IpIpParsed;
      hide GtpClaims, GpeClaims, VxlanClaims, GeneveClaims, GreClaims, IpIpClaims;
      EveryTunnelIsMarked(p, c, at, View());
      if l4Proto == PROTO_UDP {
        ParseGtp(p, at);
        if isTunnel {
          return GtpKind;
        }
        ParseVxlanGpe(p, c, at);
        if isTunnel {
          return VxlanGpeKind;
        }
        ParseVxlan(p, c, at);
        if isTunnel {
          return VxlanKind;
        }
        ParseGeneve(p, c, at);
        if isTunnel {
          return GeneveKind;
        }
      } else if l4Proto == PROTO_GRE {
        ParseGre(p, at);
        if isTunnel {
          return GreKind;
        }
      } else if l4Proto == PROTO_IPIP {
        ParseEncapIp(p, at);
        if isTunnel {
          return IpIpKind;
        }
      }
      kind := NoKind;
    }

    /** Step 1 of `pkt_burst_checksum_forward` for one packet. */
    method Dissect(p: Packet, c: Config, parseTunnel: bool) returns (kind: Kind, l3: nat, outerL3: nat)
      requires |p| <= MAX_PACKET && Fits(View())
      modifies this
      ensures Dissection(View(), kind, l3, outerL3) == Dissected(p, c, parseTunnel, old(View()))
      ensures Fits(View())
    {
      hide EthernetParsed, TunnelParsed, Fits;
      LengthsFit(p, c, parseTunnel, View());
      isTunnel, kind := false, NoKind;
      ParseEthernet(p, 0);
      EthernetIsNoTunnel(p, 0, old(View()).(isTunnel := false));
      l3 := l2Len;
      outerL3 := l3;
      if parseTunnel {
        kind := ParseTunnel(p, c, l3 + l3Len);
      }
      if isTunnel {
        outerL3 := l3;
        l3 := l3 + outerL3Len + l2Len;
      }
    }
  }

  lemma EthernetIsNoTunnel(p: Packet, at: nat, i: Info)
    ensures EthernetParsed(p, at, i).isTunnel == i.isTunnel
  {
  }
}
