/** The echo reply built in place from an echo request, seen as little-endian 16-bit words. */
module IcmpEcho {
  import opened Checksums

  const ECHO_REQUEST: Word := 8   // type 8, code 0
  const ECHO_REPLY: Word := 0

  /** The incremental update (RFC 1624): subtract the request word, add the reply word. */
  function UpdatedChecksum(cksum: Word): Word {
    var sum := (0xFFFF - cksum) + (0xFFFF - ECHO_REQUEST) + ECHO_REPLY;
    var once := sum % 65536 + sum / 65536;
    var twice := once % 65536 + once / 65536;
    0xFFFF - twice
  }

  /** `is_multicast_ipv4_addr`: the first octet is 224. */
  predicate IsMulticast(firstWord: Word) {
    firstWord % 256 == 0xE0
  }

  /** The second word of an address with its last two bits set to 1, or to 2 if they were 1. */
  function OtherHost(secondWord: Word): Word {
    var last := secondWord / 256;
    var last' := if last % 4 == 1 then last - last % 4 + 2 else last - last % 4 + 1;
    last' * 256 + secondWord % 256
  }

  /** The third octet of the address and all but the last two bits of the fourth stay; those two
      bits, seen as a number, become 1, or 2 if they were 1. */
  predicate OnlyHostBitsChange(before: Word, after: Word) {
    && after % 256 == before % 256
    && after / 256 / 4 == before / 256 / 4
    && after / 256 % 4 == if before / 256 % 4 == 1 then 2 else 1
  }

  /** So the address always changes. */
  lemma OtherHostBits(secondWord: Word)
    ensures OnlyHostBitsChange(secondWord, OtherHost(secondWord))
    ensures OtherHost(secondWord) != secondWord
  {
  }

  /** The Ethernet header with source and destination exchanged. */
  function Swapped(eth: seq<Word>): seq<Word>
    requires |eth| == 7
  {
    eth[3..6] + eth[..3] + eth[6..]
  }

  method SwapStations(eth: array<Word>)
    requires eth.Length == 7
    modifies eth
    ensures eth[..] == Swapped(old(eth[..]))
  {
    var addr0, addr1, addr2 := eth[3], eth[4], eth[5];
    eth[3], eth[4], eth[5] := eth[0], eth[1], eth[2];
    eth[0], eth[1], eth[2] := addr0, addr1, addr2;
  }

  /** The reply to one request: Ethernet header, IP header of twenty bytes, ICMP message. Words 0
      to 2 of the Ethernet header are the destination address, 3 to 5 the source; words 6 and 7
      of the IP header are the source address, 8 and 9 the destination. */
  method ReplyInPlace(eth: array<Word>, ip: array<Word>, icmp: array<Word>)
    requires eth.Length == 7 && ip.Length == 10 && icmp.Length >= 4 && ip != icmp && eth != ip && eth != icmp
    requires icmp[0] == ECHO_REQUEST
    modifies eth, ip, icmp
    ensures eth[..] == Swapped(old(eth[..]))
    ensures forall i :: 0 <= i < 3 ==> eth[i] == old(eth[i + 3]) && eth[i + 3] == old(eth[i])
    ensures eth[6] == old(eth[6]) && icmp[0] == 0 && forall i :: 2 <= i < icmp.Length ==> icmp[i] == old(icmp[i])
    ensures icmp[..] == old(icmp[..])[0 := ECHO_REPLY][1 := UpdatedChecksum(old(icmp[1]))]
    ensures ip[8] == old(ip[6]) && ip[9] == old(ip[7])
    ensures forall i :: 0 <= i < 5 ==> ip[i] == old(ip[i])
    ensures old(ip[8]) % 256 != 224 ==>
      ip[5] == old(ip[5]) && ip[6] == old(ip[8]) && ip[7] == old(ip[9]) && (Accepted(ip[..]) <==> old(Accepted(ip[..])))
    ensures old(ip[8]) % 256 == 224 ==>
      ip[6] == old(ip[6]) && ip[7] == OtherHost(old(ip[7])) != old(ip[7]) && Accepted(ip[..])
    ensures old(ip[8]) % 256 == 224 ==> OnlyHostBitsChange(old(ip[7]), ip[7])
  {
    hide Accepted, UpdatedChecksum, OtherHost, OnlyHostBitsChange;
    ghost var before: Header := ip[..];
    SwapStations(eth);
    var src0, src1 := ip[6], ip[7];
    if IsMulticast(ip[8]) {
      OtherHostBits(src1);
      ip[7] := OtherHost(src1);
      ip[8], ip[9] := src0, src1;
      StoreChecksum(ip);
    } else {
      ip[6], ip[7] := ip[8], ip[9];
      ip[8], ip[9] := src0, src1;
      SwapKeepsAcceptance(before, ip[..]);
    }
    icmp[0] := ECHO_REPLY;
    icmp[1] := UpdatedChecksum(icmp[1]);
  }

  /** Exchanging source and destination does not change the sum. */
  lemma SwapKeepsAcceptance(h: Header, h': Header)
    requires h' == h[6 := h[8]][7 := h[9]][8 := h[6]][9 := h[7]]
    ensures Accepted(h') <==> Accepted(h)
  {
    SumOfHeader(h);
    SumOfHeader(h');
    AcceptedExactly(h);
    AcceptedExactly(h');
  }

  /** The update keeps the sum of the message modulo 65535. */
  lemma UpdateKeepsSum(m: seq<Word>)
    requires |m| >= 4 && m[0] == ECHO_REQUEST
    ensures Sum(m[0 := ECHO_REPLY][1 := UpdatedChecksum(m[1])]) % 65535 == Sum(m) % 65535
  {
    SumUpdate(m, 0, ECHO_REPLY);
    SumUpdate(m[0 := ECHO_REPLY], 1, UpdatedChecksum(m[1]));
    UpdatedChecksumAddsEight(m[1]);
    var s: int, t: int := Sum(m), Sum(m[0 := ECHO_REPLY][1 := UpdatedChecksum(m[1])]);
    assert t - s == UpdatedChecksum(m[1]) - m[1] - 8;
  }

  lemma UpdatedChecksumAddsEight(cksum: Word)
    ensures UpdatedChecksum(cksum) == if cksum + 8 < 65535 then cksum + 8 else cksum + 8 - 65535
  {
  }

  /** A reply to an acceptable request is acceptable exactly when some word after the
      checksum is nonzero: an empty request with identifier and sequence number 0 gets a
      reply of zeros only. */
  lemma ReplyAcceptedExactly(m: seq<Word>)
    requires |m| >= 4 && m[0] == ECHO_REQUEST && Accepted(m)
    ensures Accepted(m[0 := ECHO_REPLY][1 := UpdatedChecksum(m[1])]) <==> exists i :: 2 <= i < |m| && m[i] != 0
  {
    var m' := m[0 := ECHO_REPLY][1 := UpdatedChecksum(m[1])];
    UpdateKeepsSum(m);
    AcceptedExactly(m);
    AcceptedExactly(m');
    UpdatedChecksumAddsEight(m[1]);
    SumHeadTwo(m);
    SumHeadTwo(m');
    assert m'[2..] == m[2..];
    SumZeroExactly(m[2..]);
    if i :| 2 <= i < |m| && m[i] != 0 {
      assert m[2..][i - 2] != 0;
    }
  }

  /** An acceptable request whose reply is not: identifier, sequence number and data all 0. */
  lemma EmptyRequestIsRefused()
    ensures var m: seq<Word> := [ECHO_REQUEST, 0xFFF7, 0, 0];
      Accepted(m) && !Accepted(m[0 := ECHO_REPLY][1 := UpdatedChecksum(m[1])])
  {
    var m: seq<Word> := [ECHO_REQUEST, 0xFFF7, 0, 0];
    SumHeadTwo(m);
    SumZeroExactly(m[2..]);
    AcceptedExactly(m);
    ReplyAcceptedExactly(m);
  }

  lemma SumHeadTwo(m: seq<Word>)
    requires |m| >= 2
    ensures Sum(m) == m[0] + m[1] + Sum(m[2..])
  {
    SumSnoc([], m[0]);
    SumSnoc([m[0]], m[1]);
    SumConcat([m[0]] + [m[1]], m[2..]);
    assert [] + [m[0]] == [m[0]];
    assert m == [m[0]] + [m[1]] + m[2..];
  }

  lemma {:induction false} SumZeroExactly(ws: seq<Word>)
    ensures Sum(ws) == 0 <==> forall i :: 0 <= i < |ws| ==> ws[i] == 0
  {
    if ws != [] {
      SumZeroExactly(ws[..|ws| - 1]);
    }
  }
}
