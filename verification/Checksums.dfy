/** The Internet checksum (RFC 1071) in the several ways the forwarding engines compute it. */
module Checksums {

  type Word = w: int | 0 <= w < 65536

  /** One's complement addition: add with end-around carry. */
  function OcAdd(a: Word, b: Word): Word {
    if a + b < 65536 then a + b else a + b - 65535
  }

  function OcSum(ws: seq<Word>): Word {
    if ws == [] then 0 else OcAdd(OcSum(ws[..|ws| - 1]), ws[|ws| - 1])
  }

  function Sum(ws: seq<Word>): nat {
    if ws == [] then 0 else Sum(ws[..|ws| - 1]) + ws[|ws| - 1]
  }

  /** A header or message is accepted when its words, checksum included, add up to -0. */
  predicate Accepted(ws: seq<Word>) {
    OcSum(ws) == 0xFFFF
  }

  /** w is congruent to n modulo 65535, and 0 only for 0; one word has this property. */
  predicate Reduces(w: nat, n: nat) {
    w % 65535 == n % 65535 && (w == 0 <==> n == 0)
  }

  /** Folding the high half onto the low half. */
  lemma FoldReduces(sum: nat, n: nat)
    requires Reduces(sum, n)
    ensures Reduces(sum % 65536 + sum / 65536, n)
    ensures sum >= 65536 ==> sum % 65536 + sum / 65536 < sum
  {
    assert sum - (sum % 65536 + sum / 65536) == sum / 65536 * 65535;
  }

  lemma EmptyReduces()
    ensures Reduces(0, Sum([]))
  {
  }

  lemma AddReduces(sum: nat, n: nat, w: Word)
    requires Reduces(sum, n)
    ensures Reduces(sum + w, n + w)
  {
  }

  lemma ReducesUniquely(w: Word, w': Word, n: nat)
    requires Reduces(w, n) && Reduces(w', n)
    ensures w == w'
  {
  }

  /** One's complement addition is addition modulo 65535, with two zeros. */
  lemma {:induction false} OcSumReduces(ws: seq<Word>)
    ensures Reduces(OcSum(ws), Sum(ws))
  {
    hide OcAdd, Reduces;
    if ws == [] {
      EmptyReduces();
    } else {
      var n := |ws| - 1;
      OcSumReduces(ws[..n]);
      OcAddReduces(OcSum(ws[..n]), ws[n], Sum(ws[..n]));
    }
  }

  lemma OcAddReduces(a: Word, w: Word, n: nat)
    requires Reduces(a, n)
    ensures Reduces(OcAdd(a, w), n + w)
  {
    AddReduces(a, n, w);
    FoldReduces(a + w, n + w);
    assert OcAdd(a, w) == if a + w < 65536 then a + w else (a + w) % 65536 + (a + w) / 65536;
  }

  lemma AcceptedExactly(ws: seq<Word>)
    ensures Accepted(ws) <==> Sum(ws) > 0 && Sum(ws) % 65535 == 0
  {
    OcSumReduces(ws);
  }

  // ---------------------------------------------------------------- reductions

  /** txonly, shunt and aggre: fold once, then subtract 65535 if that overflowed. */
  function ReduceBySubtraction(sum: nat): Word
    requires sum < 0x1_0000_0000
  {
    var folded := sum / 65536 + sum % 65536;
    var word := if folded > 65535 then folded - 65535 else folded;
    var complement := 65535 - word;
    if complement == 0 then 0xFFFF else complement
  }

  /** icmpecho: fold twice. */
  function ReduceByFolding(sum: nat): Word
    requires sum < 0x1_0000_0000
  {
    var once := sum % 65536 + sum / 65536;
    var twice := once % 65536 + once / 65536;
    var complement := 65535 - twice;
    if complement == 0 then 0xFFFF else complement
  }

  /** The two reductions agree on every 32-bit sum. */
  lemma ReductionsAgree(sum: nat)
    requires sum < 0x1_0000_0000
    ensures ReduceBySubtraction(sum) == ReduceByFolding(sum)
    ensures ReduceBySubtraction(sum) > 0
    ensures (ReduceBySubtraction(sum) + sum) % 65535 == 0
  {
  }

  /** The 20-byte IPv4 header as ten words; word 5 is the checksum. */
  type Header = h: seq<Word> | |h| == 10 witness seq(10, _ => 0)

  /** The sum that skips the checksum field. */
  function SumSkippingChecksum(h: Header): (s: nat)
    ensures s <= 9 * 65535
  {
    (h[0] as int) + h[1] + h[2] + h[3] + h[4] + h[6] + h[7] + h[8] + h[9]
  }

  lemma {:induction false} SumSnoc(ws: seq<Word>, w: Word)
    ensures Sum(ws + [w]) == Sum(ws) + w
  {
    assert (ws + [w])[..|ws|] == ws;
  }

  lemma {:induction false} SumConcat(a: seq<Word>, b: seq<Word>)
    ensures Sum(a + b) == Sum(a) + Sum(b)
  {
    if b == [] {
      assert a + b == a;
    } else {
      SumConcat(a, b[..|b| - 1]);
      assert (a + b)[..|a + b| - 1] == a + b[..|b| - 1];
    }
  }

  /** Changing one word changes the sum by the difference. */
  lemma SumUpdate(ws: seq<Word>, i: nat, w: Word)
    requires i < |ws|
    ensures Sum(ws[i := w]) == Sum(ws) - ws[i] + w
  {
    SumSnoc(ws[..i], w);
    SumSnoc(ws[..i], ws[i]);
    SumConcat(ws[..i] + [w], ws[i + 1..]);
    SumConcat(ws[..i] + [ws[i]], ws[i + 1..]);
    assert ws[i := w] == ws[..i] + [w] + ws[i + 1..];
    assert ws == ws[..i] + [ws[i]] + ws[i + 1..];
  }

  lemma SumOfHeader(h: Header)
    ensures Sum(h) == SumSkippingChecksum(h) + h[5]
  {
    var a := h[..5];
    var b := h[5..];
    assert h == a + b;
    SumConcat(a, b);
    SumOfFive(a);
    SumOfFive(b);
  }

  lemma SumOfFive(a: seq<Word>)
    requires |a| == 5
    ensures Sum(a) == (a[0] as int) + a[1] + a[2] + a[3] + a[4]
  {
    SumSnoc([], a[0]);
    SumSnoc([a[0]], a[1]);
    SumSnoc([a[0], a[1]], a[2]);
    SumSnoc([a[0], a[1], a[2]], a[3]);
    SumSnoc([a[0], a[1], a[2], a[3]], a[4]);
    assert [] + [a[0]] == [a[0]] && [a[0]] + [a[1]] == [a[0], a[1]];
    assert [a[0], a[1]] + [a[2]] == [a[0], a[1], a[2]];
    assert [a[0], a[1], a[2]] + [a[3]] == [a[0], a[1], a[2], a[3]];
    assert a == [a[0], a[1], a[2], a[3]] + [a[4]];
  }

  /** `ip_sum` of flowgen over the first hdr_len bytes, in 32-bit arithmetic: it never wraps,
      ends, and gives the complement of the one's complement sum. An odd last byte is
      ignored. */
  method IpSum(hdr: seq<Word>, hdrLen: int) returns (r: Word)
    requires hdrLen / 2 <= |hdr|
    ensures r == 0xFFFF - OcSum(hdr[..if hdrLen < 2 then 0 else hdrLen / 2])
  {
    hide Reduces, Sum, OcSum;
    var sum: int, left: int, i: int := 0, hdrLen, 0;
    EmptyReduces();
    assert hdr[..0] == [];
    ghost var n := if hdrLen < 2 then 0 else hdrLen / 2;
    while left > 1
      invariant left == hdrLen - 2 * i && 0 <= i <= n
      invariant 0 <= sum < 0x8000_0000 && Reduces(sum, Sum(hdr[..i]))
      decreases left
    {
      SumSnoc(hdr[..i], hdr[i]);
      assert hdr[..i + 1] == hdr[..i] + [hdr[i]];
      AddReduces(sum, Sum(hdr[..i]), hdr[i]);
      sum := sum + hdr[i];
      assert sum < 0x1_0000_0000;
      if sum >= 0x8000_0000 {
        FoldReduces(sum, Sum(hdr[..i + 1]));
        sum := sum % 65536 + sum / 65536;
      }
      i, left := i + 1, left - 2;
    }
    while sum / 65536 != 0
      invariant 0 <= sum < 0x8000_0000 && Reduces(sum, Sum(hdr[..n]))
      decreases sum
    {
      FoldReduces(sum, Sum(hdr[..n]));
      sum := sum % 65536 + sum / 65536;
    }
    OcSumReduces(hdr[..n]);
    ReducesUniquely(sum, OcSum(hdr[..n]), Sum(hdr[..n]));
    r := 0xFFFF - sum;
  }

  lemma ComplementCompletes(s: nat, w: Word)
    requires Reduces(w, s)
    ensures s + (0xFFFF - w) > 0 && (s + (0xFFFF - w)) % 65535 == 0
  {
  }

  lemma ReductionIs(s: nat, w: Word)
    requires Reduces(w, s) && s < 0x1_0000_0000
    ensures ReduceBySubtraction(s) == if w == 0xFFFF then 0xFFFF else 0xFFFF - w
  {
    var folded := s / 65536 + s % 65536;
    FoldReduces(s, s);
    ReducesUniquely(if folded > 65535 then folded - 65535 else folded, w, s);
  }

  lemma SameSkippingSum(h: Header, ck: Word)
    ensures SumSkippingChecksum(h[5 := ck]) == SumSkippingChecksum(h)
  {
  }

  /** The checksum of the skip-and-reduce engines makes the header acceptable. */
  lemma ReducedChecksumIsAccepted(h: Header)
    ensures Accepted(h[5 := ReduceBySubtraction(SumSkippingChecksum(h))])
  {
    var s := SumSkippingChecksum(h);
    ReductionsAgree(s);
    var h' := h[5 := ReduceBySubtraction(s)];
    SumOfHeader(h');
    AcceptedExactly(h');
  }

  /** So does flowgen's, computed over the header with a zero checksum field, and the two
      are equal except that flowgen may write 0 where the others write 0xFFFF. */
  lemma FlowgenChecksumAgrees(h: Header, ck: Word)
    requires ck == 0xFFFF - OcSum(h[5 := 0])
    ensures Accepted(h[5 := ck])
    ensures ReduceBySubtraction(SumSkippingChecksum(h)) == if ck == 0 then 0xFFFF else ck
  {
    hide Sum, OcSum, SumSkippingChecksum, ReduceBySubtraction;
    var s := SumSkippingChecksum(h);
    SumOfHeader(h[5 := 0]);
    OcSumReduces(h[5 := 0]);
    SumOfHeader(h[5 := ck]);
    SameSkippingSum(h, 0);
    SameSkippingSum(h, ck);
    AcceptedExactly(h[5 := ck]);
    ComplementCompletes(s, OcSum(h[5 := 0]));
    ReductionIs(s, OcSum(h[5 := 0]));
  }

  /** `setup_pkt_udp_ip_headers`, `shunt_begin` and the aggregation engine: the sum is built
      word by word, reduced and stored in the checksum field. */
  method StoreChecksum(h: array<Word>)
    requires h.Length == 10
    modifies h
    ensures h[..] == old(h[..])[5 := h[5]] && Accepted(h[..])
    ensures h[5] == ReduceByFolding(SumSkippingChecksum(old(h[..])))
  {
    ghost var before: Header := h[..];
    var ipCksum: int := 0;
    ipCksum := ipCksum + h[0]; ipCksum := ipCksum + h[1];
    ipCksum := ipCksum + h[2]; ipCksum := ipCksum + h[3];
    ipCksum := ipCksum + h[4];
    ipCksum := ipCksum + h[6]; ipCksum := ipCksum + h[7];
    ipCksum := ipCksum + h[8]; ipCksum := ipCksum + h[9];
    assert ipCksum == SumSkippingChecksum(before);
    ReductionsAgree(ipCksum);
    ReducedChecksumIsAccepted(before);
    ipCksum := ipCksum / 65536 + ipCksum % 65536;
    if ipCksum > 65535 {
      ipCksum := ipCksum - 65535;
    }
    ipCksum := 65535 - ipCksum;
    if ipCksum == 0 {
      ipCksum := 0xFFFF;
    }
    h[5] := ipCksum;
  }
}
