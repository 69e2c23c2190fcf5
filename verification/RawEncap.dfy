/** Building raw encapsulation headers: from the last item to the first, into the tail of a
    fixed buffer, then moved to its front. */
module RawEncap {

  import opened Bytes
  import opened Options

  const MAX_DATA: nat := 128

  datatype Kind =
    | Eth | Vlan | Ipv4 | Ipv6 | Udp | Tcp | Vxlan | VxlanGpe | Gre | GreKey | Mpls | Nvgre
    | Geneve | L2tpv3 | Esp | Ah | Gtp | Pfcp | Unsupported

  /** A pattern item; `mask` is the default mask of its kind, used when it has no specification. */
  datatype Item = Item(kind: Kind, spec: Option<seq<Byte>>, mask: seq<Byte>)

  function Octets(item: Item): seq<Byte> {
    if item.spec.None? then item.mask else item.spec.value
  }

  function Size(kind: Kind): nat {
    match kind
    case Eth => 14
    case Vlan => 4
    case Ipv4 => 20
    case Ipv6 => 40
    case Udp => 8
    case Tcp => 20
    case Vxlan => 8
    case VxlanGpe => 8
    case Gre => 4
    case GreKey => 4
    case Mpls => 4
    case Nvgre => 8
    case Geneve => 8
    case L2tpv3 => 4
    case Esp => 8
    case Ah => 12
    case Gtp => 8
    case Pfcp => 16
    case Unsupported => 0
  }

  /** The protocol number by which a lower header announces this one, for the kinds that have one. */
  function Announced(kind: Kind): Option<nat> {
    match kind
    case Vlan => Some(0x8100)
    case Ipv4 => Some(0x0800)
    case Ipv6 => Some(0x86DD)
    case Udp => Some(0x11)
    case Tcp => Some(0x06)
    case Gre => Some(0x2F)
    case Nvgre => Some(0x2F)
    case L2tpv3 => Some(0x73)
    case Esp => Some(0x32)
    case Ah => Some(0x33)
    case GreKey => Some(0)
    case Mpls => Some(0)
    case _ => None
  }

  ghost predicate Supported(items: seq<Item>) {
    forall i :: 0 <= i < |items| ==> items[i].kind != Unsupported
  }

  /** A specification has at least the octets its header takes. */
  ghost predicate Complete(items: seq<Item>) {
    forall i :: 0 <= i < |items| ==> Size(items[i].kind) <= |Octets(items[i])|
  }

  function Total(items: seq<Item>): nat {
    if items == [] then 0 else Size(items[0].kind) + Total(items[1..])
  }

  // ---------------------------------------------------------------- patched fields

  /** Is octet `k` of a header one that the builder writes over the item's own? */
  predicate PatchesOctet(kind: Kind, octets: seq<Byte>, next: nat, k: nat)
    requires Size(kind) <= |octets|
  {
    match kind
    case Eth => next != 0 && (k == 12 || k == 13)
    case Ipv4 => k == 0 || (k == 9 && next != 0 && octets[9] == 0)
    case Ipv6 => k == 0 || (k == 6 && next != 0 && octets[6] == 0)
    case Vxlan => k < 4
    case VxlanGpe => k == 0
    case Nvgre => k < 4
    case _ => false
  }

  /** The octet written there. */
  function PatchOctet(kind: Kind, octets: seq<Byte>, next: nat, k: nat): Byte
    requires Size(kind) <= |octets|
  {
    match kind
    case Eth => if k == 12 then next / 256 % 256 else next % 256
    case Ipv4 => if k == 0 then 0x45 else next % 256
    case Ipv6 => if k == 0 then 0x60 + octets[0] % 16 else next % 256
    case Vxlan => if k == 0 then 0x08 else 0
    case VxlanGpe => 0x0C
    case Nvgre => if k == 0 then 0x20 else if k == 1 then 0 else if k == 2 then 0x65 else 0x58
    case _ => 0
  }

  /** An item's header on the wire, given the protocol number of what is above it. */
  function HeaderOf(item: Item, next: nat): (h: seq<Byte>)
    requires Size(item.kind) <= |Octets(item)|
    ensures |h| == Size(item.kind)
  {
    var octets := Octets(item);
    seq(Size(item.kind), k requires 0 <= k < Size(item.kind) =>
      if PatchesOctet(item.kind, octets, next, k) then PatchOctet(item.kind, octets, next, k) else octets[k])
  }

  /** The number announced by the nearest item that announces one; 0 if none does. */
  function Upper(items: seq<Item>): nat {
    if items == [] then 0
    else if Announced(items[0].kind).Some? then Announced(items[0].kind).value
    else Upper(items[1..])
  }

  /** All headers in pattern order. */
  function Wire(items: seq<Item>): (w: seq<Byte>)
    requires Complete(items)
    ensures |w| == Total(items)
  {
    if items == [] then [] else HeaderOf(items[0], Upper(items[1..])) + Wire(items[1..])
  }

  /** The header of every item starts where the sizes of the items before it add up to. */
  lemma {:induction false} WireHoldsHeader(items: seq<Item>, i: nat)
    requires Complete(items) && i < |items|
    ensures Total(items[..i]) + Size(items[i].kind) <= Total(items)
    ensures Wire(items)[Total(items[..i])..Total(items[..i]) + Size(items[i].kind)] ==
      HeaderOf(items[i], Upper(items[i + 1..]))
  {
    hide HeaderOf, Size, Octets, Announced, Upper;
    if i == 0 {
      assert items[..0] == [];
      assert Wire(items)[..Size(items[0].kind)] == HeaderOf(items[0], Upper(items[1..]));
    } else {
      WireHoldsHeader(items[1..], i - 1);
      assert items[..i][0] == items[0] && items[..i][1..] == items[1..][..i - 1];
      assert items[1..][i..] == items[i + 1..];
      var n, at := Size(items[0].kind), Total(items[1..][..i - 1]);
      assert Wire(items)[n + at..n + at + Size(items[i].kind)] == Wire(items[1..])[at..at + Size(items[i].kind)];
    }
  }

  /** Outside the patched fields a header is the item's own octets; an Ethernet, IPv4 or IPv6
      header leaves with the version it must have and names what is above it - an IP header
      with no protocol of its own exactly when the number above fits one octet. */
  lemma HeaderFields(item: Item, next: nat)
    requires Size(item.kind) <= |Octets(item)| && next < 0x1_0000
    ensures item.kind == Eth && next != 0 ==> (HeaderOf(item, next)[12] as int) * 256 + HeaderOf(item, next)[13] == next
    ensures item.kind == Ipv4 ==> HeaderOf(item, next)[0] / 16 == 4 && HeaderOf(item, next)[0] % 16 * 4 == Size(Ipv4)
    ensures item.kind == Ipv4 && Octets(item)[9] == 0 ==> (HeaderOf(item, next)[9] == next <==> next < 256)
    ensures item.kind == Ipv6 ==>
      HeaderOf(item, next)[0] / 16 == 6 && HeaderOf(item, next)[0] % 16 == Octets(item)[0] % 16
    ensures item.kind == Ipv6 && Octets(item)[6] == 0 ==> (HeaderOf(item, next)[6] == next <==> next < 256)
    ensures forall k :: 0 <= k < Size(item.kind) && !PatchesOctet(item.kind, Octets(item), next, k) ==>
      HeaderOf(item, next)[k] == Octets(item)[k]
  {
  }

  lemma {:induction false} UpperFits(items: seq<Item>)
    ensures Upper(items) < 0x1_0000
  {
    if items != [] {
      UpperFits(items[1..]);
    }
  }

  /** The header of item i as it stands among all headers: an Ethernet header names the nearest
      protocol announced above it, an IP header has its version and, if it brings no protocol of
      its own, names that protocol exactly when the number fits one octet; all octets not patched
      are the item's own. */
  lemma WireNamesUpper(items: seq<Item>, i: nat)
    requires Complete(items) && i < |items|
    ensures Total(items[..i]) + Size(items[i].kind) <= Total(items) && Size(items[i].kind) <= |Octets(items[i])|
    ensures var kind, own, upper := items[i].kind, Octets(items[i]), Upper(items[i + 1..]);
      var h := Wire(items)[Total(items[..i])..Total(items[..i]) + Size(kind)];
      && (kind == Eth && upper != 0 ==> (h[12] as int) * 256 + h[13] == upper)
      && (kind == Ipv4 ==> h[0] / 16 == 4 && h[0] % 16 * 4 == Size(Ipv4))
      && (kind == Ipv4 && own[9] == 0 ==> (h[9] == upper <==> upper < 256))
      && (kind == Ipv6 ==> h[0] / 16 == 6 && h[0] % 16 == own[0] % 16)
      && (kind == Ipv6 && own[6] == 0 ==> (h[6] == upper <==> upper < 256))
      && forall k :: 0 <= k < Size(kind) && !PatchesOctet(kind, own, upper, k) ==> h[k] == own[k]
  {
    hide HeaderOf, Wire, Total, Upper, PatchesOctet;
    WireHoldsHeader(items, i);
    UpperFits(items[i + 1..]);
    HeaderFields(items[i], Upper(items[i + 1..]));
  }

  // ---------------------------------------------------------------- the builder

  /** The items the builder gets to: from the last one back to the first unsupported one. */
  function Encoded(items: seq<Item>): (e: seq<Item>)
    ensures |e| <= |items| && e == items[|items| - |e|..]
  {
    if items == [] then []
    else
      var e := Encoded(items[1..]);
      if |e| + 1 == |items| && items[0].kind != Unsupported then items else e
  }

  ghost predicate EveryHeaderFits(items: seq<Item>) {
    forall i :: 0 <= i <= |items| && Supported(items[i..]) ==> Total(items[i..]) <= MAX_DATA
  }

  /** Every header lands inside the buffer, none before its start, exactly when the sizes of the
      items the builder gets to add up to at most 128. */
  lemma EncodedFitsExactly(items: seq<Item>)
    ensures EveryHeaderFits(items) <==> Total(Encoded(items)) <= MAX_DATA
  {
    hide Size, Supported, Encoded;
    var from := |items| - |Encoded(items)|;
    EncodedIsSupported(items);
    if Total(Encoded(items)) <= MAX_DATA {
      forall i | 0 <= i <= |items| && Supported(items[i..]) ensures Total(items[i..]) <= MAX_DATA {
        EncodedIsLongest(items, i);
        TotalOfSuffix(items, from, i);
      }
    } else {
      assert Supported(items[from..]);
    }
  }

  lemma {:induction false} EncodedIsSupported(items: seq<Item>)
    ensures Supported(Encoded(items))
  {
    if items != [] {
      EncodedIsSupported(items[1..]);
      assert forall k :: 0 < k < |items| ==> items[k] == items[1..][k - 1];
    }
  }

  lemma {:induction false} AllEncoded(items: seq<Item>)
    requires Supported(items)
    ensures Encoded(items) == items
  {
    if items != [] {
      AllEncoded(items[1..]);
    }
  }

  /** No supported suffix reaches further back than the items the builder gets to. */
  lemma {:induction false} EncodedIsLongest(items: seq<Item>, i: nat)
    requires i <= |items| && Supported(items[i..])
    ensures |items| - |Encoded(items)| <= i
  {
    hide Supported;
    if i == 0 {
      assert items[0..] == items;
      AllEncoded(items);
    } else {
      assert items[1..][i - 1..] == items[i..];
      EncodedIsLongest(items[1..], i - 1);
    }
  }

  lemma {:induction false} TotalOfSuffix(items: seq<Item>, i: nat, j: nat)
    requires i <= j <= |items|
    ensures Total(items[j..]) <= Total(items[i..])
    decreases j - i
  {
    hide Size;
    if i < j {
      assert items[i..][1..] == items[i + 1..];
      TotalOfSuffix(items, i + 1, j);
    }
  }

  /** Four IPv6 headers take 160 octets: the first would start 32 octets before the buffer. */
  lemma FourHeadersOverrun(item: Item)
    requires item.kind == Ipv6
    ensures !EveryHeaderFits([item, item, item, item])
  {
    var items := [item, item, item, item];
    assert items[0..] == items && Supported(items[0..]);
    assert Total(items[0..]) == 160 by {
      assert items[1..] == [item, item, item] && [item, item, item][1..] == [item, item] && [item, item][1..] == [item];
      assert Total([item]) == 40 && Total([item, item]) == 80 && Total([item, item, item]) == 120;
    }
  }

  class RawConf {
    const data: array<Byte>
    var size: nat

    constructor ()
      ensures data.Length == MAX_DATA && fresh(data)
    {
      data := new Byte[MAX_DATA](_ => 0);
      size := 0;
    }

    method Clear()
      modifies data
      ensures data[..] == Zeros(data.Length)
    {
      forall k | 0 <= k < data.Length {
        data[k] := 0;
      }
    }

    /** `update_fields` on the header that starts at `at`. */
    method UpdateFields(at: nat, item: Item, next: nat)
      requires Size(item.kind) <= |Octets(item)| && at + Size(item.kind) <= data.Length
      requires data[at..at + Size(item.kind)] == Octets(item)[..Size(item.kind)]
      modifies data
      ensures data[at..at + Size(item.kind)] == HeaderOf(item, next)
      ensures data[..at] == old(data[..at]) && data[at + Size(item.kind)..] == old(data[at + Size(item.kind)..])
    {
      ghost var o := Octets(item);
      assert forall k :: 0 <= k < Size(item.kind) ==> data[at + k] == data[at..at + Size(item.kind)][k] == o[k];
      match item.kind {
        case Eth =>
          if next != 0 {
            data[at + 12], data[at + 13] := next / 256 % 256, next % 256;
          }
        case Ipv4 =>
          data[at] := 0x45;
          if next != 0 && data[at + 9] == 0 {
            data[at + 9] := next % 256;
          }
        case Ipv6 =>
          if next != 0 && data[at + 6] == 0 {
            data[at + 6] := next % 256;
          }
          data[at] := data[at] % 16 + 0x60;
        case Vxlan =>
          data[at], data[at + 1], data[at + 2], data[at + 3] := 0x08, 0, 0, 0;
        case VxlanGpe =>
          data[at] := 0x0C;
        case Nvgre =>
          data[at + 2], data[at + 3] := 0x65, 0x58;
          data[at], data[at + 1] := 0x20, 0;
        case _ =>
      }
    }

    /** Putting one item's header before what is built so far. */
    method Prepend(item: Item, next: nat, ghost built: seq<Byte>)
      requires data.Length == MAX_DATA && Size(item.kind) <= |Octets(item)|
      requires size == Size(item.kind) + |built| <= MAX_DATA
      requires data[..] == Zeros(MAX_DATA - |built|) + built
      modifies data
      ensures data[..] == Zeros(MAX_DATA - size) + HeaderOf(item, next) + built
    {
      var at, n, octets := MAX_DATA - size, Size(item.kind), Octets(item);
      ghost var before := data[..];
      forall k | 0 <= k < n {
        data[at + k] := octets[k];
      }
      assert data[at..at + n] == octets[..n];
      assert data[..at] == before[..at] == Zeros(at);
      assert data[at + n..] == before[at + n..] == built;
      UpdateFields(at, item, next);
      assert data[..] == data[..at] + data[at..at + n] + data[at + n..];
    }

    /** The loop of `cmd_set_raw_parsed`: last item first, each header before the one above it. */
    method Encode(items: seq<Item>) returns (supported: bool)
      requires data.Length == MAX_DATA && data[..] == Zeros(MAX_DATA) && size == 0 && Complete(items)
      requires Total(Encoded(items)) <= MAX_DATA
      modifies this, data
      ensures supported <==> Supported(items)
      ensures supported ==> size == Total(items) <= MAX_DATA && data[..] == Zeros(MAX_DATA - size) + Wire(items)
      ensures !supported ==> size == 0 && data[..] == Zeros(MAX_DATA)
    {
      hide HeaderOf, Octets, Size, Announced, Upper, Wire, Total, Supported, Complete;
      var upper, proto, i := 0, 0, |items|;
      EncodedFitsExactly(items);
      NoItems(items);
      while i > 0
        invariant 0 <= i <= |items| && Supported(items[i..]) && Complete(items[i..])
        invariant upper == proto == Upper(items[i..])
        invariant size == Total(items[i..])
        invariant data[..] == Zeros(MAX_DATA - size) + Wire(items[i..])
      {
        i := i - 1;
        var kind := items[i].kind;
        OneMore(items, i);
        if kind == Unsupported {
          size := 0;
          Clear();
          return false;
        }
        if Announced(kind).Some? {
          proto := Announced(kind).value;
        }
        size := size + Size(kind);
        Prepend(items[i], upper, Wire(items[i + 1..]));
        upper := proto;
      }
      assert items[0..] == items;
      supported := true;
    }

    /** `cmd_set_raw_parsed`. When all items are supported the buffer starts with the headers in
        pattern order; otherwise it is all zero. */
    method SetRaw(items: seq<Item>)
      requires data.Length == MAX_DATA && Complete(items)
      requires Total(Encoded(items)) <= MAX_DATA
      modifies this, data
      ensures Supported(items) ==> size == Total(items) <= MAX_DATA && data[..size] == Wire(items)
      ensures Supported(items) ==> data[size..] == (Zeros(MAX_DATA - size) + Wire(items))[size..]
      ensures !Supported(items) ==> size == 0 && data[..] == Zeros(MAX_DATA)
    {
      hide HeaderOf, Octets, Size, Announced, Upper, Wire, Total, Supported, Complete;
      size := 0;
      Clear();
      var supported := Encode(items);
      if !supported {
        return;
      }
      ghost var before := data[..];
      var tail := MAX_DATA - size;
      forall k | 0 <= k < size {
        data[k] := data[tail + k];
      }
      assert data[..size] == before[tail..];
      assert data[size..] == before[size..];
    }
  }

  lemma NoItems(items: seq<Item>)
    requires Complete(items)
    ensures Supported(items[|items|..]) && Complete(items[|items|..]) && Upper(items[|items|..]) == 0
    ensures Total(items[|items|..]) == 0 && Wire(items[|items|..]) == []
  {
  }

  /** What one item adds to what is above it. */
  lemma OneMore(items: seq<Item>, i: nat)
    requires i < |items| && Complete(items[i + 1..]) && Complete(items)
    ensures Complete(items[i..]) && Size(items[i].kind) <= |Octets(items[i])|
    ensures Supported(items[i..]) <==> items[i].kind != Unsupported && Supported(items[i + 1..])
    ensures Supported(items) ==> Supported(items[i..])
    ensures Total(items[i..]) == Size(items[i].kind) + Total(items[i + 1..])
    ensures Upper(items[i..]) == if Announced(items[i].kind).Some?
      then Announced(items[i].kind).value else Upper(items[i + 1..])
    ensures Wire(items[i..]) == HeaderOf(items[i], Upper(items[i + 1..])) + Wire(items[i + 1..])
  {
    hide HeaderOf, Octets, Size, Announced;
    var s := items[i..];
    assert s[0] == items[i] && s[1..] == items[i + 1..];
    assert forall k :: 0 <= k < |s| ==> s[k] == items[i + k];
    if items[i].kind != Unsupported && Supported(s[1..]) {
      forall k | 0 <= k < |s| ensures s[k].kind != Unsupported {
        assert k > 0 ==> s[k] == s[1..][k - 1];
      }
    }
    if Supported(s) {
      assert forall k :: 0 <= k < |s[1..]| ==> s[1..][k] == s[k + 1];
    }
  }
}
