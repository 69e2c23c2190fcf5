/** Values spread over the masked bits of a field, and prefix lengths turned into masks. */
module BitField {
  import opened Bytes

  type Octet = bv8

  // ---------------------------------------------------------------- single bits

  /** `1 << k`. */
  function OneBit(k: nat): Octet
    requires k < 8
  {
    if k == 0 then 1 else if k == 1 then 2 else if k == 2 then 4 else if k == 3 then 8
    else if k == 4 then 16 else if k == 5 then 32 else if k == 6 then 64 else 128
  }

  predicate Bit(b: Octet, k: nat)
    requires k < 8
  {
    b & OneBit(k) != 0
  }

  /** `*buf &= ~(1 << k); *buf |= v << k`. */
  function SetBit(b: Octet, k: nat, v: bool): Octet
    requires k < 8
  {
    (b & !OneBit(k)) | if v then OneBit(k) else 0
  }

  lemma SetBitSetsOne(b: Octet, k: nat, v: bool, j: nat)
    requires k < 8 && j < 8
    ensures Bit(SetBit(b, k, v), j) == if j == k then v else Bit(b, j)
  {
  }

  /** `m >> k`. */
  function Shifted(m: Octet, k: nat): Octet
    requires k <= 8
  {
    if k == 0 then m else if k == 1 then m >> 1 else if k == 2 then m >> 2 else if k == 3 then m >> 3
    else if k == 4 then m >> 4 else if k == 5 then m >> 5 else if k == 6 then m >> 6 else if k == 7 then m >> 7 else 0
  }

  lemma ShiftedZero(m: Octet, k: nat, j: nat)
    requires k <= 8 && Shifted(m, k) == 0 && k <= j < 8
    ensures !Bit(m, j)
  {
  }

  // ---------------------------------------------------------------- bit values

  /** v shifted right k times. */
  function Shr(v: nat, k: nat): nat {
    if k == 0 then v else Shr(v, k - 1) / 2
  }

  predicate ValBit(v: nat, k: nat) {
    Shr(v, k) % 2 == 1
  }

  function Pow2(n: nat): (p: nat)
    ensures p > 0
  {
    if n == 0 then 1 else 2 * Pow2(n - 1)
  }

  /** The number with these bits, least significant first. */
  function ValueOf(bits: seq<bool>): nat {
    if bits == [] then 0 else (if bits[0] then 1 else 0) + 2 * ValueOf(bits[1..])
  }

  lemma {:induction false} ShrHalf(v: nat, k: nat)
    ensures Shr(v / 2, k) == Shr(v, k + 1)
  {
    if k > 0 {
      ShrHalf(v, k - 1);
    }
  }

  lemma HalfMod(v: nat, p: nat)
    requires p > 0
    ensures v % (2 * p) == v % 2 + 2 * (v / 2 % p)
  {
    var h := v / 2;
    var q, r := h / p, h % p;
    assert h == q * p + r;
    assert v == q * (2 * p) + (2 * r + v % 2) by {
      assert q * (2 * p) == 2 * (q * p);
    }
    DivModUnique(v, 2 * p, q, 2 * r + v % 2);
  }

  /** The low n bits of v are v modulo 2^n. */
  lemma {:induction false} LowBits(v: nat, bits: seq<bool>)
    requires forall k :: 0 <= k < |bits| ==> bits[k] == ValBit(v, k)
    ensures ValueOf(bits) == v % Pow2(|bits|)
  {
    if bits != [] {
      var n := |bits| - 1;
      forall k | 0 <= k < n ensures bits[1..][k] == ValBit(v / 2, k) {
        assert bits[k + 1] == ValBit(v, k + 1);
        ShrHalf(v, k);
      }
      LowBits(v / 2, bits[1..]);
      HalfMod(v, Pow2(n));
      assert bits[0] == ValBit(v, 0);
    }
  }

  // ---------------------------------------------------------------- masked fields

  /** A field of `size` octets at `offset` of the obj, with an optional bit mask. */
  datatype Arg = Arg(offset: nat, size: nat, hton: bool, mask: seq<Octet>)

  /** Octet and bit within the field. */
  datatype Pos = Pos(octet: nat, bit: nat)

  predicate Masked(arg: Arg) {
    |arg.mask| == arg.size > 0
  }

  /** Octet visited at turn t: from the last on for network order, else from the first on. */
  function Visit(arg: Arg, t: nat): nat
    requires t < arg.size
  {
    if arg.hton then arg.size - 1 - t else t
  }

  /** The masked bits below k of octet i. */
  function OctetBits(i: nat, m: Octet, k: nat): seq<Pos>
    requires k <= 8
  {
    if k == 0 then [] else if Bit(m, k - 1) then OctetBits(i, m, k - 1) + [Pos(i, k - 1)] else OctetBits(i, m, k - 1)
  }

  /** The masked bits of the first t octets visited, least significant first. */
  function Positions(arg: Arg, t: nat): seq<Pos>
    requires Masked(arg) && t <= arg.size
  {
    if t == 0 then [] else
      var i := Visit(arg, t - 1);
      Positions(arg, t - 1) + OctetBits(i, arg.mask[i], 8)
  }

  function MaskedBits(arg: Arg): seq<Pos>
    requires Masked(arg)
  {
    Positions(arg, arg.size)
  }

  ghost predicate NoRepeats(ps: seq<Pos>) {
    forall i, j :: 0 <= i < j < |ps| ==> ps[i] != ps[j]
  }

  lemma {:induction false} OctetBitsExactly(i: nat, m: Octet, k: nat)
    requires k <= 8
    ensures NoRepeats(OctetBits(i, m, k))
    ensures forall p :: p in OctetBits(i, m, k) <==> p.octet == i && p.bit < k && Bit(m, p.bit)
  {
    hide Bit;
    if k > 0 {
      OctetBitsExactly(i, m, k - 1);
    }
  }

  /** The positions are exactly the masked bits, each once. */
  lemma {:induction false} PositionsExactly(arg: Arg, t: nat)
    requires Masked(arg) && t <= arg.size
    ensures NoRepeats(Positions(arg, t))
    ensures forall p :: p in Positions(arg, t) <==>
      p.octet < arg.size && p.bit < 8 && Bit(arg.mask[p.octet], p.bit)
      && (if arg.hton then arg.size - t <= p.octet else p.octet < t)
  {
    hide Bit, OctetBits;
    if t > 0 {
      var i := Visit(arg, t - 1);
      PositionsExactly(arg, t - 1);
      OctetBitsExactly(i, arg.mask[i], 8);
    }
  }

  /** The place of a bit of the field in its value: octets count from the last one in network
      order, else from the first. */
  function Weight(arg: Arg, p: Pos): nat
    requires p.octet < arg.size
  {
    8 * (if arg.hton then arg.size - 1 - p.octet else p.octet) + p.bit
  }

  predicate IsMasked(arg: Arg, p: Pos)
    requires Masked(arg)
  {
    p.octet < arg.size && p.bit < 8 && Bit(arg.mask[p.octet], p.bit)
  }

  /** Every position is of the field, and each has a larger weight than those before it. */
  ghost predicate Ascending(arg: Arg, ps: seq<Pos>) {
    && (forall i :: 0 <= i < |ps| ==> ps[i].octet < arg.size)
    && forall i, j :: 0 <= i < j < |ps| ==> Weight(arg, ps[i]) < Weight(arg, ps[j])
  }

  lemma {:induction false} OctetBitsAscend(i: nat, m: Octet, k: nat)
    requires k <= 8
    ensures forall a :: 0 <= a < |OctetBits(i, m, k)| ==>
      OctetBits(i, m, k)[a].octet == i && OctetBits(i, m, k)[a].bit < k
    ensures forall a, b :: 0 <= a < b < |OctetBits(i, m, k)| ==> OctetBits(i, m, k)[a].bit < OctetBits(i, m, k)[b].bit
  {
    hide Bit;
    if k > 0 {
      OctetBitsAscend(i, m, k - 1);
    }
  }

  /** The bits are visited from the least significant to the most significant one of the field's
      value, in either byte order. */
  lemma {:induction false} PositionsAscend(arg: Arg, t: nat)
    requires Masked(arg) && t <= arg.size
    ensures Ascending(arg, Positions(arg, t))
    ensures forall i :: 0 <= i < |Positions(arg, t)| ==> Weight(arg, Positions(arg, t)[i]) < 8 * t
  {
    hide Bit, OctetBits;
    if t > 0 {
      var i := Visit(arg, t - 1);
      PositionsAscend(arg, t - 1);
      OctetBitsAscend(i, arg.mask[i], 8);
    }
  }

  lemma MaskedBitsExactly(arg: Arg)
    requires Masked(arg)
    ensures Ascending(arg, MaskedBits(arg)) && NoRepeats(MaskedBits(arg))
    ensures forall p :: p in MaskedBits(arg) <==> IsMasked(arg, p)
  {
    PositionsExactly(arg, arg.size);
    PositionsAscend(arg, arg.size);
  }

  /** Bit k of v stands at position k, and every other bit is as before. */
  ghost predicate Written(now: seq<Octet>, before: seq<Octet>, ps: seq<Pos>, v: nat, offset: nat) {
    && |now| == |before|
    && (forall k :: 0 <= k < |ps| ==> InField(now, ps[k], offset) && BitAt(now, ps[k], offset) == ValBit(v, k))
    && (forall b, j :: 0 <= b < |now| && 0 <= j < 8 && (b < offset || Pos(b - offset, j) !in ps) ==>
          Bit(now[b], j) == Bit(before[b], j))
  }

  predicate InField(now: seq<Octet>, p: Pos, offset: nat) {
    offset + p.octet < |now| && p.bit < 8
  }

  predicate BitAt(now: seq<Octet>, p: Pos, offset: nat)
    requires InField(now, p, offset)
  {
    Bit(now[offset + p.octet], p.bit)
  }

  lemma WriteOne(now: seq<Octet>, before: seq<Octet>, ps: seq<Pos>, v: nat, offset: nat, p: Pos)
    requires Written(now, before, ps, v, offset) && InField(now, p, offset) && p !in ps
    ensures var b := offset + p.octet;
      Written(now[b := SetBit(now[b], p.bit, ValBit(v, |ps|))], before, ps + [p], v, offset)
  {
    hide Bit, SetBit, ValBit;
    var b := offset + p.octet;
    var now' := now[b := SetBit(now[b], p.bit, ValBit(v, |ps|))];
    forall c, j | 0 <= c < |now| && 0 <= j < 8
      ensures Bit(now'[c], j) == if c == b && j == p.bit then ValBit(v, |ps|) else Bit(now[c], j)
    {
      SetBitSetsOne(now[b], p.bit, ValBit(v, |ps|), j);
    }
    var ps' := ps + [p];
    forall k | 0 <= k < |ps'|
      ensures InField(now', ps'[k], offset) && BitAt(now', ps'[k], offset) == ValBit(v, k)
    {
      if k < |ps| {
        assert ps'[k] == ps[k] && ps[k] in ps && InField(now, ps[k], offset);
        assert BitAt(now, ps[k], offset) == ValBit(v, k);
      }
    }
    forall c, j | 0 <= c < |now'| && 0 <= j < 8 && (c < offset || Pos(c - offset, j) !in ps')
      ensures Bit(now'[c], j) == Bit(before[c], j)
    {
      assert p in ps' && forall q :: q in ps ==> q in ps';
    }
  }

  /** The number read back from the masked bits. */
  function Gather(now: seq<Octet>, ps: seq<Pos>, offset: nat): nat
    requires forall k :: 0 <= k < |ps| ==> InField(now, ps[k], offset)
  {
    ValueOf(seq(|ps|, k requires 0 <= k < |ps| => BitAt(now, ps[k], offset)))
  }

  /** Scattering and gathering gives the value modulo 2 to the number of masked bits. */
  lemma GatherOfWritten(now: seq<Octet>, before: seq<Octet>, ps: seq<Pos>, v: nat, offset: nat)
    requires Written(now, before, ps, v, offset)
    ensures (forall k :: 0 <= k < |ps| ==> InField(now, ps[k], offset)) && Gather(now, ps, offset) == v % Pow2(|ps|)
  {
    hide Bit, ValBit, BitAt;
    LowBits(v, seq(|ps|, k requires 0 <= k < |ps| => BitAt(now, ps[k], offset)));
  }

  /** `arg_entry_bf_fill`: spread val over the masked bits of the field; with no destination
      only count them. */
  method Fill(dst: array?<Octet>, val: nat, arg: Arg) returns (len: nat)
    requires Masked(arg) || arg.mask == []
    requires dst != null ==> arg.offset + arg.size <= dst.Length
    modifies dst
    ensures arg.mask == [] ==> len == 0 && (dst != null ==> dst[..] == old(dst[..]))
    ensures Masked(arg) ==> len == |MaskedBits(arg)|
    ensures Masked(arg) && dst != null ==> Written(dst[..], old(dst[..]), MaskedBits(arg), val, arg.offset)
  {
    hide Bit, SetBit, ValBit, Shifted, Written, OctetBits, Positions;
    if arg.mask == [] {
      return 0;
    }
    var i, end, sub, add := arg.size, 0, 1, 0;
    if !arg.hton {
      i, end, sub, add := 0, arg.size, 0, 1;
    }
    var left := val;
    len := 0;
    ghost var t := 0;
    ghost var before := if dst != null then dst[..] else [];
    NothingWritten(before, arg, val);
    while i != end
      invariant t <= arg.size && i == (if arg.hton then arg.size - t else t)
      invariant len == |Positions(arg, t)|
      invariant dst != null ==> left == Shr(val, len) && Written(dst[..], before, Positions(arg, t), val, arg.offset)
      decreases arg.size - t
    {
      i := i - sub;
      assert i == Visit(arg, t);
      len, left := FillOctet(dst, i, arg, left, len, val, before, t);
      i := i + add;
      t := t + 1;
    }
  }

  /** The masked bits of one octet, lowest first; stops when no higher bit is masked. */
  method FillOctet(dst: array?<Octet>, i: nat, arg: Arg, left0: nat, len0: nat,
                   ghost val: nat, ghost before: seq<Octet>, ghost t: nat) returns (len: nat, left: nat)
    requires Masked(arg) && t < arg.size && i == Visit(arg, t) && len0 == |Positions(arg, t)|
    requires dst != null ==> arg.offset + arg.size <= dst.Length && left0 == Shr(val, len0)
    requires dst != null ==> Written(dst[..], before, Positions(arg, t), val, arg.offset)
    modifies dst
    ensures len == |Positions(arg, t + 1)|
    ensures dst != null ==> left == Shr(val, len) && Written(dst[..], before, Positions(arg, t + 1), val, arg.offset)
  {
    hide Bit, SetBit, ValBit, Shifted, Written, OctetBits, Positions;
    len, left := len0, left0;
    var shift := 0;
    ghost var ps := Positions(arg, t);
    NoOctetBits(arg, t);
    while Shifted(arg.mask[i], shift) != 0
      invariant shift <= 8 && ps == Positions(arg, t) + OctetBits(i, arg.mask[i], shift) && len == |ps|
      invariant dst != null ==> left == Shr(val, len) && Written(dst[..], before, ps, val, arg.offset)
      decreases 8 - shift
    {
      ShiftEnds(arg.mask[i]);
      NextOctetBit(arg, t, shift);
      if Bit(arg.mask[i], shift) {
        len := len + 1;
        if dst != null {
          InOctet(dst[..], arg, t, shift);
          WriteOne(dst[..], before, ps, val, arg.offset, Pos(i, shift));
          LowBitOf(val, len - 1);
          dst[arg.offset + i] := SetBit(dst[arg.offset + i], shift, left % 2 == 1);
          left := left / 2;
        }
        ps := ps + [Pos(i, shift)];
      }
      shift := shift + 1;
    }
    NoMoreBits(arg, t, shift);
  }

  lemma NothingWritten(now: seq<Octet>, arg: Arg, v: nat)
    requires Masked(arg)
    ensures Written(now, now, Positions(arg, 0), v, arg.offset) && |Positions(arg, 0)| == 0
  {
  }

  lemma LowBitOf(v: nat, k: nat)
    ensures ValBit(v, k) == (Shr(v, k) % 2 == 1) && Shr(v, k + 1) == Shr(v, k) / 2
  {
  }

  lemma ShiftEnds(m: Octet)
    ensures Shifted(m, 8) == 0
  {
  }

  lemma NoOctetBits(arg: Arg, t: nat)
    requires Masked(arg) && t < arg.size
    ensures var i := Visit(arg, t); Positions(arg, t) + OctetBits(i, arg.mask[i], 0) == Positions(arg, t)
  {
  }

  lemma NextOctetBit(arg: Arg, t: nat, k: nat)
    requires Masked(arg) && t < arg.size && k < 8
    ensures var i := Visit(arg, t); var ps := Positions(arg, t) + OctetBits(i, arg.mask[i], k);
      && Positions(arg, t) + OctetBits(i, arg.mask[i], k + 1) == (if Bit(arg.mask[i], k) then ps + [Pos(i, k)] else ps)
      && Pos(i, k) !in ps
  {
    hide Bit, Positions;
    var i := Visit(arg, t);
    PositionsExactly(arg, t);
    OctetBitsExactly(i, arg.mask[i], k);
  }

  lemma InOctet(now: seq<Octet>, arg: Arg, t: nat, k: nat)
    requires Masked(arg) && t < arg.size && k < 8 && arg.offset + arg.size <= |now|
    ensures InField(now, Pos(Visit(arg, t), k), arg.offset)
  {
  }

  lemma {:induction false} NoMoreBits(arg: Arg, t: nat, k: nat)
    requires Masked(arg) && t < arg.size && k <= 8 && Shifted(arg.mask[Visit(arg, t)], k) == 0
    ensures var i := Visit(arg, t); Positions(arg, t) + OctetBits(i, arg.mask[i], k) == Positions(arg, t + 1)
  {
    hide Bit, Shifted;
    var i := Visit(arg, t);
    forall j | k <= j < 8 ensures !Bit(arg.mask[i], j) {
      ShiftedZero(arg.mask[i], k, j);
    }
    SameOctetBits(i, arg.mask[i], k);
  }

  lemma {:induction false} SameOctetBits(i: nat, m: Octet, k: nat)
    requires k <= 8 && forall j :: k <= j < 8 ==> !Bit(m, j)
    ensures OctetBits(i, m, k) == OctetBits(i, m, 8)
    decreases 8 - k
  {
    hide Bit;
    if k < 8 {
      SameOctetBits(i, m, k + 1);
    }
  }

  // ---------------------------------------------------------------- prefixes

  const UINT32: nat := 0x1_0000_0000
  const UINT64: nat := 0x1_0000_0000_0000_0000

  /** The conversion table: the first k bits of an octet. */
  function Conv(k: nat): Octet
    requires k <= 8
  {
    if k == 0 then 0x00 else if k == 1 then 0x80 else if k == 2 then 0xc0 else if k == 3 then 0xe0
    else if k == 4 then 0xf0 else if k == 5 then 0xf8 else if k == 6 then 0xfc else if k == 7 then 0xfe else 0xff
  }

  lemma ConvBits(k: nat, j: nat)
    requires k <= 8 && j < 8
    ensures Bit(Conv(k), 7 - j) <==> j < k
  {
  }

  /** The masked bits that are set. */
  ghost function Ones(now: seq<Octet>, arg: Arg): set<Pos>
    requires Masked(arg) && arg.offset + arg.size <= |now|
  {
    set i, k | 0 <= i < arg.size && 0 <= k < 8 && IsMasked(arg, Pos(i, k)) && BitAt(now, Pos(i, k), arg.offset) ::
      Pos(i, k)
  }

  /** The bit at p is one, that at q zero. */
  predicate Outranks(now: seq<Octet>, arg: Arg, p: Pos, q: Pos)
    requires InField(now, p, arg.offset) && InField(now, q, arg.offset)
  {
    BitAt(now, p, arg.offset) && !BitAt(now, q, arg.offset)
  }

  /** Of the masked bits u are ones, each of a larger weight than any that is zero; every other bit
      of the object is as before. */
  ghost predicate PrefixWritten(now: seq<Octet>, before: seq<Octet>, arg: Arg, u: nat)
    requires Masked(arg)
  {
    && |now| == |before| && arg.offset + arg.size <= |now|
    && |Ones(now, arg)| == u
    && (forall p, q :: IsMasked(arg, p) && IsMasked(arg, q) && Outranks(now, arg, p, q) ==>
          Weight(arg, p) > Weight(arg, q))
    && (forall b, j :: 0 <= b < |now| && 0 <= j < 8 && (b < arg.offset || !IsMasked(arg, Pos(b - arg.offset, j))) ==>
          Bit(now[b], j) == Bit(before[b], j))
  }

  /** Every masked bit is a one. */
  ghost predicate FullMask(now: seq<Octet>, arg: Arg)
    requires Masked(arg)
  {
    arg.offset + arg.size <= |now| && forall p :: IsMasked(arg, p) ==> BitAt(now, p, arg.offset)
  }

  /** Octet of the field that holds bits 8 t to 8 t + 7 of its value in network order. */
  function NetworkOctet(arg: Arg, t: nat): nat
    requires t < arg.size
  {
    if arg.hton then t else arg.size - 1 - t
  }

  /** Bit 8 t + j of the field in network order. */
  predicate NetworkBit(now: seq<Octet>, arg: Arg, t: nat, j: nat)
    requires t < arg.size && j < 8 && arg.offset + arg.size <= |now|
  {
    Bit(now[arg.offset + NetworkOctet(arg, t)], 7 - j)
  }

  /** Without a mask the field is u ones followed by zeros in network order; nothing else
      changes. */
  ghost predicate OctetPrefix(now: seq<Octet>, before: seq<Octet>, arg: Arg, u: nat) {
    && |now| == |before| && arg.offset + arg.size <= |now|
    && (forall t, j :: 0 <= t < arg.size && 0 <= j < 8 ==>
          (NetworkBit(now, arg, t, j) <==> 8 * t + j < u))
    && (forall b :: 0 <= b < |now| && !(arg.offset <= b < arg.offset + arg.size) ==> now[b] == before[b])
  }

  /** v shifted left k times. */
  function Shl(v: nat, k: nat): nat {
    if k == 0 then v else 2 * Shl(v, k - 1)
  }

  /** u ones above extra zeros, built by shifting 64-bit numbers: those from bit 64 on are lost. */
  method PrefixValue(u: nat, extra: nat) returns (v: nat)
    requires extra < 64
    ensures v < UINT64 && forall k :: 0 <= k < u + extra ==> (ValBit(v, k) <==> extra <= k < 64)
  {
    hide ValBit, Pow2, Shl;
    v := 0;
    PowIsUint64();
    for i := 0 to u
      invariant v == Pow2(if i < 64 then i else 64) - 1
    {
      if i < 64 {
        PowNext(i);
        PowMonotone(i + 1, 64);
      }
      v := 2 * v % UINT64 + 1;
    }
    ghost var m := if u < 64 - extra then u else 64 - extra;
    ShiftCut(if u < 64 then u else 64, extra);
    v := Shl(v, extra) % UINT64;
    assert v == Shl(Pow2(m) - 1, extra);
    forall k | 0 <= k < u + extra ensures ValBit(v, k) <==> extra <= k < 64 {
      if extra <= k < 64 {
        OnesBits(m, k - extra);
      }
      if k >= 64 {
        PowMonotone(64, k);
        NoHighBits(v, k);
      }
      ShlBits(Pow2(m) - 1, extra, k);
    }
  }

  /** Shifting n ones by e in 64 bits keeps those that stay below bit 64. */
  lemma ShiftCut(n: nat, e: nat)
    requires n <= 64 && e < 64
    ensures Shl(Pow2(n) - 1, e) % UINT64 == Shl(Pow2(if n < 64 - e then n else 64 - e) - 1, e)
  {
    hide Shl, Pow2;
    PowIsUint64();
    ShlOnes(n, e);
    ShlOnes(if n < 64 - e then n else 64 - e, e);
    PowMonotone(e, 64);
    if n + e <= 64 {
      PowMonotone(n + e, 64);
      PowMonotone(e, n + e);
      assert Pow2(e) > 0;
    } else {
      PowSum(64, n + e - 64);
      PowNext(e);
      PowMonotone(e + 1, 64);
      DivModUnique(Pow2(n + e) - Pow2(e), UINT64, Pow2(n + e - 64) - 1, UINT64 - Pow2(e));
    }
  }

  /** A number below 2^k has no bit k. */
  lemma {:induction false} NoHighBits(v: nat, k: nat)
    requires v < Pow2(k)
    ensures !ValBit(v, k) && Shr(v, k) == 0
  {
    if k > 0 {
      NoHighBits(v / 2, k - 1);
      ShrHalf(v, k - 1);
    }
  }

  lemma PowIsUint64()
    ensures Pow2(64) == UINT64 && Pow2(0) == 1
  {
    assert Pow2(4) == 16;
    PowSum(4, 4);
    PowSum(8, 8);
    PowSum(16, 16);
    PowSum(32, 32);
  }

  lemma {:induction false} PowSum(a: nat, b: nat)
    ensures Pow2(a + b) == Pow2(a) * Pow2(b)
  {
    if a > 0 {
      PowSum(a - 1, b);
    }
  }

  lemma PowNext(i: nat)
    ensures Pow2(i + 1) == 2 * Pow2(i)
  {
  }

  lemma {:induction false} PowMonotone(a: nat, b: nat)
    requires a <= b
    ensures Pow2(a) <= Pow2(b)
    decreases b - a
  {
    if a < b {
      PowMonotone(a + 1, b);
    }
  }

  lemma {:induction false} OnesBits(u: nat, k: nat)
    requires k < u
    ensures ValBit(Pow2(u) - 1, k)
  {
    var v := Pow2(u) - 1;
    assert v == 2 * (Pow2(u - 1) - 1) + 1 && v / 2 == Pow2(u - 1) - 1;
    if k > 0 {
      OnesBits(u - 1, k - 1);
      ShrHalf(v, k - 1);
    }
  }

  lemma {:induction false} ShlBits(v: nat, e: nat, k: nat)
    ensures ValBit(Shl(v, e), k) <==> e <= k && ValBit(v, k - e)
  {
    if e > 0 {
      var w := Shl(v, e - 1);
      assert Shl(v, e) == 2 * w;
      if k > 0 {
        ShlBits(v, e - 1, k - 1);
        ShrHalf(2 * w, k - 1);
      }
    }
  }

  lemma {:induction false} ShlOnes(u: nat, e: nat)
    ensures Shl(Pow2(u) - 1, e) == Pow2(u + e) - Pow2(e)
  {
    if e > 0 {
      ShlOnes(u, e - 1);
    }
  }

  /** The length that the path without a mask works on: the number of whole octets is cut to
      32 bits, the number of further bits is not. */
  function Reduced(u: nat): nat {
    8 * (u / 8 % UINT32) + u % 8
  }

  /** A field accepts exactly the lengths that fit it as long as they are below 2^35. A longer
      one never fits, and is refused only if it does not fit after the cut either. */
  lemma AcceptsWhatFitsExactly(size: nat, u: nat)
    requires size < UINT32
    ensures u < 8 * UINT32 ==> Reduced(u) == u
    ensures (Reduced(u) <= 8 * size <==> u <= 8 * size) <==> u < 8 * UINT32 || Reduced(u) > 8 * size
  {
    assert u == 8 * (u / 8) + u % 8;
  }

  /** The length 2^35 fits no field, and every field accepts it as the length 0. */
  lemma HugeLengthIsAccepted(size: nat)
    requires size < UINT32
    ensures 0x8_0000_0000 > 8 * size
    ensures Reduced(0x8_0000_0000) == 0 <= 8 * size
  {
  }

  /** `parse_prefix` on a converted length u, a 64-bit number. Without an object nothing is
      written; a length the field cannot hold is an error. The prefix and the full mask come out
      right exactly for masks of at most 64 bits; shifting by 64 or more has no meaning in C. */
  method ParsePrefix(obj: array?<Octet>, objmask: array?<Octet>, arg: Arg, u: nat) returns (ok: bool)
    requires Masked(arg) || arg.mask == []
    requires Masked(arg) && obj != null ==> |MaskedBits(arg)| - u < 64
    requires u < UINT64 && arg.size < UINT32 - 1
    requires obj != null ==> arg.offset + arg.size <= obj.Length
    requires objmask != null ==> arg.offset + arg.size <= objmask.Length && objmask != obj
    modifies obj, objmask
    ensures Masked(arg) ==> (ok <==> u <= |MaskedBits(arg)| && (obj != null ==> MaskedBits(arg) != []))
    ensures arg.mask == [] ==> (ok <==> Reduced(u) <= 8 * arg.size)
    ensures ok && obj != null && Masked(arg) ==>
      (PrefixWritten(obj[..], old(obj[..]), arg, u) <==> |MaskedBits(arg)| <= 64)
    ensures ok && obj != null && arg.mask == [] ==> OctetPrefix(obj[..], old(obj[..]), arg, Reduced(u))
    ensures ok && obj != null && objmask != null && Masked(arg) ==>
      (FullMask(objmask[..], arg) <==> |MaskedBits(arg)| <= 64)
    ensures ok && obj != null && objmask != null && Masked(arg) ==>
      Written(objmask[..], old(objmask[..]), MaskedBits(arg), UINT64 - 1, arg.offset)
    ensures ok && obj != null && objmask != null && arg.mask == [] ==>
      OctetPrefix(objmask[..], old(objmask[..]), arg, 8 * arg.size)
    ensures !ok && arg.mask == [] ==>
      (obj != null ==> obj[..] == old(obj[..])) && (objmask != null ==> objmask[..] == old(objmask[..]))
  {
    hide Bit, ValBit, Written, MaskedBits, PrefixWritten, FullMask, OctetPrefix;
    if arg.mask != [] {
      var extra := Fill(null, 0, arg);
      if u > extra {
        return false;
      }
      if obj == null {
        return true;
      }
      var v := PrefixValue(u, extra - u);
      var n := Fill(obj, v, arg);
      if n == 0 {
        return false;
      }
      WrittenPrefixExactly(obj[..], old(obj[..]), arg, v, u);
      ghost var done := obj[..];
      n := Fill(objmask, UINT64 - 1, arg);
      if objmask != null {
        WrittenFullExactly(objmask[..], old(objmask[..]), arg);
      }
      assert obj[..] == done;
      return n != 0;
    }
    var bytes, extra := u / 8 % UINT32, u % 8;
    if bytes > arg.size || bytes + (if extra != 0 then 1 else 0) > arg.size {
      return false;
    }
    if obj == null {
      return true;
    }
    SetPrefix(obj, arg, bytes, extra);
    if objmask != null {
      SetPrefix(objmask, arg, arg.size, 0);
    }
    ok := true;
  }

  /** The octets of a field: whole ones, one converted octet if extra, zeros. */
  method SetPrefix(obj: array<Octet>, arg: Arg, bytes: nat, extra: nat)
    requires arg.offset + arg.size <= obj.Length
    requires extra < 8 && bytes <= arg.size && (extra > 0 ==> bytes < arg.size)
    modifies obj
    ensures OctetPrefix(obj[..], old(obj[..]), arg, 8 * bytes + extra)
    ensures forall b :: arg.offset <= b < arg.offset + arg.size ==>
      var t := if arg.hton then b - arg.offset else arg.offset + arg.size - 1 - b;
      obj[b] == if t < bytes then 0xff else if t == bytes then Conv(extra) else 0x00
  {
    hide Bit, Conv, OctetPrefix;
    ghost var before := obj[..];
    ConvEnds();
    var size, base := arg.size, arg.offset;
    if !arg.hton {
      forall i | size - bytes <= i < size { obj[base + i] := 0xff; }
      forall i | 0 <= i < size - bytes { obj[base + i] := 0x00; }
      if extra != 0 {
        obj[base + size - bytes - 1] := Conv(extra);
      }
    } else {
      forall i | 0 <= i < bytes { obj[base + i] := 0xff; }
      forall i | bytes <= i < size { obj[base + i] := 0x00; }
      if extra != 0 {
        obj[base + bytes] := Conv(extra);
      }
    }
    OctetsArePrefix(obj[..], before, arg, bytes, extra);
  }

  /** How many leading bits of network octet t are ones. */
  function OnesIn(t: nat, bytes: nat, extra: nat): (k: nat)
    requires extra < 8
    ensures k <= 8
  {
    if t < bytes then 8 else if t == bytes then extra else 0
  }

  lemma OctetsArePrefix(now: seq<Octet>, before: seq<Octet>, arg: Arg, bytes: nat, extra: nat)
    requires |now| == |before| && arg.offset + arg.size <= |now| && extra < 8
    requires forall t :: 0 <= t < arg.size ==> now[arg.offset + NetworkOctet(arg, t)] == Conv(OnesIn(t, bytes, extra))
    requires forall b :: 0 <= b < |now| && !(arg.offset <= b < arg.offset + arg.size) ==> now[b] == before[b]
    ensures OctetPrefix(now, before, arg, 8 * bytes + extra)
  {
    hide Bit, Conv;
    forall t, j | 0 <= t < arg.size && 0 <= j < 8
      ensures NetworkBit(now, arg, t, j) <==> 8 * t + j < 8 * bytes + extra
    {
      ConvBits(OnesIn(t, bytes, extra), j);
    }
  }

  lemma ConvEnds()
    ensures Conv(0) == 0x00 && Conv(8) == 0xff
  {
  }

  /** When the low |ps| bits of v are u ones above zeros, cut off at bit 64, the masked bits become
      a prefix of length u exactly if there are at most 64 of them. */
  lemma WrittenPrefixExactly(now: seq<Octet>, before: seq<Octet>, arg: Arg, v: nat, u: nat)
    requires Masked(arg) && Written(now, before, MaskedBits(arg), v, arg.offset) && arg.offset + arg.size <= |now|
    requires u <= |MaskedBits(arg)| < u + 64
    requires forall k :: 0 <= k < |MaskedBits(arg)| ==> (ValBit(v, k) <==> |MaskedBits(arg)| - u <= k < 64)
    ensures PrefixWritten(now, before, arg, u) <==> |MaskedBits(arg)| <= 64
  {
    hide Bit, ValBit, MaskedBits, Weight, BitAt;
    var ps := MaskedBits(arg);
    MaskedBitsExactly(arg);
    if |ps| <= 64 {
      OnesAreTop(now, before, arg, v, u);
      OnesAreHeavier(now, before, arg, v, u);
    } else {
      var p, q := ps[63], ps[|ps| - 1];
      assert p in ps && q in ps && Outranks(now, arg, p, q);
      assert Weight(arg, p) < Weight(arg, q);
    }
  }

  lemma OnesAreHeavier(now: seq<Octet>, before: seq<Octet>, arg: Arg, v: nat, u: nat)
    requires Masked(arg) && Written(now, before, MaskedBits(arg), v, arg.offset) && arg.offset + arg.size <= |now|
    requires u <= |MaskedBits(arg)| <= 64
    requires forall k :: 0 <= k < |MaskedBits(arg)| ==> (ValBit(v, k) <==> |MaskedBits(arg)| - u <= k < 64)
    ensures forall p, q :: IsMasked(arg, p) && IsMasked(arg, q) && Outranks(now, arg, p, q) ==>
      Weight(arg, p) > Weight(arg, q)
  {
    hide Bit, ValBit, MaskedBits, Weight, BitAt;
    var ps := MaskedBits(arg);
    MaskedBitsExactly(arg);
    forall p, q | IsMasked(arg, p) && IsMasked(arg, q) && Outranks(now, arg, p, q)
      ensures Weight(arg, p) > Weight(arg, q)
    {
      var i :| 0 <= i < |ps| && ps[i] == p;
      var j :| 0 <= j < |ps| && ps[j] == q;
    }
  }

  /** There are u ones. */
  lemma OnesAreTop(now: seq<Octet>, before: seq<Octet>, arg: Arg, v: nat, u: nat)
    requires Masked(arg) && Written(now, before, MaskedBits(arg), v, arg.offset) && arg.offset + arg.size <= |now|
    requires u <= |MaskedBits(arg)| <= 64
    requires forall k :: 0 <= k < |MaskedBits(arg)| ==> (ValBit(v, k) <==> |MaskedBits(arg)| - u <= k < 64)
    ensures |Ones(now, arg)| == u
  {
    hide Bit, ValBit, MaskedBits, Weight;
    var ps := MaskedBits(arg);
    MaskedBitsExactly(arg);
    var top := ps[|ps| - u..];
    forall p: Pos ensures p in Ones(now, arg) <==> p in top {
      if p in Ones(now, arg) {
        assert p in ps;
        var i :| 0 <= i < |ps| && ps[i] == p;
        assert top[i - (|ps| - u)] == p;
      }
      if p in top {
        var i :| 0 <= i < u && top[i] == p;
        assert ps[|ps| - u + i] == p && p in ps;
      }
    }
    SizeOfDistinct(top, Ones(now, arg));
  }

  lemma {:induction false} SizeOfDistinct(ps: seq<Pos>, s: set<Pos>)
    requires NoRepeats(ps) && forall p :: p in s <==> p in ps
    ensures |s| == |ps|
  {
    if ps == [] {
      assert s == {};
    } else {
      SizeOfDistinct(ps[1..], s - {ps[0]});
    }
  }

  /** All ones of a 64-bit number fill a mask of at most 64 bits. */
  lemma WrittenFullExactly(now: seq<Octet>, before: seq<Octet>, arg: Arg)
    requires Masked(arg) && Written(now, before, MaskedBits(arg), UINT64 - 1, arg.offset)
      && arg.offset + arg.size <= |now|
    ensures FullMask(now, arg) <==> |MaskedBits(arg)| <= 64
  {
    hide Bit, ValBit, MaskedBits, Pow2;
    var ps := MaskedBits(arg);
    MaskedBitsExactly(arg);
    PowIsUint64();
    forall k | 0 <= k < |ps| ensures BitAt(now, ps[k], arg.offset) <==> k < 64 {
      if k < 64 {
        OnesBits(64, k);
      } else {
        PowMonotone(64, k);
        NoHighBits(UINT64 - 1, k);
      }
    }
    if |ps| > 64 {
      assert ps[64] in ps && !BitAt(now, ps[64], arg.offset);
    }
  }
}
