/** The tag a redundancy box writes over the source MAC of a frame: octet 5 is the
    server index, octets 0 to 4 are the low 40 bits of the server's counter. */
module MacTag {
  import opened Bytes

  const MAC_LIMIT: nat := 0x1_0000_0000_0000      // 2^48
  const COUNTER_LIMIT: nat := 0x100_0000_0000     // 2^40

  /** `source_mac_of_rte_mbuf`: an 8-octet read at the source address, masked to 48 bits. */
  function SourceMac(f: Frame): nat {
    LeValue(f[6..14]) % MAC_LIMIT
  }

  /** An 8-octet number is stored in a scratch header and its first 6 octets are copied
      over the source address; this is `restore_source_mac`. */
  function WithSource(f: Frame, v: nat): (g: Frame)
    ensures |g| == |f| && g[..6] == f[..6] && g[12..] == f[12..]
  {
    f[..6] + LeBytes(v, 8)[..6] + f[12..]
  }

  /** `update_source_mac`; the index is passed as a `uint8_t`. */
  function WithTag(f: Frame, server: nat, counter: nat): Frame {
    WithSource(f, server % 256 * COUNTER_LIMIT + counter % COUNTER_LIMIT)
  }

  /** `server_counter_of_source_mac`: an 8-octet read masked to 40 bits. */
  function ServerCounter(f: Frame): nat {
    LeValue(f[6..14]) % COUNTER_LIMIT
  }

  /** `server_index_of_source_mac`. */
  function ServerIndex(f: Frame): nat {
    f[11]
  }

  lemma SourceOctets(f: Frame, v: nat)
    ensures WithSource(f, v)[6..12] == LeBytes(v, 6)
    ensures WithSource(f, v)[6..14][..6] == LeBytes(v, 6)
  {
    LeBytesPrefix(v, 6, 8);
    assert WithSource(f, v)[6..14][..6] == WithSource(f, v)[6..12] == LeBytes(v, 8)[..6];
  }

  /** The tag reads back as the index modulo 256 and the counter modulo 2^40. */
  lemma TagReadsBack(f: Frame, server: nat, counter: nat)
    ensures ServerIndex(WithTag(f, server, counter)) == server % 256
    ensures ServerCounter(WithTag(f, server, counter)) == counter % COUNTER_LIMIT
  {
    var top, low := server % 256, counter % COUNTER_LIMIT;
    TagOctets(WithTag(f, server, counter), f, top, low);
  }

  lemma FiveOctets()
    ensures Pow256(5) == COUNTER_LIMIT
  {
  }

  lemma TagOctets(g: Frame, f: Frame, top: Byte, low: nat)
    requires low < COUNTER_LIMIT && g == WithSource(f, top * COUNTER_LIMIT + low)
    ensures ServerIndex(g) == top && ServerCounter(g) == low
  {
    hide LeBytes, LeValue, Pow256, WithSource;
    FiveOctets();
    SourceOctets(f, top * COUNTER_LIMIT + low);
    LeBytesWithTop(top, low, 5);
    assert g[11] == g[6..12][5];
    LeValuePrefix(g[6..14], 5);
    assert g[6..14][..5] == g[6..12][..5] == LeBytes(low, 5);
    LeValueOfLeBytes(low, 5);
  }

  /** Where a tag puts what: the five low octets of the counter, least significant first, then
      the index; every other octet stays. */
  lemma TagLayout(f: Frame, server: nat, counter: nat)
    ensures var g := WithTag(f, server, counter);
      && |g| == |f| && (forall i :: 0 <= i < |f| && (i < 6 || 12 <= i) ==> g[i] == f[i])
      && g[6] == counter % 256 && g[7] == counter / 0x100 % 256 && g[8] == counter / 0x1_0000 % 256
      && g[9] == counter / 0x100_0000 % 256 && g[10] == counter / 0x1_0000_0000 % 256
      && g[11] == server % 256
  {
    hide LeBytes, Pow256, WithSource;
    var top, low := server % 256, counter % COUNTER_LIMIT;
    LowOctets(counter);
    var g := WithTag(f, server, counter);
    FiveOctets();
    SourceOctets(f, top * COUNTER_LIMIT + low);
    LeBytesWithTop(top, low, 5);
    assert forall i :: 0 <= i < 6 ==> g[6 + i] == g[6..12][i];
    assert forall i :: 0 <= i < 6 ==> g[i] == g[..6][i] && f[i] == f[..6][i];
    assert forall i :: 12 <= i < |f| ==> g[i] == g[12..][i - 12] && f[i] == f[12..][i - 12];
  }

  lemma LowOctets(v: nat)
    ensures LeBytes(v % COUNTER_LIMIT, 5) == [v % 256, v / 0x100 % 256, v / 0x1_0000 % 256, v / 0x100_0000 % 256,
                                              v / 0x1_0000_0000 % 256]
  {
    var low := v % COUNTER_LIMIT;
    assert LeBytes(low, 5) == LeBytes(v, 5) by {
      hide LeBytes, Pow256;
      FiveOctets();
      LeBytesWithTop(v / COUNTER_LIMIT, low, 5);
      LeBytesPrefix(v, 5, 6);
    }
    assert v / 256 / 256 == v / 0x1_0000 && v / 0x1_0000 / 256 == v / 0x100_0000;
    assert v / 0x100_0000 / 256 == v / 0x1_0000_0000;
    FirstOctet(v, 5);
    FirstOctet(v / 0x100, 4);
    FirstOctet(v / 0x1_0000, 3);
    FirstOctet(v / 0x100_0000, 2);
    FirstOctet(v / 0x1_0000_0000, 1);
  }

  lemma FirstOctet(v: nat, k: nat)
    requires k > 0
    ensures LeBytes(v, k) == [v % 256] + LeBytes(v / 256, k - 1)
  {
  }

  /** A tag identifies (server, counter) exactly for indices below 256 and counters below 2^40. */
  lemma TagIsFaithfulExactly(f: Frame, server: nat, counter: nat)
    ensures (ServerIndex(WithTag(f, server, counter)) == server &&
             ServerCounter(WithTag(f, server, counter)) == counter)
            <==> server < 256 && counter < COUNTER_LIMIT
  {
    TagReadsBack(f, server, counter);
  }

  /** Writing the original address back undoes any tag: no other octet was touched. */
  lemma RestoreUndoesTag(f: Frame, server: nat, counter: nat)
    ensures WithSource(WithTag(f, server, counter), SourceMac(f)) == f
  {
    assert Pow256(6) == MAC_LIMIT;
    LeValuePrefix(f[6..14], 6);
    assert f[6..14][..6] == f[6..12];
    LeBytesOfLeValue(f[6..12]);
    LeBytesPrefix(SourceMac(f), 6, 8);
    assert f == f[..6] + f[6..12] + f[12..];
  }
}
