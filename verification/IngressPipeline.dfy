/** `ingress_pipeline` over its counter arrays and packet buffers. */
module IngressPipeline {
  import opened Bytes
  import opened MacTag
  import opened LinkSpec
  import opened MbufPool
  import opened Options

  class Ingress {
    const macs: seq<nat>
    const counters: array<nat>
    const tmpCounters: array<nat>
    const recorder: array2<nat>

    ghost predicate Valid() {
      && counters.Length == tmpCounters.Length == recorder.Length1 == |macs|
      && recorder.Length0 == MAX_PKT_BURST
      && counters != tmpCounters
    }

    constructor (macs: seq<nat>)
      ensures Valid() && this.macs == macs
      ensures fresh(counters) && fresh(tmpCounters) && fresh(recorder)
      ensures forall s :: 0 <= s < |macs| ==> counters[s] == 0
    {
      this.macs := macs;
      counters := new nat[|macs|](_ => 0);
      tmpCounters := new nat[|macs|](_ => 0);
      recorder := new nat[MAX_PKT_BURST, |macs|]((_, _) => 0);
    }

    /** Linear search for a source address. */
    method IngressServerIndex(mac: nat) returns (res: nat)
      ensures res == ServerOf(macs, mac)
    {
      res := 0;
      while res < |macs|
        invariant res <= |macs| && mac !in macs[..res]
      {
        if mac == macs[res] {
          FirstIndexIs(macs, mac, res);
          return;
        }
        res := res + 1;
      }
      FirstIndexIs(macs, mac, res);
    }

    /** Copy the counters into the scratch row. */
    method CopyCounters()
      requires Valid()
      modifies tmpCounters
      ensures tmpCounters[..] == counters[..]
    {
      for i := 0 to counters.Length
        invariant forall k :: 0 <= k < i ==> tmpCounters[k] == counters[k]
      {
        tmpCounters[i] := counters[i];
      }
    }

    /** Record the scratch row as row r. */
    method RecordRow(r: nat)
      requires Valid() && r < MAX_PKT_BURST
      modifies recorder
      ensures forall s :: 0 <= s < |macs| ==> recorder[r, s] == tmpCounters[s]
      ensures forall q, s :: 0 <= q < MAX_PKT_BURST && q != r && 0 <= s < |macs| ==>
        recorder[q, s] == old(recorder[q, s])
    {
      for j := 0 to tmpCounters.Length
        invariant forall s :: 0 <= s < j ==> recorder[r, s] == tmpCounters[s]
        invariant forall q, s :: 0 <= q < MAX_PKT_BURST && q != r && 0 <= s < |macs| ==>
          recorder[q, s] == old(recorder[q, s])
      {
        recorder[r, j] := tmpCounters[j];
      }
    }

    /** Commit a recorded row. */
    method Commit(r: nat)
      requires Valid() && r < MAX_PKT_BURST
      modifies counters
      ensures forall s :: 0 <= s < |macs| ==> counters[s] == recorder[r, s]
    {
      for i := 0 to counters.Length
        invariant forall s :: 0 <= s < i ==> counters[s] == recorder[r, s]
      {
        counters[i] := recorder[r, i];
      }
    }

    /** Row j of the recorder holds the counters after the first j + 1 stamps. */
    ghost predicate Recorded(c: seq<nat>, st: seq<Stamp>)
      requires Valid() && |c| == |macs|
      reads recorder
    {
      |st| <= MAX_PKT_BURST &&
      forall j, s :: 0 <= j < |st| && 0 <= s < |macs| ==> recorder[j, s] == Apply(c, st[..j + 1])[s]
    }

    /** Count, tag and record one packet of a known server. */
    method TagAndRecord(pool: Pool<Frame>, pkt: Mbuf, server: nat, r: nat, ghost c: seq<nat>, ghost st: seq<Stamp>,
                        ghost origin: nat)
      requires Valid() && pool.Valid() && pkt in pool.live
      requires server < |macs| == |c| && r == |st| < MAX_PKT_BURST
      requires tmpCounters[..] == Apply(c, st) && Recorded(c, st)
      modifies pool, tmpCounters, recorder
      ensures pool.Valid() && pool.next == old(pool.next)
      ensures var s := Stamp(server, Apply(c, st)[server] + 1, origin);
        && tmpCounters[..] == Apply(c, st + [s]) && Recorded(c, st + [s])
        && pool.live == old(pool.live)[pkt := WithTag(old(pool.live)[pkt], server, s.counter)]
    {
      hide WithTag;
      ghost var s := Stamp(server, Apply(c, st)[server] + 1, origin);
      assert (st + [s])[..|st|] == st;
      tmpCounters[server] := tmpCounters[server] + 1;
      pool.Write(pkt, WithTag(pool.live[pkt], server, tmpCounters[server]));
      RecordRow(r);
      forall j, t | 0 <= j < |st + [s]| && 0 <= t < |macs|
        ensures recorder[j, t] == Apply(c, (st + [s])[..j + 1])[t]
      {
        if j < |st| {
          assert (st + [s])[..j + 1] == st[..j + 1];
        } else {
          assert (st + [s])[..j + 1] == st + [s];
        }
      }
    }

    /** The first loop: free frames of unknown servers, tag and keep the others. */
    method Classify(pool: Pool<Frame>, originals: seq<Mbuf>, ghost rx: seq<Frame>, ghost base: nat)
      returns (filtered: seq<Mbuf>)
      requires Valid() && pool.Valid()
      requires |originals| == |rx| <= MAX_PKT_BURST && tmpCounters[..] == counters[..]
      requires forall i :: 0 <= i < |rx| ==> originals[i] in pool.live && pool.live[originals[i]] == rx[i]
      requires Distinct(originals)
      modifies pool, tmpCounters, recorder
      ensures pool.Valid() && pool.next == old(pool.next)
      ensures Recorded(counters[..], Stamps(macs, counters[..], rx, base))
      ensures Shows(pool.live, Stamps(macs, counters[..], rx, base), rx, base, filtered)
      ensures Kept(old(pool.live), pool.live, originals, filtered)
    {
      hide WithTag, SourceMac, ServerOf, Shows, Kept, Recorded, Apply;
      filtered := [];
      ghost var c := counters[..];
      ghost var st: seq<Stamp> := [];
      NothingSeen(pool.live, rx, base);
      NothingStamped(c);
      for i := 0 to |originals|
        invariant pool.Valid() && pool.next == old(pool.next)
        invariant st == Stamps(macs, c, rx[..i], base) && |filtered| == |st| <= i
        invariant tmpCounters[..] == Apply(c, st) && counters[..] == c && Recorded(c, st)
        invariant Shows(pool.live, st, rx, base, filtered)
        invariant Kept(old(pool.live), pool.live, originals[..i], filtered)
      {
        var pkt := originals[i];
        NextKept(old(pool.live), pool.live, originals, filtered, i);
        assert originals[..i + 1] == originals[..i] + [pkt] && rx[..i + 1][..i] == rx[..i];
        ghost var live := pool.live;
        var serverIndex := IngressServerIndex(SourceMac(pool.live[pkt]));
        if serverIndex == |macs| {
          pool.Free(pkt);
          FreeKeeps(old(pool.live), live, originals[..i], st, rx, base, filtered, pkt);
        } else {
          TagAndRecord(pool, pkt, serverIndex, |filtered|, c, st, base + i);
          StampKeeps(old(pool.live), live, originals[..i], st, rx, base, filtered, pkt,
                     Stamp(serverIndex, Apply(c, st)[serverIndex] + 1, base + i));
          st := st + [Stamp(serverIndex, Apply(c, st)[serverIndex] + 1, base + i)];
          filtered := filtered + [pkt];
        }
      }
      assert rx[..|rx|] == rx && originals[..|rx|] == originals;
    }

    /** One turn of the link loop: clone the burst, give up if a clone fails, transmit, free
        what the driver refused. Every clone made is freed or handed over. */
    method SendOnLink(pool: Pool<Frame>, filtered: seq<Mbuf>, link: Link) returns (sent: seq<Frame>)
      requires pool.Valid()
      requires forall i :: 0 <= i < |filtered| ==> filtered[i] in pool.live
      modifies pool
      ensures pool.Valid() && pool.live == old(pool.live)
      ensures |sent| == Sent(link, |filtered|)
      ensures forall i :: 0 <= i < |sent| ==> sent[i] == pool.live[filtered[i]]
    {
      if !link.up {
        return [];
      }
      var clones, cloneSucceed := CloneAll(pool, filtered, link);
      if !cloneSucceed {
        FreeClones(pool, clones, old(pool.live));
        return [];
      }
      sent := SendClones(pool, seq(|clones|, i requires 0 <= i < |clones| => clones[i].value),
                         link.accepts, filtered, old(pool.live), clones);
    }

    /** Hand the clones over and free what the driver refuses. */
    method SendClones(pool: Pool<Frame>, cloned: seq<Mbuf>, accepts: nat, ghost filtered: seq<Mbuf>,
                      ghost before: map<Mbuf, Frame>, ghost clones: seq<Option<Mbuf>>) returns (sent: seq<Frame>)
      requires pool.Valid() && OnlyClones(before, pool.live, clones)
      requires |cloned| == |clones| == |filtered|
      requires forall i :: 0 <= i < |filtered| ==> filtered[i] in before
      requires forall i :: 0 <= i < |clones| ==>
        clones[i] == Some(cloned[i]) && pool.live[cloned[i]] == before[filtered[i]]
      modifies pool
      ensures pool.Valid() && pool.live == before
      ensures |sent| == if accepts < |filtered| then accepts else |filtered|
      ensures forall i :: 0 <= i < |sent| ==> sent[i] == before[filtered[i]]
    {
      hide OnlyClones;
      AllClonesHeld(before, pool.live, clones, cloned);
      var nbTx := if accepts < |cloned| then accepts else |cloned|;
      ghost var live := pool.live;
      sent := pool.Transmit(cloned, nbTx);
      forall i | nbTx <= i < |cloned| ensures cloned[i] in pool.live {
        assert cloned[i] !in cloned[..nbTx];
      }
      ghost var left := pool.live;
      pool.FreeAll(cloned[nbTx..]);
      AllGone(before, live, left, pool.live, cloned, nbTx);
    }

    /** Clone every buffer of the burst; a failed allocation leaves a null entry. */
    method CloneAll(pool: Pool<Frame>, filtered: seq<Mbuf>, link: Link)
      returns (clones: seq<Option<Mbuf>>, succeed: bool)
      requires pool.Valid()
      requires forall i :: 0 <= i < |filtered| ==> filtered[i] in pool.live
      modifies pool
      ensures pool.Valid() && OnlyClones(old(pool.live), pool.live, clones)
      ensures |clones| == |filtered| && (succeed <==> ClonesAll(link, |filtered|))
      ensures succeed ==> forall i :: 0 <= i < |clones| ==>
        clones[i].Some? && clones[i].value in pool.live && pool.live[clones[i].value] == old(pool.live)[filtered[i]]
    {
      hide OnlyClones;
      clones, succeed := [], true;
      NoClonesYet(pool.live);
      for i := 0 to |filtered|
        invariant pool.Valid() && OnlyClones(old(pool.live), pool.live, clones)
        invariant |clones| == i && (succeed <==> ClonesAll(link, i))
        invariant succeed ==> forall k :: 0 <= k < i ==>
          clones[k].Some? && clones[k].value in pool.live && pool.live[clones[k].value] == old(pool.live)[filtered[k]]
      {
        AddClone(old(pool.live), pool.live, clones, pool.next, filtered[i]);
        var c := pool.Clone(filtered[i], i in link.cloneFails);
        clones := clones + [c];
        if c == None {
          succeed := false;
        }
      }
    }

    method FreeClones(pool: Pool<Frame>, clones: seq<Option<Mbuf>>, ghost before: map<Mbuf, Frame>)
      requires pool.Valid() && OnlyClones(before, pool.live, clones)
      modifies pool
      ensures pool.Valid() && pool.live == before
    {
      hide OnlyClones;
      assert clones[0..] == clones;
      for i := 0 to |clones|
        invariant pool.Valid() && OnlyClones(before, pool.live, clones[i..])
      {
        assert clones[i..] == [clones[i]] + clones[i + 1..];
        if clones[i] != None {
          FreeOneClone(before, pool.live, clones[i].value, clones[i + 1..]);
          pool.Free(clones[i].value);
        } else {
          SkipOneClone(before, pool.live, clones[i + 1..]);
        }
      }
      NoClonesLeft(before, pool.live);
    }

    /** `ingress_pipeline`: what each link takes is a prefix of the tagged burst, and the
        counters move to the row of the longest prefix any link took. Every buffer received
        or cloned is freed or handed to a driver, once. `received` is the frames of earlier
        passes; the result lists what each link took. */
    method Pipeline(pool: Pool<Frame>, rx: seq<Frame>, links: seq<Link>, ghost received: seq<Frame>)
      returns (sent: seq<seq<Frame>>)
      requires Valid() && pool.Valid() && |rx| <= MAX_PKT_BURST
      modifies pool, counters, tmpCounters, recorder
      ensures pool.Valid() && pool.live == old(pool.live)
      ensures var st := Stamps(macs, old(counters[..]), rx, |received|);
        && counters[..] == Apply(old(counters[..]), st[..MaxSent(links, |st|)])
        && |sent| == |links|
        && forall l :: 0 <= l < |links| ==> TookPrefix(sent[l], received + rx, st, Sent(links[l], |st|))
    {
      hide WithTag, Sent, MaxSent, Apply, Stamps, Kept, Shows, TookPrefix, Recorded, OnlyHeld;
      CopyCounters();
      ghost var c, before := counters[..], pool.live;
      ghost var st := Stamps(macs, c, rx, |received|);
      var originals := pool.Receive(rx);
      if |originals| == 0 {
        NothingSent(links, received + rx, st);
        ApplyNone(c, st);
        sent := seq(|links|, _ => []);
        assert pool.live == before;
        return;
      }
      ghost var live := pool.live;
      var filtered := Classify(pool, originals, rx, |received|);
      OnlyFilteredHeld(before, live, pool.live, originals, filtered);
      ghost var tagged := pool.live;
      var maxNbTx;
      sent, maxNbTx := SendOnLinks(pool, filtered, links, st, received, rx);
      if maxNbTx != 0 {
        CommittedRow(c, st, maxNbTx);
        Commit(maxNbTx - 1);
      } else {
        ApplyNone(c, st);
      }
      FilteredGone(before, tagged, filtered);
      pool.FreeAll(filtered);
      assert pool.live == before;
    }

    /** The link loop: every link gets its own clones; the longest prefix taken is kept. */
    method SendOnLinks(pool: Pool<Frame>, filtered: seq<Mbuf>, links: seq<Link>,
                       ghost st: seq<Stamp>, ghost received: seq<Frame>, ghost rx: seq<Frame>)
      returns (sent: seq<seq<Frame>>, maxNbTx: nat)
      requires pool.Valid() && Shows(pool.live, st, rx, |received|, filtered)
      modifies pool
      ensures pool.Valid() && pool.live == old(pool.live)
      ensures maxNbTx == MaxSent(links, |st|) && |sent| == |links|
      ensures forall l :: 0 <= l < |links| ==> TookPrefix(sent[l], received + rx, st, Sent(links[l], |st|))
    {
      hide WithTag, Sent, MaxSent, Shows, TookPrefix;
      ghost var tagged := pool.live;
      ShownHeld(tagged, st, rx, |received|, filtered);
      sent, maxNbTx := [], 0;
      NoLinksYet(links, |st|);
      for id := 0 to |links|
        invariant pool.Valid() && pool.live == tagged
        invariant maxNbTx == MaxSent(links[..id], |st|) && |sent| == id
        invariant forall l :: 0 <= l < id ==> TookPrefix(sent[l], received + rx, st, Sent(links[l], |st|))
      {
        var frames := SendOnLink(pool, filtered, links[id]);
        PrefixTaken(tagged, st, received, rx, filtered, frames);
        MaxSentSnoc(links, id, |st|);
        sent := sent + [frames];
        if |frames| > maxNbTx {
          maxNbTx := |frames|;
        }
      }
      assert links[..|links|] == links;
    }

    /** The recorder row of the m-th stamp is the counters after m stamps. */
    lemma CommittedRow(c: seq<nat>, st: seq<Stamp>, m: nat)
      requires Valid() && |c| == |macs| && Recorded(c, st) && 0 < m <= |st|
      ensures m - 1 < MAX_PKT_BURST
      ensures forall s :: 0 <= s < |macs| ==> recorder[m - 1, s] == Apply(c, st[..m])[s]
    {
      hide Apply;
    }

    lemma NothingStamped(c: seq<nat>)
      requires Valid() && |c| == |macs|
      ensures Recorded(c, []) && Apply(c, []) == c
    {
    }
  }

  /** The buffers held are those held before and the clones listed, each once. */
  ghost predicate OnlyClones(before: map<Mbuf, Frame>, live: map<Mbuf, Frame>, clones: seq<Option<Mbuf>>) {
    && (forall m :: m in before ==> m in live && live[m] == before[m] && Some(m) !in clones)
    && (forall m :: m in live ==> m in before || Some(m) in clones)
    && (forall i :: 0 <= i < |clones| && clones[i].Some? ==> clones[i].value in live)
    && (forall i, j :: 0 <= i < j < |clones| && clones[i].Some? ==> clones[i] != clones[j])
  }

  lemma NoClonesYet(live: map<Mbuf, Frame>)
    ensures OnlyClones(live, live, [])
  {
  }

  lemma NoClonesLeft(before: map<Mbuf, Frame>, live: map<Mbuf, Frame>)
    requires OnlyClones(before, live, [])
    ensures live == before
  {
  }

  /** A failed clone adds a null entry, one made adds a fresh buffer. */
  lemma AddClone(before: map<Mbuf, Frame>, live: map<Mbuf, Frame>, clones: seq<Option<Mbuf>>, next: Mbuf, m: Mbuf)
    requires OnlyClones(before, live, clones) && m in before && next !in live
    ensures m in live && live[m] == before[m]
    ensures OnlyClones(before, live, clones + [None])
    ensures OnlyClones(before, live[next := live[m]], clones + [Some(next)])
    ensures forall i :: 0 <= i < |clones| && clones[i].Some? ==> clones[i].value in live && clones[i].value != next
  {
    assert forall x: Mbuf :: Some(x) in clones ==> x in live;
  }

  lemma AllClonesHeld(before: map<Mbuf, Frame>, live: map<Mbuf, Frame>, clones: seq<Option<Mbuf>>, ms: seq<Mbuf>)
    requires OnlyClones(before, live, clones) && |ms| == |clones|
    requires forall i :: 0 <= i < |ms| ==> clones[i] == Some(ms[i])
    ensures OnlyHeld(before, live, ms)
    ensures forall i :: 0 <= i < |ms| ==> ms[i] in live
  {
    forall m | m in live && m !in before ensures m in ms {
      var i :| 0 <= i < |clones| && clones[i] == Some(m);
      assert ms[i] == m;
    }
    forall i | 0 <= i < |ms| ensures ms[i] in live && ms[i] !in before {
      assert clones[i].value in live && clones[i] in clones;
    }
    assert forall i, j :: 0 <= i < j < |ms| ==> clones[i] != clones[j];
  }

  lemma FreeOneClone(before: map<Mbuf, Frame>, live: map<Mbuf, Frame>, m: Mbuf, rest: seq<Option<Mbuf>>)
    requires OnlyClones(before, live, [Some(m)] + rest)
    ensures m in live && OnlyClones(before, live - {m}, rest)
  {
    var all := [Some(m)] + rest;
    assert all[0] == Some(m) && forall i :: 0 <= i < |rest| ==> rest[i] == all[i + 1];
  }

  lemma SkipOneClone(before: map<Mbuf, Frame>, live: map<Mbuf, Frame>, rest: seq<Option<Mbuf>>)
    requires OnlyClones(before, live, [None] + rest)
    ensures OnlyClones(before, live, rest)
  {
    var all := [None] + rest;
    assert forall i :: 0 <= i < |rest| ==> rest[i] == all[i + 1];
    assert forall m: Mbuf :: Some(m) in all <==> Some(m) in rest;
    forall i, j | 0 <= i < j < |rest| && rest[i].Some? ensures rest[i] != rest[j] {
      assert all[i + 1] != all[j + 1];
    }
  }

  /** Buffer j shows the frame its stamp was given to, tagged. */
  ghost predicate Shows(live: map<Mbuf, Frame>, st: seq<Stamp>, rx: seq<Frame>, base: nat, filtered: seq<Mbuf>) {
    && |filtered| == |st|
    && forall j :: 0 <= j < |st| ==>
      && base <= st[j].origin < base + |rx| && filtered[j] in live
      && live[filtered[j]] == WithTag(rx[st[j].origin - base], st[j].server, st[j].counter)
  }

  lemma NothingSeen(live: map<Mbuf, Frame>, rx: seq<Frame>, base: nat)
    ensures Shows(live, [], rx, base, []) && Kept(live, live, [], [])
  {
  }

  lemma FreeKeeps(before: map<Mbuf, Frame>, live: map<Mbuf, Frame>, seen: seq<Mbuf>,
                  st: seq<Stamp>, rx: seq<Frame>, base: nat, filtered: seq<Mbuf>, pkt: Mbuf)
    requires Shows(live, st, rx, base, filtered) && Kept(before, live, seen, filtered)
    requires pkt in live && pkt !in seen && pkt !in filtered
    ensures Shows(live - {pkt}, st, rx, base, filtered) && Kept(before, live - {pkt}, seen + [pkt], filtered)
  {
    hide WithTag;
  }

  lemma StampKeeps(before: map<Mbuf, Frame>, live: map<Mbuf, Frame>, seen: seq<Mbuf>,
                   st: seq<Stamp>, rx: seq<Frame>, base: nat, filtered: seq<Mbuf>, pkt: Mbuf, s: Stamp)
    requires Shows(live, st, rx, base, filtered) && Kept(before, live, seen, filtered)
    requires pkt in live && pkt !in seen && pkt !in filtered
    requires base <= s.origin < base + |rx| && live[pkt] == rx[s.origin - base]
    ensures var live' := live[pkt := WithTag(live[pkt], s.server, s.counter)];
      Shows(live', st + [s], rx, base, filtered + [pkt]) && Kept(before, live', seen + [pkt], filtered + [pkt])
  {
    hide WithTag;
  }

  /** What a link took: the first n tagged frames, in order. */
  ghost predicate TookPrefix(sent: seq<Frame>, received: seq<Frame>, st: seq<Stamp>, n: nat) {
    |sent| == n <= |st| &&
    forall i :: 0 <= i < n ==> st[i].origin < |received| && sent[i] == PacketOf(received, st[i]).frame
  }

  lemma PrefixTaken(live: map<Mbuf, Frame>, st: seq<Stamp>, received: seq<Frame>, rx: seq<Frame>, filtered: seq<Mbuf>,
                    sent: seq<Frame>)
    requires Shows(live, st, rx, |received|, filtered) && |sent| <= |filtered|
    requires forall i :: 0 <= i < |sent| ==> filtered[i] in live && sent[i] == live[filtered[i]]
    ensures TookPrefix(sent, received + rx, st, |sent|)
  {
    hide WithTag;
  }

  lemma NothingSent(links: seq<Link>, received: seq<Frame>, st: seq<Stamp>)
    requires st == []
    ensures forall l :: 0 <= l < |links| ==> TookPrefix([], received, st, Sent(links[l], |st|))
  {
  }

  lemma ShownHeld(live: map<Mbuf, Frame>, st: seq<Stamp>, rx: seq<Frame>, base: nat, filtered: seq<Mbuf>)
    requires Shows(live, st, rx, base, filtered)
    ensures |filtered| == |st| && forall j :: 0 <= j < |filtered| ==> filtered[j] in live
  {
    hide WithTag;
  }

  lemma FilteredGone(before: map<Mbuf, Frame>, tagged: map<Mbuf, Frame>, filtered: seq<Mbuf>)
    requires OnlyHeld(before, tagged, filtered)
    ensures Distinct(filtered) && forall i :: 0 <= i < |filtered| ==> filtered[i] in tagged
    ensures forall m :: m in before <==> m in tagged && m !in filtered
    ensures forall m :: m in before ==> tagged[m] == before[m]
  {
  }

  lemma NoLinksYet(links: seq<Link>, n: nat)
    ensures MaxSent(links[..0], n) == 0
  {
  }

  lemma MaxSentSnoc(links: seq<Link>, id: nat, n: nat)
    requires id < |links|
    ensures MaxSent(links[..id + 1], n) ==
            if Sent(links[id], n) > MaxSent(links[..id], n) then Sent(links[id], n) else MaxSent(links[..id], n)
  {
    hide Sent;
    assert links[..id + 1][..id] == links[..id];
  }

  lemma ApplyNone(c: seq<nat>, st: seq<Stamp>)
    ensures Apply(c, st[..0]) == c
  {
  }

  lemma FirstIndexIs(macs: seq<nat>, mac: nat, r: nat)
    requires r <= |macs| && mac !in macs[..r] && (r < |macs| ==> macs[r] == mac)
    ensures r == ServerOf(macs, mac)
  {
  }
}
