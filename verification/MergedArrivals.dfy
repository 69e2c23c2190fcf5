/** Which packets the egress side lets through, said without its counters: the strict
    running maxima of what arrives, whichever links and bursts they arrive in. */
module MergedArrivals {
  import opened Bytes
  import opened MacTag
  import opened LinkSpec

  /** Packet i beats the starting counter and every earlier packet of its server. */
  ghost predicate IsRecord(c: seq<nat>, rx: seq<Packet>, i: nat)
    requires i < |rx|
  {
    var s, v := ServerIndex(rx[i].frame), ServerCounter(rx[i].frame);
    s < |c| && c[s] < v && forall k :: 0 <= k < i && ServerIndex(rx[k].frame) == s ==> ServerCounter(rx[k].frame) < v
  }

  /** The records of rx, in order. */
  ghost function Records(c: seq<nat>, rx: seq<Packet>): seq<Packet> {
    if rx == [] then []
    else
      var n := |rx| - 1;
      var earlier := Records(c, rx[..n]);
      if IsRecord(c, rx, n) then earlier + [rx[n]] else earlier
  }

  /** The counter kept for a server is the largest of the starting one and those that arrived. */
  lemma {:induction false} EgressCounterIsMaximum(c: seq<nat>, rx: seq<Packet>, s: nat)
    requires s < |c|
    ensures var m := EgressCounters(c, rx)[s];
      && c[s] <= m
      && (forall k :: 0 <= k < |rx| && ServerIndex(rx[k].frame) == s ==> ServerCounter(rx[k].frame) <= m)
      && (m == c[s] || exists k :: 0 <= k < |rx| && ServerIndex(rx[k].frame) == s && ServerCounter(rx[k].frame) == m)
  {
    hide ServerIndex, ServerCounter;
    if rx != [] {
      var n := |rx| - 1;
      EgressCounterIsMaximum(c, rx[..n], s);
      var m := EgressCounters(c, rx[..n])[s];
      if m != c[s] {
        var k :| 0 <= k < n && ServerIndex(rx[..n][k].frame) == s && ServerCounter(rx[..n][k].frame) == m;
        assert ServerIndex(rx[k].frame) == s && ServerCounter(rx[k].frame) == m;
      }
      forall k | 0 <= k < |rx| && ServerIndex(rx[k].frame) == s
        ensures ServerCounter(rx[k].frame) <= EgressCounters(c, rx)[s]
      {
        assert k < n ==> rx[..n][k] == rx[k];
      }
    }
  }

  /** The egress test at packet i is exactly the test for a record. */
  lemma AdmitsExactlyRecords(c: seq<nat>, rx: seq<Packet>, i: nat)
    requires i < |rx|
    ensures Admits(EgressCounters(c, rx[..i]), rx[i].frame) <==> IsRecord(c, rx, i)
  {
    hide ServerIndex, ServerCounter, EgressCounters;
    var s, v := ServerIndex(rx[i].frame), ServerCounter(rx[i].frame);
    if s < |c| {
      EgressCounterIsMaximum(c, rx[..i], s);
      var m := EgressCounters(c, rx[..i])[s];
      if m < v {
        forall k | 0 <= k < i && ServerIndex(rx[k].frame) == s ensures ServerCounter(rx[k].frame) < v {
          assert rx[..i][k] == rx[k];
        }
      } else if m != c[s] {
        var k :| 0 <= k < i && ServerIndex(rx[..i][k].frame) == s && ServerCounter(rx[..i][k].frame) == m;
        assert rx[..i][k] == rx[k];
      }
    }
  }

  /** What gets through is exactly the sequence of records. */
  lemma {:induction false} AdmittedAreRecords(c: seq<nat>, rx: seq<Packet>)
    ensures Admitted(c, rx) == Records(c, rx)
  {
    hide Admits, IsRecord, EgressCounters;
    if rx != [] {
      AdmittedAreRecords(c, rx[..|rx| - 1]);
      AdmitsExactlyRecords(c, rx, |rx| - 1);
    }
  }

  /** How arrivals are cut into bursts makes no difference. */
  lemma {:induction false} BurstsDoNotMatter(c: seq<nat>, a: seq<Packet>, b: seq<Packet>)
    ensures EgressCounters(c, a + b) == EgressCounters(EgressCounters(c, a), b)
    ensures Admitted(c, a + b) == Admitted(c, a) + Admitted(EgressCounters(c, a), b)
  {
    hide *;
    if b == [] {
      assert a + b == a;
      NoArrival(EgressCounters(c, a));
    } else {
      var n := |b| - 1;
      BurstsDoNotMatter(c, a, b[..n]);
      assert a + b == (a + b[..n]) + [b[n]] && b == b[..n] + [b[n]];
      OneMoreArrival(c, a + b[..n], b[n]);
      OneMoreArrival(EgressCounters(c, a), b[..n], b[n]);
    }
  }

  lemma NoArrival(c: seq<nat>)
    ensures EgressCounters(c, []) == c && Admitted(c, []) == []
  {
  }

  lemma OneMoreArrival(c: seq<nat>, rx: seq<Packet>, p: Packet)
    ensures EgressCounters(c, rx + [p]) == if Admits(EgressCounters(c, rx), p.frame)
      then EgressCounters(c, rx)[ServerIndex(p.frame) := ServerCounter(p.frame)] else EgressCounters(c, rx)
    ensures Admitted(c, rx + [p]) == if Admits(EgressCounters(c, rx), p.frame)
      then Admitted(c, rx) + [p] else Admitted(c, rx)
  {
    assert (rx + [p])[..|rx|] == rx;
  }

  /** A tag value gets through exactly when it arrives before any larger one of its server. */
  lemma ValueGetsThroughExactly(c: seq<nat>, rx: seq<Packet>, s: nat, v: nat)
    requires s < |c| && c[s] < v
    ensures (exists i :: 0 <= i < |rx| && Is(rx[i], s, v) && Admits(EgressCounters(c, rx[..i]), rx[i].frame))
       <==> (exists i :: 0 <= i < |rx| && Is(rx[i], s, v) && NoneAbove(rx[..i], s, v))
  {
    hide ServerIndex, ServerCounter, EgressCounters, Admits;
    if i :| 0 <= i < |rx| && Is(rx[i], s, v) && Admits(EgressCounters(c, rx[..i]), rx[i].frame) {
      AdmitsExactlyRecords(c, rx, i);
      assert NoneAbove(rx[..i], s, v);
    }
    if i :| 0 <= i < |rx| && Is(rx[i], s, v) && NoneAbove(rx[..i], s, v) {
      var f := FirstOf(rx, s, v, i);
      forall k | 0 <= k < f && ServerIndex(rx[k].frame) == s ensures ServerCounter(rx[k].frame) < v {
        assert rx[..i][k] == rx[k] && !Is(rx[k], s, v);
      }
      AdmitsExactlyRecords(c, rx, f);
    }
  }

  ghost predicate Is(p: Packet, s: nat, v: nat) {
    ServerIndex(p.frame) == s && ServerCounter(p.frame) == v
  }

  ghost predicate NoneAbove(rx: seq<Packet>, s: nat, v: nat) {
    forall k :: 0 <= k < |rx| && ServerIndex(rx[k].frame) == s ==> ServerCounter(rx[k].frame) <= v
  }

  lemma {:induction false} FirstOf(rx: seq<Packet>, s: nat, v: nat, i: nat) returns (f: nat)
    requires i < |rx| && Is(rx[i], s, v)
    ensures f <= i && Is(rx[f], s, v) && forall k :: 0 <= k < f ==> !Is(rx[k], s, v)
  {
    hide Is;
    if k :| 0 <= k < i && Is(rx[k], s, v) {
      f := FirstOf(rx, s, v, k);
    } else {
      f := i;
    }
  }

  // ---------------------------------------------------------------- FIFO links

  /** The counters of server s among packets, in order. */
  ghost function Counters(ps: seq<Packet>, s: nat): seq<nat> {
    if ps == [] then []
    else
      var n := |ps| - 1;
      var earlier := Counters(ps[..n], s);
      if ServerIndex(ps[n].frame) == s then earlier + [ServerCounter(ps[n].frame)] else earlier
  }

  /** The packets that came by link l; `via[i]` is the link packet i came by. */
  ghost function By(rx: seq<Packet>, via: seq<nat>, l: nat): seq<Packet>
    requires |via| == |rx|
  {
    if rx == [] then []
    else
      var n := |rx| - 1;
      var earlier := By(rx[..n], via[..n], l);
      if via[n] == l then earlier + [rx[n]] else earlier
  }

  /** 1, 2, ..., k. */
  function Upto(k: nat): (s: seq<nat>)
    ensures |s| == k && forall i :: 0 <= i < k ==> s[i] == i + 1
  {
    seq(k, i => i + 1)
  }

  function MaxOf(ks: seq<nat>): (m: nat)
    ensures forall l :: 0 <= l < |ks| ==> ks[l] <= m
    ensures m == 0 || m in ks
  {
    if ks == [] then 0 else if ks[0] > MaxOf(ks[1..]) then ks[0] else MaxOf(ks[1..])
  }

  lemma CountersSnoc(ps: seq<Packet>, p: Packet, s: nat)
    ensures Counters(ps + [p], s) ==
      if ServerIndex(p.frame) == s then Counters(ps, s) + [ServerCounter(p.frame)] else Counters(ps, s)
  {
    assert (ps + [p])[..|ps|] == ps;
  }

  /** The invariant of a merge of gap-free FIFO links: what got through so far is 1, 2, ..., m
      with m the largest counter any link has delivered. */
  lemma {:induction false} MergeSoFar(c: seq<nat>, rx: seq<Packet>, via: seq<nat>, s: nat, ks: seq<nat>)
    requires s < |c| && c[s] == 0
    requires |via| == |rx| && forall i :: 0 <= i < |via| ==> via[i] < |ks|
    requires forall l :: 0 <= l < |ks| ==> Counters(By(rx, via, l), s) == Upto(ks[l])
    ensures EgressCounters(c, rx)[s] == MaxOf(ks)
    ensures Counters(Admitted(c, rx), s) == Upto(MaxOf(ks))
  {
    hide ServerIndex, ServerCounter, MaxOf, By;
    if rx == [] {
      EmptyMerge(s, ks);
    } else {
      var n := |rx| - 1;
      PreviousMerge(rx, via, s, ks);
      MergeSoFar(c, rx[..n], via[..n], s, PreviousCounts(rx, via, s, ks));
      MergeStep(c, rx, via, s, ks);
    }
  }

  lemma EmptyMerge(s: nat, ks: seq<nat>)
    requires forall l :: 0 <= l < |ks| ==> Counters(By([], [], l), s) == Upto(ks[l])
    ensures MaxOf(ks) == 0
  {
    assert forall l :: 0 <= l < |ks| ==> |Upto(ks[l])| == 0;
  }

  /** Link counts before the last packet. */
  ghost function PreviousCounts(rx: seq<Packet>, via: seq<nat>, s: nat, ks: seq<nat>): seq<nat>
    requires |via| == |rx| > 0 && via[|rx| - 1] < |ks|
  {
    var n := |rx| - 1;
    if ServerIndex(rx[n].frame) == s && ks[via[n]] > 0 then ks[via[n] := ks[via[n]] - 1] else ks
  }

  lemma PreviousMerge(rx: seq<Packet>, via: seq<nat>, s: nat, ks: seq<nat>)
    requires |via| == |rx| > 0 && via[|rx| - 1] < |ks|
    requires forall l :: 0 <= l < |ks| ==> Counters(By(rx, via, l), s) == Upto(ks[l])
    ensures var n := |rx| - 1; var ks' := PreviousCounts(rx, via, s, ks);
      && (forall l :: 0 <= l < |ks| ==> Counters(By(rx[..n], via[..n], l), s) == Upto(ks'[l]))
      && (ServerIndex(rx[n].frame) == s ==> ServerCounter(rx[n].frame) == ks[via[n]] > 0)
  {
    hide ServerIndex, ServerCounter, Counters, Upto;
    var n := |rx| - 1;
    var ks' := PreviousCounts(rx, via, s, ks);
    forall l | 0 <= l < |ks|
      ensures Counters(By(rx[..n], via[..n], l), s) == Upto(ks'[l])
      ensures l == via[n] && ServerIndex(rx[n].frame) == s ==> ServerCounter(rx[n].frame) == ks[l] > 0
    {
      var earlier := By(rx[..n], via[..n], l);
      if l == via[n] {
        CountersSnoc(earlier, rx[n], s);
        if ServerIndex(rx[n].frame) == s {
          UptoSnoc(Counters(earlier, s), ServerCounter(rx[n].frame), ks[l]);
        }
      }
    }
  }

  lemma UptoSnoc(a: seq<nat>, x: nat, k: nat)
    requires a + [x] == Upto(k)
    ensures k == x > 0 && a == Upto(k - 1)
  {
    assert |a + [x]| == k && (a + [x])[k - 1] == x;
    assert a == (a + [x])[..k - 1];
  }

  lemma MergeStep(c: seq<nat>, rx: seq<Packet>, via: seq<nat>, s: nat, ks: seq<nat>)
    requires s < |c| && |via| == |rx| > 0 && via[|rx| - 1] < |ks|
    requires var n := |rx| - 1; var m := MaxOf(PreviousCounts(rx, via, s, ks));
      && EgressCounters(c, rx[..n])[s] == m && Counters(Admitted(c, rx[..n]), s) == Upto(m)
      && (ServerIndex(rx[n].frame) == s ==> ServerCounter(rx[n].frame) == ks[via[n]] > 0)
    ensures EgressCounters(c, rx)[s] == MaxOf(ks)
    ensures Counters(Admitted(c, rx), s) == Upto(MaxOf(ks))
  {
    hide *;
    var n := |rx| - 1;
    var m, p := EgressCounters(c, rx[..n])[s], rx[n];
    LastArrival(c, rx, s);
    PreviousCountsOf(rx, via, s, ks);
    if ServerIndex(p.frame) == s {
      MaxAfterIncrement(ks, via[n]);
      if m < ks[via[n]] {
        assert MaxOf(ks) == m + 1;
        UptoNext(m);
      }
    }
  }

  lemma PreviousCountsOf(rx: seq<Packet>, via: seq<nat>, s: nat, ks: seq<nat>)
    requires |via| == |rx| > 0 && via[|rx| - 1] < |ks|
    ensures var n := |rx| - 1;
      PreviousCounts(rx, via, s, ks) ==
      (if ServerIndex(rx[n].frame) == s && ks[via[n]] > 0 then ks[via[n] := ks[via[n]] - 1] else ks)
  {
    hide ServerIndex;
  }

  /** What the last packet does to the counter and the accepted values of server s. */
  lemma LastArrival(c: seq<nat>, rx: seq<Packet>, s: nat)
    requires s < |c| && rx != []
    ensures var n := |rx| - 1; var v := ServerCounter(rx[n].frame);
      var m, got := EgressCounters(c, rx[..n])[s], Counters(Admitted(c, rx[..n]), s);
      if ServerIndex(rx[n].frame) == s && m < v
      then EgressCounters(c, rx)[s] == v && Counters(Admitted(c, rx), s) == got + [v]
      else EgressCounters(c, rx)[s] == m && Counters(Admitted(c, rx), s) == got
  {
    hide ServerIndex, ServerCounter, Counters;
    CountersSnoc(Admitted(c, rx[..|rx| - 1]), rx[|rx| - 1], s);
  }

  lemma UptoNext(m: nat)
    ensures Upto(m + 1) == Upto(m) + [m + 1]
  {
  }

  lemma MaxAfterIncrement(ks: seq<nat>, l: nat)
    requires l < |ks| && ks[l] > 0
    ensures var m := MaxOf(ks[l := ks[l] - 1]);
      ks[l] <= m + 1 && MaxOf(ks) == if ks[l] > m then ks[l] else m
  {
    hide MaxOf;
    var ks' := ks[l := ks[l] - 1];
    var m, m' := MaxOf(ks), MaxOf(ks');
    assert ks'[l] == ks[l] - 1;
    if m != 0 {
      var a :| 0 <= a < |ks| && ks[a] == m;
      assert a != l ==> ks'[a] == m;
    }
    if m' != 0 {
      var b :| 0 <= b < |ks'| && ks'[b] == m';
      assert b != l ==> ks[b] == m';
    }
  }

  /** When every link delivers in order and without gaps the counters 1 to its own k, any
      merge of the links lets through exactly 1, 2, ..., max k: nothing is missing. */
  lemma GapFreeLinksLoseNothing(servers: nat, rx: seq<Packet>, via: seq<nat>, s: nat, ks: seq<nat>)
    requires s < servers
    requires |via| == |rx| && forall i :: 0 <= i < |via| ==> via[i] < |ks|
    requires forall l :: 0 <= l < |ks| ==> Counters(By(rx, via, l), s) == Upto(ks[l])
    ensures Counters(Admitted(seq(servers, _ => 0), rx), s) == Upto(MaxOf(ks))
  {
    MergeSoFar(seq(servers, _ => 0), rx, via, s, ks);
  }

  /** One healthy link is not enough: if another link, having lost frame 1, delivers frame 2
      first, frame 1 is rejected although the healthy link delivers 1, 2. */
  lemma OneHealthyLinkMayNotSuffice(f: Frame)
    ensures var one, two := Packet(WithTag(f, 0, 1), 0), Packet(WithTag(f, 0, 2), 1);
      var rx, via := [two, one, two], [1, 0, 0];
      && Counters(By(rx, via, 0), 0) == Upto(2)
      && Counters(Admitted([0], rx), 0) == [2]
  {
    hide WithTag, ServerIndex, ServerCounter;
    TagReadsBack(f, 0, 1);
    TagReadsBack(f, 0, 2);
    var one, two := Packet(WithTag(f, 0, 1), 0), Packet(WithTag(f, 0, 2), 1);
    var rx, via := [two, one, two], [1, 0, 0];
    assert rx[..2] == [two, one] && rx[..2][..1] == [two] && [two][..0] == [];
    assert via[..2] == [1, 0] && via[..2][..1] == [1] && [1][..0] == [];
    assert By([two], [1], 0) == [];
    assert By([two, one], [1, 0], 0) == [one];
    assert By(rx, via, 0) == [one, two];
    assert EgressCounters([0], [two]) == [2];
    assert EgressCounters([0], [two, one]) == [2];
    assert Admitted([0], [two]) == [two];
    assert Admitted([0], [two, one]) == [two];
    assert Admitted([0], rx) == [two];
    assert Upto(2) == [1, 2];
    CountersSnoc([], one, 0);
    CountersSnoc([one], two, 0);
    CountersSnoc([], two, 0);
    assert [] + [one] == [one] && [one] + [two] == [one, two] && [] + [two] == [two];
  }
}
