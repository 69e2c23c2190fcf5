/** Packet buffers as the pipelines hold them. A buffer may be freed or handed over only
    while it is held, so a pipeline that verifies never gives one back twice. */
module MbufPool {
  import opened Options

  type Mbuf = nat

  class Pool<D> {
    /** Buffers held by the program, and the octets each shows. */
    var live: map<Mbuf, D>
    var next: Mbuf

    ghost predicate Valid()
      reads this
    {
      forall m :: m in live ==> m < next
    }

    constructor ()
      ensures Valid() && live == map[]
    {
      live, next := map[], 0;
    }

    /** A received burst arrives in fresh buffers. */
    method Receive(frames: seq<D>) returns (ms: seq<Mbuf>)
      requires Valid()
      modifies this
      ensures Valid() && next == old(next) + |frames|
      ensures |ms| == |frames| && forall i :: 0 <= i < |ms| ==> ms[i] == old(next) + i
      ensures forall m :: m in live <==> m in old(live) || m in ms
      ensures forall m :: m in old(live) ==> live[m] == old(live)[m] && m !in ms
      ensures forall i :: 0 <= i < |ms| ==> live[ms[i]] == frames[i]
    {
      ms := [];
      for i := 0 to |frames|
        invariant Valid() && next == old(next) + i && |ms| == i
        invariant forall k :: 0 <= k < i ==> ms[k] == old(next) + k
        invariant forall m :: m in live <==> m in old(live) || m in ms
        invariant forall m :: m in old(live) ==> live[m] == old(live)[m]
        invariant forall k :: 0 <= k < i ==> live[ms[k]] == frames[k]
      {
        live := live[next := frames[i]];
        ms := ms + [next];
        next := next + 1;
      }
    }

    method Free(m: Mbuf)
      requires Valid() && m in live
      modifies this
      ensures Valid() && live == old(live) - {m} && next == old(next)
    {
      live := live - {m};
    }

    /** The headers of a held buffer are rewritten in place. */
    method Write(m: Mbuf, f: D)
      requires Valid() && m in live
      modifies this
      ensures Valid() && live == old(live)[m := f] && next == old(next)
    {
      live := live[m := f];
    }

    /** A fresh buffer; allocation may fail. */
    method Alloc(d: D, fails: bool) returns (c: Option<Mbuf>)
      requires Valid()
      modifies this
      ensures Valid()
      ensures fails ==> c == None && live == old(live) && next == old(next)
      ensures !fails ==> c == Some(old(next)) && live == old(live)[old(next) := d] && next == old(next) + 1
    {
      if fails {
        c := None;
      } else {
        c := Some(next);
        live := live[next := d];
        next := next + 1;
      }
    }

    /** A clone shows the same octets; allocation may fail. */
    method Clone(m: Mbuf, fails: bool) returns (c: Option<Mbuf>)
      requires Valid() && m in live
      modifies this
      ensures Valid()
      ensures fails ==> c == None && live == old(live) && next == old(next)
      ensures !fails ==> c == Some(old(next)) && live == old(live)[old(next) := old(live)[m]] && next == old(next) + 1
    {
      c := Alloc(live[m], fails);
    }

    /** The driver accepts the first n buffers: they are no longer the program's. */
    method Transmit(ms: seq<Mbuf>, n: nat) returns (frames: seq<D>)
      requires Valid() && n <= |ms|
      requires forall i :: 0 <= i < n ==> ms[i] in live
      requires forall i, j :: 0 <= i < j < n ==> ms[i] != ms[j]
      modifies this
      ensures Valid() && next == old(next)
      ensures |frames| == n && forall i :: 0 <= i < n ==> frames[i] == old(live)[ms[i]]
      ensures forall m :: m in live <==> m in old(live) && m !in ms[..n]
      ensures forall m :: m in live ==> live[m] == old(live)[m]
    {
      frames := [];
      for i := 0 to n
        invariant Valid() && next == old(next) && |frames| == i
        invariant forall k :: 0 <= k < i ==> frames[k] == old(live)[ms[k]]
        invariant forall m :: m in live <==> m in old(live) && m !in ms[..i]
        invariant forall m :: m in live ==> live[m] == old(live)[m]
      {
        assert ms[i] !in ms[..i];
        frames := frames + [live[ms[i]]];
        live := live - {ms[i]};
        assert ms[..i + 1] == ms[..i] + [ms[i]];
      }
    }

    /** Free every buffer of a list. */
    method FreeAll(ms: seq<Mbuf>)
      requires Valid()
      requires forall i :: 0 <= i < |ms| ==> ms[i] in live
      requires Distinct(ms)
      modifies this
      ensures Valid() && next == old(next)
      ensures forall m :: m in live <==> m in old(live) && m !in ms
      ensures forall m :: m in live ==> live[m] == old(live)[m]
    {
      for i := 0 to |ms|
        invariant Valid() && next == old(next)
        invariant forall m :: m in live <==> m in old(live) && m !in ms[..i]
        invariant forall m :: m in live ==> live[m] == old(live)[m]
      {
        assert ms[i] !in ms[..i];
        Free(ms[i]);
        assert ms[..i + 1] == ms[..i] + [ms[i]];
      }
      assert ms[..|ms|] == ms;
    }
  }

  ghost predicate Distinct(ms: seq<Mbuf>) {
    forall i, j :: 0 <= i < j < |ms| ==> ms[i] != ms[j]
  }

  /** Of the buffers seen, exactly the filtered ones are still held; no other was touched. */
  ghost predicate Kept<D>(before: map<Mbuf, D>, live: map<Mbuf, D>, seen: seq<Mbuf>, filtered: seq<Mbuf>) {
    && (forall m :: m in live <==> m in before && (m !in seen || m in filtered))
    && (forall m :: m in live && m !in seen ==> live[m] == before[m])
    && (forall m :: m in filtered ==> m in seen)
    && Distinct(filtered)
  }

  lemma NextKept<D>(before: map<Mbuf, D>, live: map<Mbuf, D>, originals: seq<Mbuf>, filtered: seq<Mbuf>, i: nat)
    requires i < |originals| && Distinct(originals) && originals[i] in before
    requires Kept(before, live, originals[..i], filtered)
    ensures originals[i] !in originals[..i] && originals[i] !in filtered
    ensures originals[i] in live && live[originals[i]] == before[originals[i]]
  {
  }

  /** The buffers held are those held before and the listed ones. */
  ghost predicate OnlyHeld<D>(before: map<Mbuf, D>, live: map<Mbuf, D>, ms: seq<Mbuf>) {
    && (forall m :: m in live <==> m in before || m in ms)
    && (forall m :: m in before ==> live[m] == before[m] && m !in ms)
    && Distinct(ms)
  }

  /** After the filter loop the buffers held are those held before the burst and the kept ones. */
  lemma OnlyFilteredHeld<D>(before: map<Mbuf, D>, live: map<Mbuf, D>, tagged: map<Mbuf, D>,
                         originals: seq<Mbuf>, filtered: seq<Mbuf>)
    requires Kept(live, tagged, originals, filtered)
    requires forall m :: m in live <==> m in before || m in originals
    requires forall m :: m in before ==> m !in originals && live[m] == before[m]
    ensures OnlyHeld(before, tagged, filtered)
  {
  }

  lemma AllGone<D>(before: map<Mbuf, D>, live: map<Mbuf, D>, left: map<Mbuf, D>, end: map<Mbuf, D>,
                ms: seq<Mbuf>, n: nat)
    requires OnlyHeld(before, live, ms) && n <= |ms|
    requires forall m :: m in left <==> m in live && m !in ms[..n]
    requires forall m :: m in left ==> left[m] == live[m]
    requires forall m :: m in end <==> m in left && m !in ms[n..]
    requires forall m :: m in end ==> end[m] == left[m]
    ensures end == before
  {
    forall m ensures m in ms <==> m in ms[..n] || m in ms[n..] {
      assert ms == ms[..n] + ms[n..];
    }
    assert forall m :: m in end <==> m in before;
  }
}
