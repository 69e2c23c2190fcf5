/** Writing a buffer into a packet that spans a chain of segments. */
module SegmentCopy {
  import opened Bytes

  /** The segments after a write that starts at offset and runs on from segment to segment. */
  function Written(segs: seq<seq<Byte>>, buf: seq<Byte>, offset: nat): (r: seq<seq<Byte>>)
    ensures |r| == |segs| && forall i :: 0 <= i < |segs| ==> |r[i]| == |segs[i]|
  {
    if segs == [] then []
    else if offset >= |segs[0]| then [segs[0]] + Written(segs[1..], buf, offset - |segs[0]|)
    else
      var room := |segs[0]| - offset;
      var n := if |buf| < room then |buf| else room;
      [Overwritten(segs[0], buf[..n], offset)] + Written(segs[1..], buf[n..], 0)
  }

  lemma {:induction false} WriteNothing(segs: seq<seq<Byte>>, offset: nat)
    ensures Written(segs, [], offset) == segs
  {
    if segs != [] {
      if offset >= |segs[0]| {
        WriteNothing(segs[1..], offset - |segs[0]|);
      } else {
        WriteNothing(segs[1..], 0);
        assert Overwritten(segs[0], [], offset) == segs[0];
      }
    }
  }

  /** Writing across segments is overwriting the flattened packet, whatever the lengths of
      the segments. */
  lemma {:induction false} FlattenOfWritten(segs: seq<seq<Byte>>, buf: seq<Byte>, offset: nat)
    requires offset + |buf| <= |Flatten(segs)|
    ensures |Flatten(Written(segs, buf, offset))| == |Flatten(segs)|
    ensures Flatten(Written(segs, buf, offset)) == Overwritten(Flatten(segs), buf, offset)
  {
    if segs != [] {
      var first, rest := segs[0], segs[1..];
      if offset >= |first| {
        FlattenOfWritten(rest, buf, offset - |first|);
        WriteAfter(first, Flatten(rest), buf, offset);
      } else {
        var room := |first| - offset;
        var n := if |buf| < room then |buf| else room;
        FlattenOfWritten(rest, buf[n..], 0);
        WriteAcross(first, Flatten(rest), buf, offset, n);
      }
    }
  }

  lemma WriteAfter(a: seq<Byte>, b: seq<Byte>, buf: seq<Byte>, offset: nat)
    requires |a| <= offset && offset + |buf| <= |a + b|
    ensures a + Overwritten(b, buf, offset - |a|) == Overwritten(a + b, buf, offset)
  {
  }

  lemma WriteAcross(a: seq<Byte>, b: seq<Byte>, buf: seq<Byte>, offset: nat, n: nat)
    requires n <= |buf| && offset + n <= |a| && (n < |buf| ==> offset + n == |a|) && |buf| - n <= |b|
    ensures Overwritten(a, buf[..n], offset) + Overwritten(b, buf[n..], 0) == Overwritten(a + b, buf, offset)
  {
    assert buf == buf[..n] + buf[n..];
  }

  // ---------------------------------------------------------------- the copying code

  ghost predicate DistinctSegments(segs: seq<array<Byte>>) {
    forall i, j :: 0 <= i < j < |segs| ==> segs[i] != segs[j]
  }

  ghost function Contents(segs: seq<array<Byte>>): seq<seq<Byte>>
    reads segs
  {
    seq(|segs|, i requires 0 <= i < |segs| reads segs => segs[i][..])
  }

  /** `rte_memcpy` into a segment. */
  method CopyInto(seg: array<Byte>, at: nat, buf: seq<Byte>, from: nat, len: nat)
    requires at + len <= seg.Length && from + len <= |buf|
    modifies seg
    ensures seg[..] == Overwritten(old(seg[..]), buf[from..from + len], at)
  {
    for i := 0 to len
      invariant forall k :: 0 <= k < seg.Length ==>
        seg[k] == if at <= k < at + i then buf[from + k - at] else old(seg[k])
    {
      seg[at + i] := buf[from + i];
    }
  }

  /** One segment of a chain changes, the others stay. */
  method CopyIntoSegment(segs: seq<array<Byte>>, seg: nat, at: nat, buf: seq<Byte>, from: nat, len: nat)
    requires DistinctSegments(segs) && seg < |segs| && at + len <= segs[seg].Length && from + len <= |buf|
    modifies segs
    ensures Contents(segs) == old(Contents(segs))[seg := Overwritten(old(segs[seg][..]), buf[from..from + len], at)]
  {
    hide Overwritten;
    CopyInto(segs[seg], at, buf, from, len);
  }

  /** The rest of the chain, as it was, takes `len` octets from `offset` on. */
  ghost predicate Fits(rest: seq<seq<Byte>>, offset: nat, len: nat) {
    rest != [] && offset + len <= |Flatten(rest)|
  }

  /** What is written so far, and what is left to write into the untouched rest. */
  ghost predicate Progress(goal: seq<seq<Byte>>, now: seq<seq<Byte>>, before: seq<seq<Byte>>, seg: nat,
                           buf: seq<Byte>, offset: nat) {
    && seg < |now| == |before| && now[seg..] == before[seg..]
    && goal == now[..seg] + Written(before[seg..], buf, offset)
  }

  /** `copy_buf_to_pkt_segs`: skip to the segment of the offset, then fill segment after
      segment. The chain must reach beyond the offset and hold the whole buffer. */
  method CopyBufToPktSegs(buf: seq<Byte>, segs: seq<array<Byte>>, offset0: nat)
    requires DistinctSegments(segs)
    requires offset0 + |buf| <= |Flatten(Contents(segs))| && offset0 < |Flatten(Contents(segs))|
    modifies segs
    ensures Contents(segs) == Written(old(Contents(segs)), buf, offset0)
  {
    hide Written, Flatten, Overwritten, Fits, Progress, DistinctSegments;
    ghost var before := Contents(segs);
    ghost var goal := Written(before, buf, offset0);
    var seg, offset: nat, len: nat, from: nat := 0, offset0, |buf|, 0;
    StartWriting(before, buf, offset);
    while offset >= segs[seg].Length
      invariant seg < |segs| && Contents(segs) == before && len == |buf|
      invariant offset < |Flatten(before[seg..])| && Fits(before[seg..], offset, len)
      invariant Progress(goal, before, before, seg, buf, offset)
      decreases |segs| - seg
    {
      SkipSegment(goal, before, buf, seg, offset);
      offset := offset - segs[seg].Length;
      seg := seg + 1;
    }
    var copyLen: nat := segs[seg].Length - offset;
    assert buf[0..] == buf;
    while len > copyLen
      invariant seg < |segs| && copyLen + offset == segs[seg].Length && from + len == |buf|
      invariant Fits(before[seg..], offset, len)
      invariant Progress(goal, Contents(segs), before, seg, buf[from..], offset)
      decreases |segs| - seg
    {
      UntouchedSegment(goal, Contents(segs), before, seg, buf[from..], offset);
      FillSegment(goal, Contents(segs), before, seg, buf[from..], offset, copyLen);
      assert buf[from..][..copyLen] == buf[from..from + copyLen] && buf[from..][copyLen..] == buf[from + copyLen..];
      CopyIntoSegment(segs, seg, offset, buf, from, copyLen);
      from, len := from + copyLen, len - copyLen;
      seg, offset := seg + 1, 0;
      copyLen := segs[seg].Length;
    }
    UntouchedSegment(goal, Contents(segs), before, seg, buf[from..], offset);
    LastSegment(goal, Contents(segs), before, seg, buf[from..], offset);
    assert buf[from..] == buf[from..from + len];
    CopyIntoSegment(segs, seg, offset, buf, from, len);
  }

  /** `copy_buf_to_pkt`: one copy if the first segment holds it all, else the segment walk. */
  method CopyBufToPkt(buf: seq<Byte>, segs: seq<array<Byte>>, offset: nat)
    requires DistinctSegments(segs) && segs != []
    requires offset + |buf| <= |Flatten(Contents(segs))|
    requires offset < |Flatten(Contents(segs))| || offset + |buf| <= segs[0].Length
    modifies segs
    ensures Contents(segs) == Written(old(Contents(segs)), buf, offset)
    ensures Flatten(Contents(segs)) == Overwritten(old(Flatten(Contents(segs))), buf, offset)
  {
    hide Written, Flatten, Overwritten, DistinctSegments;
    FlattenOfWritten(Contents(segs), buf, offset);
    if offset + |buf| <= segs[0].Length {
      FirstSegmentOnly(Contents(segs), buf, offset);
      assert buf[0..0 + |buf|] == buf;
      CopyIntoSegment(segs, 0, offset, buf, 0, |buf|);
      return;
    }
    CopyBufToPktSegs(buf, segs, offset);
  }

  lemma FirstSegmentOnly(segs: seq<seq<Byte>>, buf: seq<Byte>, offset: nat)
    requires segs != [] && offset + |buf| <= |segs[0]|
    ensures Written(segs, buf, offset) == segs[0 := Overwritten(segs[0], buf, offset)]
  {
    HeadOfWritten(segs, buf, offset, |buf|);
    assert buf[..|buf|] == buf && buf[|buf|..] == [];
    WriteNothing(segs[1..], 0);
  }

  /** A write that starts in or at the end of the first segment fills it, then goes on. */
  lemma HeadOfWritten(segs: seq<seq<Byte>>, buf: seq<Byte>, offset: nat, n: nat)
    requires segs != [] && offset + n <= |segs[0]| && n <= |buf|
    requires n < |buf| ==> offset + n == |segs[0]|
    ensures Written(segs, buf, offset) == [Overwritten(segs[0], buf[..n], offset)] + Written(segs[1..], buf[n..], 0)
  {
    if offset == |segs[0]| {
      assert buf[..0] == [] && buf[0..] == buf;
      assert Overwritten(segs[0], [], offset) == segs[0];
    }
  }

  lemma StartWriting(before: seq<seq<Byte>>, buf: seq<Byte>, offset: nat)
    requires offset + |buf| <= |Flatten(before)| && offset < |Flatten(before)|
    ensures |before| > 0 && before[0..] == before && Fits(before, offset, |buf|)
    ensures Progress(Written(before, buf, offset), before, before, 0, buf, offset)
  {
    hide Written;
    assert before != [];
    assert before[0..] == before && before[..0] == [];
  }

  lemma SkipSegment(goal: seq<seq<Byte>>, before: seq<seq<Byte>>, buf: seq<Byte>, seg: nat, offset: nat)
    requires Progress(goal, before, before, seg, buf, offset) && Fits(before[seg..], offset, |buf|)
    requires |before[seg]| <= offset < |Flatten(before[seg..])|
    ensures var o := offset - |before[seg]|;
      && seg + 1 < |before| && o < |Flatten(before[seg + 1..])|
      && Fits(before[seg + 1..], o, |buf|) && Progress(goal, before, before, seg + 1, buf, o)
  {
    hide Written, Flatten, Overwritten;
    var rest := before[seg..];
    TailOfRest(before, seg);
    FlattenHead(rest);
    SkipHead(rest, buf, offset);
    assert before[..seg + 1] == before[..seg] + [before[seg]];
    assert goal == before[..seg + 1] + Written(before[seg + 1..], buf, offset - |before[seg]|);
  }

  lemma TailOfRest(segs: seq<seq<Byte>>, seg: nat)
    requires seg < |segs|
    ensures segs[seg..] != [] && segs[seg..][0] == segs[seg] && segs[seg..][1..] == segs[seg + 1..]
  {
  }

  lemma SkipHead(segs: seq<seq<Byte>>, buf: seq<Byte>, offset: nat)
    requires segs != [] && |segs[0]| <= offset
    ensures Written(segs, buf, offset) == [segs[0]] + Written(segs[1..], buf, offset - |segs[0]|)
  {
    hide Overwritten;
  }

  lemma UntouchedSegment(goal: seq<seq<Byte>>, now: seq<seq<Byte>>, before: seq<seq<Byte>>, seg: nat, buf: seq<Byte>,
                         offset: nat)
    requires Progress(goal, now, before, seg, buf, offset)
    ensures seg < |now| == |before| && now[seg] == before[seg]
  {
    assert now[seg..][0] == before[seg..][0];
  }

  lemma FillSegment(goal: seq<seq<Byte>>, now: seq<seq<Byte>>, before: seq<seq<Byte>>, seg: nat, buf: seq<Byte>,
                    offset: nat, n: nat)
    requires Progress(goal, now, before, seg, buf, offset) && Fits(before[seg..], offset, |buf|)
    requires offset + n == |before[seg]| && n < |buf| && now[seg] == before[seg]
    ensures seg + 1 < |before| && Fits(before[seg + 1..], 0, |buf| - n)
    ensures Progress(goal, now[seg := Overwritten(now[seg], buf[..n], offset)], before, seg + 1, buf[n..], 0)
  {
    hide Overwritten, Written, Flatten;
    var rest, o := before[seg..], Overwritten(now[seg], buf[..n], offset);
    TailOfRest(before, seg);
    FlattenHead(rest);
    HeadOfWritten(rest, buf, offset, n);
    ReplaceSegment(goal, now, before, seg, o, Written(before[seg + 1..], buf[n..], 0));
  }

  lemma ReplaceSegment(goal: seq<seq<Byte>>, now: seq<seq<Byte>>, before: seq<seq<Byte>>, seg: nat, o: seq<Byte>,
                       rest: seq<seq<Byte>>)
    requires seg < |now| == |before| && now[seg..] == before[seg..]
    requires goal == now[..seg] + ([o] + rest)
    ensures goal == now[seg := o][..seg + 1] + rest && now[seg := o][seg + 1..] == before[seg + 1..]
  {
    assert now[seg := o][..seg + 1] == now[..seg] + [o];
    assert now[seg := o][seg + 1..] == now[seg..][1..];
    assert before[seg + 1..] == before[seg..][1..];
  }

  lemma FlattenHead(segs: seq<seq<Byte>>)
    requires segs != []
    ensures |Flatten(segs)| == |segs[0]| + |Flatten(segs[1..])|
    ensures |Flatten(segs)| > |segs[0]| ==> segs[1..] != []
  {
  }

  lemma LastSegment(goal: seq<seq<Byte>>, now: seq<seq<Byte>>, before: seq<seq<Byte>>, seg: nat, buf: seq<Byte>,
                    offset: nat)
    requires Progress(goal, now, before, seg, buf, offset)
    requires offset + |buf| <= |before[seg]| && now[seg] == before[seg]
    ensures goal == now[seg := Overwritten(now[seg], buf, offset)]
  {
    hide Overwritten, Written;
    var rest := before[seg..];
    FirstSegmentOnly(rest, buf, offset);
    assert now == now[..seg] + rest;
    assert rest[0] == before[seg];
  }
}
