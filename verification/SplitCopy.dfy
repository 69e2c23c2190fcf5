/** Copying a packet into freshly allocated segments of requested lengths. */
module SplitCopy {
  import opened Bytes
  import opened MbufPool
  import opened Options

  const UINT16: nat := 65536
  const UINT32: nat := 0x1_0000_0000
  const MAX_SEGS: nat := 255

  function Sum(lens: seq<nat>): nat {
    if lens == [] then 0 else Sum(lens[..|lens| - 1]) + lens[|lens| - 1]
  }

  // ---------------------------------------------------------------- cutting

  /** The source after its first n octets of the first segment have been taken. */
  function Rest(segs: seq<seq<Byte>>, n: nat): seq<seq<Byte>>
    requires segs != [] && n <= |segs[0]|
  {
    if n == |segs[0]| then segs[1..] else [segs[0][n..]] + segs[1..]
  }

  function Cut(segs: seq<seq<Byte>>, want: nat): (n: nat)
    requires segs != []
    ensures n <= |segs[0]| && n <= want
  {
    if want < |segs[0]| then want else |segs[0]|
  }

  /** The pieces a source is cut into: no piece reaches over a source segment. */
  function Pieces(segs: seq<seq<Byte>>, seglen: seq<nat>): (ps: seq<seq<Byte>>)
    ensures |ps| <= |seglen|
    decreases |seglen|
  {
    if segs == [] || seglen == [] then []
    else
      var n := Cut(segs, seglen[0]);
      [segs[0][..n]] + Pieces(Rest(segs, n), seglen[1..])
  }

  /** What is left of the source when the pieces are used up. */
  function Left(segs: seq<seq<Byte>>, seglen: seq<nat>): seq<seq<Byte>>
    decreases |seglen|
  {
    if segs == [] || seglen == [] then segs
    else Left(Rest(segs, Cut(segs, seglen[0])), seglen[1..])
  }

  /** Cutting loses and reorders nothing. */
  lemma {:induction false} PiecesKeepOctets(segs: seq<seq<Byte>>, seglen: seq<nat>)
    ensures Flatten(Pieces(segs, seglen)) + Flatten(Left(segs, seglen)) == Flatten(segs)
    decreases |seglen|
  {
    hide Rest, Flatten;
    if segs == [] || seglen == [] {
      NothingCut(segs);
    } else {
      var n := Cut(segs, seglen[0]);
      var rest := Rest(segs, n);
      PiecesKeepOctets(rest, seglen[1..]);
      RestKeepsOctets(segs, n);
      FlattenCons(segs[0][..n], Pieces(rest, seglen[1..]));
    }
  }

  lemma NothingCut(segs: seq<seq<Byte>>)
    ensures Flatten([]) + Flatten(segs) == Flatten(segs)
  {
  }

  lemma FlattenCons(a: seq<Byte>, segs: seq<seq<Byte>>)
    ensures Flatten([a] + segs) == a + Flatten(segs)
  {
  }

  lemma RestKeepsOctets(segs: seq<seq<Byte>>, n: nat)
    requires segs != [] && n <= |segs[0]|
    ensures segs[0][..n] + Flatten(Rest(segs, n)) == Flatten(segs)
  {
    if n == |segs[0]| {
      assert segs[0][..n] == segs[0];
    } else {
      FlattenCons(segs[0][n..], segs[1..]);
      Rejoin(segs[0], n, Flatten(segs[1..]));
    }
  }

  lemma Rejoin(s: seq<Byte>, n: nat, t: seq<Byte>)
    requires n <= |s|
    ensures s[..n] + (s[n..] + t) == s + t
  {
  }

  /** No piece is longer than asked for. */
  lemma {:induction false} PiecesFit(segs: seq<seq<Byte>>, seglen: seq<nat>)
    ensures forall j :: 0 <= j < |Pieces(segs, seglen)| ==> |Pieces(segs, seglen)[j]| <= seglen[j]
    decreases |seglen|
  {
    if segs != [] && seglen != [] {
      var rest := Rest(segs, Cut(segs, seglen[0]));
      PiecesFit(rest, seglen[1..]);
    }
  }

  /** Some segment of the source ends after n octets. */
  ghost predicate SegmentEnds(segs: seq<seq<Byte>>, n: int) {
    exists k :: 0 < k <= |segs| && |Flatten(segs[..k])| == n
  }

  /** Cutting is greedy: a piece has the length asked for or ends where a segment of the source
      ends, and no segment ends inside a piece. */
  lemma {:induction false} PiecesAreGreedy(segs: seq<seq<Byte>>, seglen: seq<nat>, j: nat)
    requires j < |Pieces(segs, seglen)|
    ensures var ps := Pieces(segs, seglen); var to := |Flatten(ps[..j + 1])|;
      && (|ps[j]| == seglen[j] || SegmentEnds(segs, to))
      && forall b :: to - |ps[j]| < b < to ==> !SegmentEnds(segs, b)
    decreases |seglen|
  {
    hide Flatten, SegmentEnds, Rest;
    var n := Cut(segs, seglen[0]);
    var rest, ps := Rest(segs, n), Pieces(segs, seglen);
    var ps' := Pieces(rest, seglen[1..]);
    assert ps[..j + 1] == [ps[0]] + ps'[..j];
    FlattenCons(ps[0], ps'[..j]);
    EmptyFlatten();
    if j == 0 {
      assert ps'[..0] == [];
      FirstSegmentEnds(segs);
    } else {
      PiecesAreGreedy(rest, seglen[1..], j - 1);
      var to' := |Flatten(ps'[..j])|;
      RestEnds(segs, n, to');
      forall b | n + to' - |ps[j]| < b < n + to' ensures !SegmentEnds(segs, b) {
        assert ps'[..j] == ps'[..j - 1] + [ps'[j - 1]];
        FlattenSnoc(ps'[..j - 1], ps'[j - 1]);
        RestEnds(segs, n, b - n);
      }
    }
  }

  /** Cutting stops early only when the source is used up. */
  lemma {:induction false} PiecesStopAtEnd(segs: seq<seq<Byte>>, seglen: seq<nat>)
    ensures |Pieces(segs, seglen)| == |seglen| || Left(segs, seglen) == []
    decreases |seglen|
  {
    if segs != [] && seglen != [] {
      PiecesStopAtEnd(Rest(segs, Cut(segs, seglen[0])), seglen[1..]);
    }
  }

  /** The first segment ends first. */
  lemma FirstSegmentEnds(segs: seq<seq<Byte>>)
    requires segs != []
    ensures SegmentEnds(segs, |segs[0]|) && forall b :: b < |segs[0]| ==> !SegmentEnds(segs, b)
  {
    hide Flatten;
    EmptyFlatten();
    forall k | 0 < k <= |segs|
      ensures |Flatten(segs[..k])| == |segs[0]| + |Flatten(segs[1..k])|
    {
      assert segs[..k] == [segs[0]] + segs[1..k];
      FlattenCons(segs[0], segs[1..k]);
    }
    assert segs[1..1] == [] && |Flatten(segs[..1])| == |segs[0]|;
  }

  /** Taking n octets off the first segment moves every end by n; only an end at n may go. */
  lemma RestEnds(segs: seq<seq<Byte>>, n: nat, b: int)
    requires segs != [] && n <= |segs[0]|
    ensures SegmentEnds(Rest(segs, n), b) ==> SegmentEnds(segs, n + b)
    ensures b > 0 && SegmentEnds(segs, n + b) ==> SegmentEnds(Rest(segs, n), b)
  {
    hide Flatten;
    var rest, skip := Rest(segs, n), if n == |segs[0]| then 1 else 0;
    forall k | 0 < k <= |segs|
      ensures |Flatten(segs[..k])| == n + |Flatten(rest[..k - skip])|
    {
      assert segs[..k] == [segs[0]] + segs[1..k];
      FlattenCons(segs[0], segs[1..k]);
      if skip == 1 {
        assert rest[..k - 1] == segs[1..k];
      } else {
        assert rest[..k] == [segs[0][n..]] + segs[1..k];
        FlattenCons(segs[0][n..], segs[1..k]);
      }
    }
    if k :| 0 < k <= |rest| && |Flatten(rest[..k])| == b {
      assert |Flatten(segs[..k + skip])| == n + b;
    }
    if k :| b > 0 && 0 < k <= |segs| && |Flatten(segs[..k])| == n + b {
      EmptyFlatten();
      assert rest[..0] == [];
      assert |Flatten(rest[..k - skip])| == b;
    }
  }

  lemma {:induction false} SumHead(lens: seq<nat>)
    requires lens != []
    ensures Sum(lens) == lens[0] + Sum(lens[1..])
  {
    if |lens| > 1 {
      SumHead(lens[..|lens| - 1]);
      assert lens[1..][..|lens[1..]| - 1] == lens[..|lens| - 1][1..];
    } else {
      assert lens[..0] == [] && lens[1..] == [];
    }
  }

  lemma {:induction false} PiecesTotal(segs: seq<seq<Byte>>, seglen: seq<nat>, k: nat)
    requires |Pieces(segs, seglen)| <= k <= |seglen|
    ensures |Flatten(Pieces(segs, seglen))| <= Sum(seglen[..k])
    decreases |seglen|
  {
    if segs != [] && seglen != [] {
      var n := Cut(segs, seglen[0]);
      var rest := Rest(segs, n);
      PiecesTotal(rest, seglen[1..], k - 1);
      FlattenCons(segs[0][..n], Pieces(rest, seglen[1..]));
      SumHead(seglen[..k]);
      assert seglen[..k][1..] == seglen[1..][..k - 1];
    }
  }

  /** A source of one segment is always used up if enough room is asked for. */
  lemma {:induction false} OneSegmentSuffices(s: seq<Byte>, seglen: seq<nat>)
    requires |s| <= Sum(seglen) && seglen != []
    ensures Left([s], seglen) == []
    decreases |seglen|
  {
    SumHead(seglen);
    var n := Cut([s], seglen[0]);
    if n < |s| {
      assert [s[n..]] + [s][1..] == [s[n..]];
      assert seglen[1..] != [] by {
        assert Sum([]) == 0;
      }
      OneSegmentSuffices(s[n..], seglen[1..]);
    }
  }

  /** A source with more segments than pieces asked for is never used up: no piece reaches over a
      source segment. */
  lemma {:induction false} MoreSegmentsNeverFit(segs: seq<seq<Byte>>, seglen: seq<nat>)
    requires |segs| > |seglen|
    ensures Left(segs, seglen) != []
    decreases |seglen|
  {
    if seglen != [] {
      MoreSegmentsNeverFit(Rest(segs, Cut(segs, seglen[0])), seglen[1..]);
    }
  }

  /** A used-up source whose octets need all the requested segments fills all of them. */
  lemma AllSegmentsUsed(segs: seq<seq<Byte>>, seglen: seq<nat>)
    requires seglen != [] && Left(segs, seglen) == [] && |Flatten(segs)| > Sum(seglen[..|seglen| - 1])
    ensures |Pieces(segs, seglen)| == |seglen|
  {
    PiecesKeepOctets(segs, seglen);
    assert Flatten([]) == [];
    if |Pieces(segs, seglen)| < |seglen| {
      PiecesTotal(segs, seglen, |seglen| - 1);
    }
  }

  // ---------------------------------------------------------------- copying

  datatype Outcome = Segments(n: nat) | NoBufs | Invalid

  /** `mbuf_copy_split`: fill the destinations md[0], md[1], ... from the source. It succeeds
      exactly when the source is used up and had the length its packet claims. */
  method MbufCopySplit(src: seq<seq<Byte>>, pktLen: nat, md: array<seq<Byte>>, seglen: seq<nat>)
    returns (rc: Outcome)
    requires md.Length == |seglen| && forall j :: 0 <= j < md.Length ==> md[j] == []
    modifies md
    ensures var ps := Pieces(src, seglen);
      && md[..|ps|] == ps && (forall j :: |ps| <= j < md.Length ==> md[j] == [])
    ensures rc == if Left(src, seglen) != [] then NoBufs
                  else if |Flatten(src)| != pktLen then Invalid else Segments(|seglen|)
  {
    hide Pieces, Left, Flatten, Rest, Progress, At, Cut;
    var ms: nat, i: nat := 0, 0;
    var dlen: nat, slen: nat, tlen: nat, pos: nat := 0, 0, 0, 0;
    ghost var rest := src;
    StartCutting(src, seglen, md[..]);
    while ms != |src| && i != |seglen|
      invariant i <= |seglen| && dlen == 0 && At(src, ms, slen, pos, rest)
      invariant ms <= |src|
      invariant Progress(src, seglen, md[..], i, rest) && tlen == |Flatten(md[..i])|
      decreases |seglen| - i
    {
      LoadSegment(src, ms, slen, pos, rest);
      if slen == 0 {
        slen, pos := |src[ms]|, 0;
      }
      if dlen == 0 {
        dlen := if seglen[i] < slen then seglen[i] else slen;
      }
      var len := if slen < dlen then slen else dlen;
      CutIs(rest, seglen[i], len);
      CutOne(src, seglen, md[..], i, rest, len);
      md[i] := md[i] + src[ms][pos..pos + len];
      AdvanceSource(src, ms, slen, pos, rest, len);
      rest := Rest(rest, len);
      tlen, slen, dlen, pos := tlen + len, slen - len, dlen - len, pos + len;
      if slen == 0 {
        ms := ms + 1;
      }
      if dlen == 0 {
        i := i + 1;
      }
    }
    EndOfSource(src, ms, slen, pos, rest);
    CuttingEnds(src, seglen, md[..], i, rest);
    if ms != |src| {
      rc := NoBufs;
    } else if tlen != pktLen {
      rc := Invalid;
    } else {
      rc := Segments(|seglen|);
    }
  }

  /** The first i destinations hold the first i pieces; the rest of the source gives the
      remaining ones. */
  ghost predicate Progress(src: seq<seq<Byte>>, seglen: seq<nat>, md: seq<seq<Byte>>, i: nat, rest: seq<seq<Byte>>) {
    && i <= |seglen| == |md|
    && Pieces(src, seglen) == md[..i] + Pieces(rest, seglen[i..])
    && Left(src, seglen) == Left(rest, seglen[i..])
    && (forall j :: i <= j < |md| ==> md[j] == [])
  }

  lemma StartCutting(src: seq<seq<Byte>>, seglen: seq<nat>, md: seq<seq<Byte>>)
    requires |md| == |seglen| && forall j :: 0 <= j < |md| ==> md[j] == []
    ensures Progress(src, seglen, md, 0, src) && At(src, 0, 0, 0, src) && Flatten(md[..0]) == []
  {
    assert seglen[0..] == seglen;
  }

  /** The cursor: slen octets of segment ms from pos on, then the later segments; with slen 0
      segment ms has not been started. */
  ghost predicate At(src: seq<seq<Byte>>, ms: nat, slen: nat, pos: nat, rest: seq<seq<Byte>>) {
    && ms <= |src|
    && (slen > 0 ==> ms < |src| && pos + slen == |src[ms]|)
    && rest == if slen == 0 then src[ms..] else [src[ms][pos..]] + src[ms + 1..]
  }

  lemma LoadSegment(src: seq<seq<Byte>>, ms: nat, slen: nat, pos: nat, rest: seq<seq<Byte>>)
    requires At(src, ms, slen, pos, rest) && ms < |src|
    ensures var slen', pos' := if slen == 0 then |src[ms]| else slen, if slen == 0 then 0 else pos;
      pos' + slen' == |src[ms]| && rest == [src[ms][pos'..]] + src[ms + 1..]
  {
  }

  lemma AdvanceSource(src: seq<seq<Byte>>, ms: nat, slen: nat, pos: nat, rest: seq<seq<Byte>>, n: nat)
    requires ms < |src| && pos + slen == |src[ms]| && n <= slen && rest == [src[ms][pos..]] + src[ms + 1..]
    ensures At(src, if n == slen then ms + 1 else ms, slen - n, pos + n, Rest(rest, n))
    ensures rest[0][..n] == src[ms][pos..pos + n]
  {
    assert rest[0][n..] == src[ms][pos + n..] && rest[1..] == src[ms + 1..];
  }

  lemma CutIs(rest: seq<seq<Byte>>, want: nat, n: nat)
    requires rest != [] && n == if want < |rest[0]| then want else |rest[0]|
    ensures n == Cut(rest, want)
  {
  }

  lemma CutOne(src: seq<seq<Byte>>, seglen: seq<nat>, md: seq<seq<Byte>>, i: nat, rest: seq<seq<Byte>>, n: nat)
    requires Progress(src, seglen, md, i, rest) && i < |seglen| && rest != [] && n == Cut(rest, seglen[i])
    ensures var md' := md[i := md[i] + rest[0][..n]];
      && Progress(src, seglen, md', i + 1, Rest(rest, n))
      && |Flatten(md'[..i + 1])| == |Flatten(md[..i])| + n
  {
    hide Flatten, Rest;
    var md' := md[i := md[i] + rest[0][..n]];
    assert seglen[i..][0] == seglen[i] && seglen[i..][1..] == seglen[i + 1..];
    assert md[i] == [] && [] + rest[0][..n] == rest[0][..n];
    assert md'[..i + 1] == md[..i] + [rest[0][..n]];
    FlattenSnoc(md[..i], rest[0][..n]);
  }

  lemma {:induction false} FlattenSnoc(segs: seq<seq<Byte>>, a: seq<Byte>)
    ensures |Flatten(segs + [a])| == |Flatten(segs)| + |a|
  {
    if segs == [] {
      assert [] + [a] == [a] + [];
    } else {
      assert (segs + [a])[1..] == segs[1..] + [a];
      FlattenSnoc(segs[1..], a);
    }
  }

  lemma CuttingEnds(src: seq<seq<Byte>>, seglen: seq<nat>, md: seq<seq<Byte>>, i: nat, rest: seq<seq<Byte>>)
    requires Progress(src, seglen, md, i, rest) && (rest == [] || i == |seglen|)
    ensures Pieces(src, seglen) == md[..i] && Left(src, seglen) == rest
    ensures forall j :: i <= j < |md| ==> md[j] == []
    ensures rest == [] ==> |Flatten(md[..i])| == |Flatten(src)|
  {
    hide Flatten;
    PiecesKeepOctets(src, seglen);
    EmptyFlatten();
  }

  lemma EndOfSource(src: seq<seq<Byte>>, ms: nat, slen: nat, pos: nat, rest: seq<seq<Byte>>)
    requires At(src, ms, slen, pos, rest)
    ensures rest == [] <==> ms == |src|
  {
  }

  lemma EmptyFlatten()
    ensures Flatten([]) == []
  {
  }

  // ---------------------------------------------------------------- allocating

  /** The last length stretched by d, which the code keeps in 32 bits with a sign; the length
      itself is 16 bits wide. */
  function Stretched(last: nat, d: int): nat {
    if 0 <= d < 0x8000_0000 then (last + d) % UINT16 else last
  }

  /** The lengths really asked for: the shortest prefix of the configured lengths that covers
      the packet, or all of them with the last one stretched. */
  ghost predicate Planned(lens: seq<nat>, pktLen: nat, seglen: seq<nat>) {
    var k := |seglen|;
    && 0 < k <= |lens|
    && seglen[..k - 1] == lens[..k - 1] && Sum(lens[..k - 1]) < pktLen
    && (pktLen <= Sum(lens[..k]) || k == |lens|)
    && seglen[k - 1] == Stretched(lens[k - 1], pktLen - Sum(lens[..k]))
  }

  ghost predicate Configured(lens: seq<nat>) {
    0 < |lens| <= MAX_SEGS && forall j :: 0 <= j < |lens| ==> lens[j] < UINT16
  }

  /** How many of the configured lengths are used, and their sum, in 32 bits. */
  method CountSegments(lens: seq<nat>, pktLen: nat) returns (i: nat, len: nat)
    requires Configured(lens) && 0 < pktLen < UINT32
    ensures 0 < i <= |lens| && len == Sum(lens[..i]) <= 65535 * MAX_SEGS
    ensures Sum(lens[..i - 1]) < pktLen && (pktLen <= len || i == |lens|)
  {
    hide Sum;
    len, i := 0, 0;
    EmptySum(lens);
    while i != |lens| && len < pktLen
      invariant i <= |lens| && len == Sum(lens[..i]) <= 65535 * i
      invariant i > 0 ==> Sum(lens[..i - 1]) < pktLen
      invariant i == 0 ==> len == 0
      decreases |lens| - i
    {
      assert lens[..i + 1][..i] == lens[..i];
      SumSnoc(lens[..i + 1]);
      len := (len + lens[i]) % UINT32;
      i := i + 1;
    }
  }

  lemma EmptySum(lens: seq<nat>)
    ensures Sum(lens[..0]) == 0
  {
  }

  /** The length computation of `pkt_copy_split`. */
  method PlanSegments(lens: seq<nat>, pktLen: nat) returns (seglen: seq<nat>)
    requires Configured(lens) && 0 < pktLen < UINT32
    ensures Planned(lens, pktLen, seglen)
  {
    hide Sum;
    var i, len := CountSegments(lens, pktLen);
    var n := (pktLen - len) % UINT32;
    seglen := lens[..i];
    if n < 0x8000_0000 {
      assert n == pktLen - len;
      seglen := seglen[i - 1 := (seglen[i - 1] + n) % UINT16];
    }
    assert seglen[..i - 1] == lens[..i - 1];
  }

  lemma {:induction false} SumOfPrefix(lens: seq<nat>, k: nat)
    requires k <= |lens|
    ensures Sum(lens[..k]) <= Sum(lens)
  {
    if k < |lens| {
      var n := |lens| - 1;
      assert lens[..n][..k] == lens[..k];
      SumOfPrefix(lens[..n], k);
    } else {
      assert lens[..k] == lens;
    }
  }

  /** The lengths asked for cover the packet exactly when the stretched one fits its 16 bits. */
  lemma PlanCoversExactly(lens: seq<nat>, pktLen: nat, seglen: seq<nat>)
    requires Configured(lens) && Planned(lens, pktLen, seglen)
    ensures pktLen <= Sum(seglen) <==> pktLen < Sum(lens[..|lens| - 1]) + UINT16
  {
    hide Sum;
    var k, n := |seglen|, |lens| - 1;
    SumSnoc(seglen);
    SumSnoc(lens[..k]);
    SumSnoc(lens);
    assert lens[..k][..k - 1] == lens[..k - 1];
    if k <= n {
      assert lens[..n][..k] == lens[..k];
      SumOfPrefix(lens[..n], k);
    } else {
      assert lens[..k] == lens;
    }
  }

  lemma SumSnoc(lens: seq<nat>)
    requires lens != []
    ensures Sum(lens) == Sum(lens[..|lens| - 1]) + lens[|lens| - 1]
  {
  }

  /** The buffers held are those held before and the listed ones, which show data. */
  ghost predicate Held(before: map<Mbuf, seq<Byte>>, live: map<Mbuf, seq<Byte>>, ms: seq<Mbuf>, data: seq<seq<Byte>>) {
    && OnlyHeld(before, live, ms)
    && |data| == |ms| && forall j :: 0 <= j < |ms| ==> ms[j] in live && live[ms[j]] == data[j]
  }

  function Empties(n: nat): seq<seq<Byte>> { seq(n, _ => []) }

  /** No allocation fails, and every buffer but the first has the room its length asks for:
      the loop leaves with the first buffer just as after an uneventful turn. */
  ghost predicate Available(seglen: seq<nat>, room: nat, allocFails: set<nat>) {
    && (forall j :: 0 <= j < |seglen| ==> j !in allocFails)
    && forall j :: 1 <= j < |seglen| ==> seglen[j] <= room
  }

  /** `pkt_copy_split`. A copy is returned exactly when the buffers are available and the
      cutting succeeds; then its segments hold the source's octets in order, none longer than
      asked for. Every buffer allocated is in the returned chain or freed. */
  method PktCopySplit(pool: Pool<seq<Byte>>, pkt: seq<seq<Byte>>, pktLen: nat, lens: seq<nat>, room: nat,
                      allocFails: set<nat>)
    returns (chain: Option<seq<Mbuf>>, ghost seglen: seq<nat>)
    requires pool.Valid()
    requires Configured(lens) && 0 < pktLen < UINT32
    modifies pool
    ensures pool.Valid() && Planned(lens, pktLen, seglen)
    ensures chain.Some? <==>
      Available(seglen, room, allocFails) && Left(pkt, seglen) == [] && |Flatten(pkt)| == pktLen
    ensures chain.Some? ==>
      && |chain.value| == |seglen| && Held(old(pool.live), pool.live, chain.value, Pieces(pkt, seglen))
      && Flatten(Pieces(pkt, seglen)) == Flatten(pkt)
      && forall j :: 0 <= j < |seglen| ==> |Pieces(pkt, seglen)[j]| <= seglen[j]
    ensures chain == None ==> pool.live == old(pool.live)
  {
    hide Pieces, Left, Flatten, Sum, Held, Planned, Available;
    var plan := PlanSegments(lens, pktLen);
    seglen := plan;
    PlanNonEmpty(lens, pktLen, plan);
    var i, ms := Allocate(pool, plan, room, allocFails);
    chain := None;
    var unused := ms;
    ghost var data := Empties(|ms|);
    if i == 0 {
      var md := new seq<Byte>[|plan|](_ => []);
      var rc := MbufCopySplit(pkt, pktLen, md, plan);
      assert |Pieces(pkt, plan)| == |plan| ==> md[..] == Pieces(pkt, plan);
      StoreAll(pool, ms, md[..], old(pool.live));
      data := md[..];
      if rc.Segments? {
        CopyIsComplete(pkt, pktLen, lens, plan);
        chain, unused := Some(ms), [];
      }
    }
    if chain == None {
      HeldIsOnlyHeld(old(pool.live), pool.live, unused, data);
      ghost var live := pool.live;
      pool.FreeAll(unused);
      AllGone(old(pool.live), live, live, pool.live, unused, 0);
    }
  }

  lemma HeldIsOnlyHeld(before: map<Mbuf, seq<Byte>>, live: map<Mbuf, seq<Byte>>, ms: seq<Mbuf>, data: seq<seq<Byte>>)
    requires Held(before, live, ms, data)
    ensures OnlyHeld(before, live, ms) && Distinct(ms) && forall i :: 0 <= i < |ms| ==> ms[i] in live
  {
  }

  /** No packet is copied into fewer octets than it has. */
  lemma CopyNeedsRoom(pkt: seq<seq<Byte>>, seglen: seq<nat>)
    requires Left(pkt, seglen) == []
    ensures |Flatten(pkt)| <= Sum(seglen)
  {
    hide Pieces, Left, Flatten, Sum;
    PiecesKeepOctets(pkt, seglen);
    EmptyFlatten();
    PiecesTotal(pkt, seglen, |seglen|);
    assert seglen[..|seglen|] == seglen;
  }

  /** A packet in one segment is copied, if the buffers can be had, exactly when the stretched
      length fits its 16 bits. */
  lemma SingleSegmentSucceedsExactly(s: seq<Byte>, lens: seq<nat>, seglen: seq<nat>)
    requires Configured(lens) && Planned(lens, |s|, seglen)
    ensures |Flatten([s])| == |s|
    ensures Left([s], seglen) == [] <==> |s| < Sum(lens[..|lens| - 1]) + UINT16
  {
    hide Left, Sum;
    FlattenCons(s, []);
    assert [s] + [] == [s];
    PlanCoversExactly(lens, |s|, seglen);
    if |s| <= Sum(seglen) {
      OneSegmentSuffices(s, seglen);
    } else if Left([s], seglen) == [] {
      CopyNeedsRoom([s], seglen);
    }
  }

  /** A packet of 65536 octets does not fit one segment of one octet stretched: the stretched length
      is cut to 0. */
  lemma StretchIsCut(s: seq<Byte>)
    requires |s| == 65536
    ensures Planned([1], 65536, [0]) && Left([s], [0]) != []
  {
    assert [1][..0] == [] && Sum([]) == 0 && Sum([1]) == 1 && [1][..1] == [1];
    SingleSegmentSucceedsExactly(s, [1], [0]);
  }

  lemma PlanNonEmpty(lens: seq<nat>, pktLen: nat, seglen: seq<nat>)
    requires Planned(lens, pktLen, seglen)
    ensures seglen != []
  {
  }

  lemma CopyIsComplete(pkt: seq<seq<Byte>>, pktLen: nat, lens: seq<nat>, seglen: seq<nat>)
    requires Planned(lens, pktLen, seglen) && Left(pkt, seglen) == [] && |Flatten(pkt)| == pktLen
    ensures |Pieces(pkt, seglen)| == |seglen| && Flatten(Pieces(pkt, seglen)) == Flatten(pkt)
    ensures forall j :: 0 <= j < |seglen| ==> |Pieces(pkt, seglen)[j]| <= seglen[j]
  {
    hide Pieces, Left, Sum, Flatten;
    AllSegmentsUsed(pkt, seglen);
    PiecesKeepOctets(pkt, seglen);
    EmptyFlatten();
    PiecesFit(pkt, seglen);
  }

  // ---------------------------------------------------------------- room

  /** When the buffers are available, all have the room asked for exactly when the first has,
      and the octets put into each stay inside it exactly when those of the first do. */
  lemma RoomExactly(pkt: seq<seq<Byte>>, seglen: seq<nat>, room: nat, allocFails: set<nat>)
    requires pkt != [] && seglen != [] && Available(seglen, room, allocFails)
    ensures (forall j :: 0 <= j < |seglen| ==> seglen[j] <= room) <==> seglen[0] <= room
    ensures (forall j :: 0 <= j < |Pieces(pkt, seglen)| ==> |Pieces(pkt, seglen)[j]| <= room) <==>
      seglen[0] <= room || |pkt[0]| <= room
  {
    PiecesFit(pkt, seglen);
    assert |Pieces(pkt, seglen)[0]| == Cut(pkt, seglen[0]);
  }

  /** Three octets asked for in one segment with room for two: a copy is returned, and its
      segment has been written past its end. */
  lemma FirstSegmentOverruns(s: seq<Byte>)
    requires |s| == 3
    ensures Planned([3], 3, [3]) && Available([3], 2, {})
    ensures Left([s], [3]) == [] && |Flatten([s])| == 3
    ensures |Pieces([s], [3])| == 1 && |Pieces([s], [3])[0]| > 2
  {
    assert Sum([]) == 0 && Sum([3]) == 3 && [3][..0] == [] && [3][..1] == [3];
    SingleSegmentSucceedsExactly(s, [3], [3]);
    assert Pieces([s], [3])[0] == s[..3];
  }

  // ---------------------------------------------------------------- the loops over buffers

  /** The allocation loop, from the last segment down. It stops at the first failure, but a
      first buffer without room is not told apart from success. */
  method Allocate(pool: Pool<seq<Byte>>, seglen: seq<nat>, room: nat, allocFails: set<nat>)
    returns (i: nat, ms: seq<Mbuf>)
    requires pool.Valid() && seglen != []
    modifies pool
    ensures pool.Valid() && Held(old(pool.live), pool.live, ms, Empties(|ms|))
    ensures i == 0 <==> Available(seglen, room, allocFails)
    ensures i == 0 <==> forall j :: 0 <= j < |seglen| ==> j !in allocFails && (j == 0 || seglen[j] <= room)
    ensures i == 0 ==> |ms| == |seglen|
  {
    hide Held;
    i, ms := |seglen|, [];
    NothingHeld(pool.live);
    while i != 0
      invariant pool.Valid() && i <= |seglen| && |ms| == |seglen| - i
      invariant Held(old(pool.live), pool.live, ms, Empties(|ms|))
      invariant forall j :: i <= j < |seglen| ==> j !in allocFails && (j > 0 ==> seglen[j] <= room)
      decreases i
    {
      ghost var live := pool.live;
      var p := pool.Alloc([], i - 1 in allocFails);
      if p == None {
        return;
      }
      HoldOneMore(old(pool.live), live, ms, p.value);
      i, ms := i - 1, [p.value] + ms;
      if room < seglen[i] {
        return;
      }
    }
  }

  lemma NothingHeld(live: map<Mbuf, seq<Byte>>)
    ensures Held(live, live, [], Empties(0))
  {
  }

  lemma HoldOneMore(before: map<Mbuf, seq<Byte>>, live: map<Mbuf, seq<Byte>>, ms: seq<Mbuf>, m: Mbuf)
    requires Held(before, live, ms, Empties(|ms|)) && m !in live
    ensures Held(before, live[m := []], [m] + ms, Empties(|ms| + 1))
  {
    var ms' := [m] + ms;
    forall j | 0 <= j < |ms'| ensures ms'[j] in live[m := []] && live[m := []][ms'[j]] == [] {
      if j > 0 {
        assert ms'[j] == ms[j - 1] && live[ms[j - 1]] == Empties(|ms|)[j - 1];
      }
    }
    forall i, j | 0 <= i < j < |ms'| ensures ms'[i] != ms'[j] {
      assert ms'[j] == ms[j - 1] && (i > 0 ==> ms'[i] == ms[i - 1]);
      assert ms[j - 1] in live;
    }
  }

  /** Every buffer gets its piece. */
  method StoreAll(pool: Pool<seq<Byte>>, ms: seq<Mbuf>, data: seq<seq<Byte>>, ghost before: map<Mbuf, seq<Byte>>)
    requires pool.Valid() && |data| == |ms| && Held(before, pool.live, ms, Empties(|ms|))
    modifies pool
    ensures pool.Valid() && Held(before, pool.live, ms, data)
  {
    hide Held;
    assert data[..0] + Empties(|ms|)[0..] == Empties(|ms|);
    for j := 0 to |ms|
      invariant pool.Valid() && Held(before, pool.live, ms, data[..j] + Empties(|ms|)[j..])
    {
      StoreOne(before, pool.live, ms, data[..j] + Empties(|ms|)[j..], j, data[j]);
      pool.Write(ms[j], data[j]);
      assert (data[..j] + Empties(|ms|)[j..])[j := data[j]] == data[..j + 1] + Empties(|ms|)[j + 1..];
    }
    assert data[..|ms|] + Empties(|ms|)[|ms|..] == data;
  }

  lemma StoreOne(before: map<Mbuf, seq<Byte>>, live: map<Mbuf, seq<Byte>>, ms: seq<Mbuf>, data: seq<seq<Byte>>,
                 j: nat, d: seq<Byte>)
    requires Held(before, live, ms, data) && j < |ms|
    ensures ms[j] in live && Held(before, live[ms[j] := d], ms, data[j := d])
  {
  }
}
