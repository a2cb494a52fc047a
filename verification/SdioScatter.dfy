// Block transfers of a chain of packets (brcmf_sdiod_sglist_rw in bcmsdh.c): the packets
// are cut into segments, the segments are grouped into requests under three limits, and on
// hosts with broken scatter-gather support data is read into whole pages and copied back.

module SdioSegments {
  import opened Bytes

  // A piece of a packet.
  datatype Seg = Seg(pkt: nat, off: nat, len: nat)

  function Sum(lens: seq<nat>): nat {
    if lens == [] then 0 else Sum(lens[..|lens| - 1]) + lens[|lens| - 1]
  }

  // Where packet `p` starts when the packets are laid end to end.
  function Base(lens: seq<nat>, p: nat): nat
    requires p <= |lens|
  {
    Sum(lens[..p])
  }

  lemma BaseStep(lens: seq<nat>, p: nat)
    requires p < |lens|
    ensures Base(lens, p + 1) == Base(lens, p) + lens[p]
  {
    assert lens[..p + 1][..p] == lens[..p];
  }

  lemma {:induction false} BaseMonotone(lens: seq<nat>, p: nat, q: nat)
    requires p <= q <= |lens|
    ensures Base(lens, p) <= Base(lens, q)
    decreases q - p
  {
    if p < q {
      BaseStep(lens, q - 1);
      BaseMonotone(lens, p, q - 1);
    }
  }

  predicate Within(lens: seq<nat>, s: Seg) {
    s.pkt < |lens| && s.len > 0 && s.off + s.len <= lens[s.pkt]
  }

  // The segments are non-empty pieces of packets that cover the first `pos` bytes of the
  // chain, each once and in order.
  predicate Tiles(lens: seq<nat>, segs: seq<Seg>, pos: nat)
    decreases |segs|
  {
    if segs == [] then pos == 0
    else
      var s := segs[|segs| - 1];
      && Within(lens, s)
      && pos == Base(lens, s.pkt) + s.off + s.len
      && Tiles(lens, segs[..|segs| - 1], Base(lens, s.pkt) + s.off)
  }

  function SegSum(segs: seq<Seg>): nat {
    if segs == [] then 0 else SegSum(segs[..|segs| - 1]) + segs[|segs| - 1].len
  }

  lemma SegSumAppend(segs: seq<Seg>, s: Seg)
    ensures SegSum(segs + [s]) == SegSum(segs) + s.len
  {
    assert (segs + [s])[..|segs|] == segs;
  }

  lemma TilesAppend(lens: seq<nat>, segs: seq<Seg>, pos: nat, s: Seg)
    requires Tiles(lens, segs, pos) && Within(lens, s) && pos == Base(lens, s.pkt) + s.off
    ensures Tiles(lens, segs + [s], pos + s.len)
  {
    assert (segs + [s])[..|segs|] == segs;
  }

  // ---- what the segments carry ----

  function Lens(pkts: seq<seq<byte>>): (lens: seq<nat>)
    ensures |lens| == |pkts| && forall i :: 0 <= i < |pkts| ==> lens[i] == |pkts[i]|
  {
    seq(|pkts|, i requires 0 <= i < |pkts| => |pkts[i]|)
  }

  lemma {:induction false} CatLength(pkts: seq<seq<byte>>)
    ensures |Cat(pkts)| == Sum(Lens(pkts))
  {
    if pkts != [] {
      CatLength(pkts[..|pkts| - 1]);
      assert Lens(pkts)[..|pkts| - 1] == Lens(pkts[..|pkts| - 1]);
    }
  }

  // A packet lies at its base in the chain.
  lemma BaseOfCat(pkts: seq<seq<byte>>, p: nat)
    requires p <= |pkts|
    ensures Base(Lens(pkts), p) == |Cat(pkts[..p])|
  {
    CatLength(pkts[..p]);
    assert Lens(pkts)[..p] == Lens(pkts[..p]);
  }

  // A packet lies at its base in the chain.
  lemma PacketAt(pkts: seq<seq<byte>>, p: nat)
    requires p < |pkts|
    ensures Base(Lens(pkts), p) + |pkts[p]| <= |Cat(pkts)|
    ensures Cat(pkts)[Base(Lens(pkts), p)..Base(Lens(pkts), p) + |pkts[p]|] == pkts[p]
  {
    hide Base, Cat;
    BaseOfCat(pkts, p);
    PieceAt(pkts, p);
  }

  predicate AllWithin(lens: seq<nat>, segs: seq<Seg>) {
    forall i :: 0 <= i < |segs| ==> Within(lens, segs[i])
  }

  // What is sent: the bytes of the segments, one after the other.
  function Gathered(pkts: seq<seq<byte>>, segs: seq<Seg>): seq<byte>
    requires AllWithin(Lens(pkts), segs)
    decreases |segs|
  {
    if segs == [] then []
    else
      var s := segs[|segs| - 1];
      assert Within(Lens(pkts), s);
      Gathered(pkts, segs[..|segs| - 1]) + pkts[s.pkt][s.off..s.off + s.len]
  }

  lemma {:induction false} TilesWithin(lens: seq<nat>, segs: seq<Seg>, pos: nat)
    requires Tiles(lens, segs, pos)
    ensures AllWithin(lens, segs)
    decreases |segs|
  {
    if segs != [] {
      var n := |segs| - 1;
      var s := segs[n];
      TilesWithin(lens, segs[..n], Base(lens, s.pkt) + s.off);
      forall i | 0 <= i < |segs|
        ensures Within(lens, segs[i])
      {
        assert i < n ==> segs[i] == segs[..n][i];
      }
    }
  }

  lemma NothingGathered(pkts: seq<seq<byte>>)
    ensures AllWithin(Lens(pkts), []) && Gathered(pkts, []) == []
  {
  }

  lemma GatheredStep(pkts: seq<seq<byte>>, segs: seq<Seg>)
    requires segs != [] && AllWithin(Lens(pkts), segs)
    ensures var s, init := segs[|segs| - 1], segs[..|segs| - 1];
            && Within(Lens(pkts), s) && AllWithin(Lens(pkts), init)
            && Gathered(pkts, segs) == Gathered(pkts, init) + pkts[s.pkt][s.off..s.off + s.len]
  {
    hide Within;
    assert Within(Lens(pkts), segs[|segs| - 1]);
  }

  lemma NoTiles(lens: seq<nat>, pos: nat)
    requires Tiles(lens, [], pos)
    ensures pos == 0
  {
  }

  lemma SegmentAt(pkts: seq<seq<byte>>, s: Seg)
    requires Within(Lens(pkts), s)
    ensures s.pkt < |pkts| && s.off + s.len <= |pkts[s.pkt]|
    ensures var start := Base(Lens(pkts), s.pkt) + s.off;
            start + s.len <= |Cat(pkts)| && Cat(pkts)[start..start + s.len] == pkts[s.pkt][s.off..s.off + s.len]
  {
    hide Cat, Base;
    PacketAt(pkts, s.pkt);
    SliceOf(Cat(pkts), Base(Lens(pkts), s.pkt), pkts[s.pkt], s.off, s.off + s.len);
  }

  // Segments that tile the chain send exactly the packets' bytes, in order.
  lemma {:induction false} TilesSend(pkts: seq<seq<byte>>, segs: seq<Seg>, pos: nat)
    requires Tiles(Lens(pkts), segs, pos)
    ensures AllWithin(Lens(pkts), segs)
    ensures pos <= |Cat(pkts)| && Gathered(pkts, segs) == Cat(pkts)[..pos]
    decreases |segs|
  {
    hide Tiles, AllWithin, Cat, Base, Within, Gathered, Lens;
    TilesWithin(Lens(pkts), segs, pos);
    if segs == [] {
      NoTiles(Lens(pkts), pos);
      NothingGathered(pkts);
    } else {
      LastTile(Lens(pkts), segs, pos);
      var s := segs[|segs| - 1];
      TilesSend(pkts, segs[..|segs| - 1], pos - s.len);
      SegmentAt(pkts, s);
      GatheredStep(pkts, segs);
      assert Cat(pkts)[..pos] == Cat(pkts)[..pos - s.len] + Cat(pkts)[pos - s.len..pos];
    }
  }

  function WrittenInto(pkts: seq<seq<byte>>, s: Seg, data: seq<byte>): (pkts': seq<seq<byte>>)
    requires Within(Lens(pkts), s) && |data| == s.len
    ensures Lens(pkts') == Lens(pkts)
  {
    pkts[s.pkt := pkts[s.pkt][..s.off] + data + pkts[s.pkt][s.off + s.len..]]
  }

  // What is received: each segment takes the next bytes of the stream.
  function Delivered(pkts: seq<seq<byte>>, segs: seq<Seg>, stream: seq<byte>): (pkts': seq<seq<byte>>)
    requires AllWithin(Lens(pkts), segs)
    requires |stream| == SegSum(segs)
    ensures Lens(pkts') == Lens(pkts)
    decreases |segs|
  {
    if segs == [] then pkts
    else
      var s := segs[|segs| - 1];
      var at := |stream| - s.len;
      WrittenInto(Delivered(pkts, segs[..|segs| - 1], stream[..at]), s, stream[at..])
  }

  lemma {:induction false} TilesSum(lens: seq<nat>, segs: seq<Seg>, pos: nat)
    requires Tiles(lens, segs, pos)
    ensures SegSum(segs) == pos
    decreases |segs|
  {
    if segs != [] {
      var s := segs[|segs| - 1];
      TilesSum(lens, segs[..|segs| - 1], Base(lens, s.pkt) + s.off);
    }
  }

  lemma SpliceMid(a: seq<byte>, x: seq<byte>, b: seq<byte>, off: nat, data: seq<byte>)
    requires off + |data| <= |x|
    ensures var all := a + x + b;
            a + (x[..off] + data + x[off + |data|..]) + b
              == all[..|a| + off] + data + all[|a| + off + |data|..]
  {
  }

  // Writing into one packet writes at its place in the chain and nowhere else.
  lemma CatSplice(pkts: seq<seq<byte>>, p: nat, off: nat, data: seq<byte>)
    requires p < |pkts| && off + |data| <= |pkts[p]|
    ensures var w := pkts[p][..off] + data + pkts[p][off + |data|..];
            var b := Base(Lens(pkts), p) + off;
            && b + |data| <= |Cat(pkts)|
            && Cat(pkts[p := w]) == Cat(pkts)[..b] + data + Cat(pkts)[b + |data|..]
  {
    hide Base, Cat, Lens;
    var w := pkts[p][..off] + data + pkts[p][off + |data|..];
    CatAround(pkts, p, w);
    CatAround(pkts, p, pkts[p]);
    assert pkts[p := pkts[p]] == pkts;
    BaseOfCat(pkts, p);
    SpliceMid(Cat(pkts[..p]), pkts[p], Cat(pkts[p + 1..]), off, data);
  }

  lemma LastTile(lens: seq<nat>, segs: seq<Seg>, pos: nat)
    requires Tiles(lens, segs, pos) && segs != []
    ensures var s, init := segs[|segs| - 1], segs[..|segs| - 1];
            && Within(lens, s) && s.len <= pos && pos == Base(lens, s.pkt) + s.off + s.len
            && Tiles(lens, init, pos - s.len) && AllWithin(lens, init) && SegSum(init) == pos - s.len
  {
    var s, init := segs[|segs| - 1], segs[..|segs| - 1];
    TilesWithin(lens, init, pos - s.len);
    TilesSum(lens, init, pos - s.len);
  }

  // Segments that tile the chain fill it with exactly the stream.
  lemma {:induction false} TilesReceive(pkts: seq<seq<byte>>, segs: seq<Seg>, stream: seq<byte>)
    requires Tiles(Lens(pkts), segs, |stream|)
    ensures AllWithin(Lens(pkts), segs) && SegSum(segs) == |stream|
    ensures stream <= Cat(Delivered(pkts, segs, stream))
    decreases |segs|
  {
    hide Tiles, Within, AllWithin, SegSum, Lens, Cat, WrittenInto, Base;
    TilesWithin(Lens(pkts), segs, |stream|);
    TilesSum(Lens(pkts), segs, |stream|);
    if segs != [] {
      LastTile(Lens(pkts), segs, |stream|);
      var s, init := segs[|segs| - 1], segs[..|segs| - 1];
      var before := stream[..|stream| - s.len];
      TilesReceive(pkts, init, before);
      ReceiveLast(Delivered(pkts, init, before), s, stream);
    } else {
      NoTiles(Lens(pkts), |stream|);
    }
  }

  lemma ReceiveLast(mid: seq<seq<byte>>, s: Seg, stream: seq<byte>)
    requires Within(Lens(mid), s) && |stream| == Base(Lens(mid), s.pkt) + s.off + s.len
    requires stream[..|stream| - s.len] <= Cat(mid)
    ensures stream <= Cat(WrittenInto(mid, s, stream[|stream| - s.len..]))
  {
    var at := |stream| - s.len;
    CatSplice(mid, s.pkt, s.off, stream[at..]);
    assert Cat(mid)[..at] == stream[..at];
    assert stream == stream[..at] + stream[at..];
  }
}

module SdioScatter {
  import opened Arithmetic
  import opened Wrappers
  import opened Bytes
  import opened SdioSegments

  datatype Error = NoPackets | NoMemory | Io

  // One command to the host controller.
  datatype Request = Request(addr: nat, segs: seq<Seg>, blocks: nat)

  datatype Limits = Limits(maxRequest: nat, maxSegments: nat, maxSegment: nat, sgEntries: nat, blockSize: nat)

  predicate Usable(l: Limits) {
    l.maxRequest > 0 && l.maxSegments > 0 && l.maxSegment > 0 && l.blockSize > 0
  }

  function AllSegs(reqs: seq<Request>): seq<Seg> {
    if reqs == [] then [] else AllSegs(reqs[..|reqs| - 1]) + reqs[|reqs| - 1].segs
  }

  // Whole blocks.
  function Blocks(n: nat, blockSize: nat): nat
    requires blockSize > 0
  {
    n / blockSize
  }

  // The limits every request respects; the block count covers its bytes but for a part of
  // a block.
  predicate Bounded(l: Limits, n: nat, r: Request)
    requires Usable(l)
  {
    && 1 <= |r.segs| <= l.maxSegments && |r.segs| <= n
    && 1 <= SegSum(r.segs) <= l.maxRequest
    && (forall i :: 0 <= i < |r.segs| ==> 1 <= r.segs[i].len <= l.maxSegment)
    && r.blocks == Blocks(SegSum(r.segs), l.blockSize)
  }

  // Each request of function 1 starts where the one before it ended; other functions
  // always use the same address.
  predicate Addressed(reqs: seq<Request>, addr: nat, function1: bool, next: nat)
    decreases |reqs|
  {
    if reqs == [] then next == addr
    else
      var r := reqs[|reqs| - 1];
      && next == (if function1 then r.addr + SegSum(r.segs) else r.addr)
      && Addressed(reqs[..|reqs| - 1], addr, function1, r.addr)
  }

  ghost predicate Multiple(x: int, unit: nat) {
    exists k: int :: x == k * unit
  }

  lemma MultipleDiff(x: int, y: int, unit: nat)
    requires Multiple(x, unit) && Multiple(y, unit)
    ensures Multiple(x - y, unit) && Multiple(x + y, unit)
  {
    var a: int :| x == a * unit;
    var b: int :| y == b * unit;
    assert x - y == (a - b) * unit;
    assert x + y == (a + b) * unit;
  }

  lemma MultipleZero(unit: nat)
    ensures Multiple(0, unit)
  {
    assert 0 == 0 * unit;
  }

  lemma MultipleDiv(x: nat, unit: nat)
    requires unit > 0 && Multiple(x, unit)
    ensures x / unit * unit == x
  {
    var a: int :| x == a * unit;
    DivModUnique(x, unit, a, 0);
  }

  // Packets padded and limits chosen in whole blocks, as callers see to.
  ghost predicate BlockAligned(l: Limits, lens: seq<nat>) {
    && Multiple(l.maxRequest, l.blockSize) && Multiple(l.maxSegment, l.blockSize)
    && forall p :: 0 <= p < |lens| ==> Multiple(lens[p], l.blockSize)
  }

  // How the split stands: `reqs` are submitted, `cur` is being collected.
  ghost predicate Splitting(l: Limits, lens: seq<nat>, n: nat, reqs: seq<Request>, cur: seq<Seg>, pos: nat)
    requires Usable(l)
  {
    && Tiles(lens, AllSegs(reqs) + cur, pos)
    && (forall i :: 0 <= i < |reqs| ==> Bounded(l, n, reqs[i]))
    && |cur| < l.maxSegments && |cur| < n && SegSum(cur) < l.maxRequest
    && (forall i :: 0 <= i < |cur| ==> 1 <= cur[i].len <= l.maxSegment)
    && (BlockAligned(l, lens) ==>
          && Multiple(SegSum(cur), l.blockSize)
          && forall i :: 0 <= i < |reqs| ==> Multiple(SegSum(reqs[i].segs), l.blockSize))
  }

  lemma AllSegsAppend(reqs: seq<Request>, r: Request)
    ensures AllSegs(reqs + [r]) == AllSegs(reqs) + r.segs
  {
    assert (reqs + [r])[..|reqs|] == reqs;
  }

  // Submitting the collected segments.
  lemma Submitted(l: Limits, lens: seq<nat>, n: nat, reqs: seq<Request>, cur: seq<Seg>, pos: nat, r: Request)
    requires Usable(l) && n > 0 && Bounded(l, n, r) && r.segs == cur && Tiles(lens, AllSegs(reqs) + cur, pos)
    requires forall i :: 0 <= i < |reqs| ==> Bounded(l, n, reqs[i])
    requires BlockAligned(l, lens) ==>
               && Multiple(SegSum(cur), l.blockSize)
               && forall i :: 0 <= i < |reqs| ==> Multiple(SegSum(reqs[i].segs), l.blockSize)
    ensures Splitting(l, lens, n, reqs + [r], [], pos)
  {
    AllSegsAppend(reqs, r);
    assert AllSegs(reqs + [r]) + [] == AllSegs(reqs) + cur;
    MultipleZero(l.blockSize);
  }

  // Cutting the next segment off packet `p` at `off`.
  function CutSize(l: Limits, left: nat, reqSz: nat): (n: nat)
    requires Usable(l) && reqSz < l.maxRequest && left > 0
    ensures 1 <= n <= left && n <= l.maxSegment && reqSz + n <= l.maxRequest
  {
    var n := if left > l.maxSegment then l.maxSegment else left;
    if n > l.maxRequest - reqSz then l.maxRequest - reqSz else n
  }

  lemma CutAligned(l: Limits, lens: seq<nat>, p: nat, off: nat, reqSz: nat)
    requires Usable(l) && BlockAligned(l, lens) && p < |lens| && off < lens[p] && reqSz < l.maxRequest
    requires Multiple(off, l.blockSize) && Multiple(reqSz, l.blockSize)
    ensures var n := CutSize(l, lens[p] - off, reqSz);
            Multiple(n, l.blockSize) && Multiple(off + n, l.blockSize) && Multiple(reqSz + n, l.blockSize)
  {
    MultipleDiff(lens[p], off, l.blockSize);
    MultipleDiff(l.maxRequest, reqSz, l.blockSize);
    var n := CutSize(l, lens[p] - off, reqSz);
    MultipleDiff(off, n, l.blockSize);
    MultipleDiff(reqSz, n, l.blockSize);
  }

  lemma CutTiles(l: Limits, lens: seq<nat>, n: nat, reqs: seq<Request>, cur: seq<Seg>, p: nat, off: nat)
    requires Usable(l) && p < |lens| && off < lens[p]
    requires Splitting(l, lens, n, reqs, cur, Base(lens, p) + off)
    requires BlockAligned(l, lens) ==> Multiple(off, l.blockSize)
    ensures var len := CutSize(l, lens[p] - off, SegSum(cur));
            var cur' := cur + [Seg(p, off, len)];
            && Tiles(lens, AllSegs(reqs) + cur', Base(lens, p) + off + len)
            && SegSum(cur') == SegSum(cur) + len
            && (forall i :: 0 <= i < |cur'| ==> 1 <= cur'[i].len <= l.maxSegment)
            && (BlockAligned(l, lens) ==> Multiple(SegSum(cur'), l.blockSize) && Multiple(off + len, l.blockSize))
  {
    hide Tiles, BlockAligned, Multiple, AllSegs, Base, SegSum, CutSize, Bounded;
    var len := CutSize(l, lens[p] - off, SegSum(cur));
    var s := Seg(p, off, len);
    ConcatAssoc(AllSegs(reqs), cur, [s]);
    TilesAppend(lens, AllSegs(reqs) + cur, Base(lens, p) + off, s);
    SegSumAppend(cur, s);
    if BlockAligned(l, lens) {
      CutAligned(l, lens, p, off, SegSum(cur));
    }
  }

  // The next segment has been collected, and no limit is reached.
  lemma GoingOn(l: Limits, lens: seq<nat>, n: nat, reqs: seq<Request>, cur: seq<Seg>, pos: nat,
                cur': seq<Seg>, pos': nat)
    requires Usable(l) && Splitting(l, lens, n, reqs, cur, pos) && Tiles(lens, AllSegs(reqs) + cur', pos')
    requires |cur'| < l.maxSegments && |cur'| < n && SegSum(cur') < l.maxRequest
    requires forall i :: 0 <= i < |cur'| ==> 1 <= cur'[i].len <= l.maxSegment
    requires BlockAligned(l, lens) ==> Multiple(SegSum(cur'), l.blockSize)
    ensures Splitting(l, lens, n, reqs, cur', pos')
  {
    hide Tiles, BlockAligned, Multiple, AllSegs, SegSum, Bounded;
  }

  // What is known of the requests so far and of the segments collected.
  lemma Collected(l: Limits, lens: seq<nat>, n: nat, reqs: seq<Request>, cur: seq<Seg>, pos: nat)
    requires Usable(l) && Splitting(l, lens, n, reqs, cur, pos)
    ensures |cur| < l.maxSegments && |cur| < n && SegSum(cur) < l.maxRequest
    ensures forall i :: 0 <= i < |reqs| ==> Bounded(l, n, reqs[i])
    ensures BlockAligned(l, lens) ==> forall i :: 0 <= i < |reqs| ==> Multiple(SegSum(reqs[i].segs), l.blockSize)
  {
    hide Tiles, BlockAligned, Multiple, AllSegs, SegSum, Bounded;
  }

  lemma CutBounded(l: Limits, lens: seq<nat>, n: nat, cur: seq<Seg>)
    requires Usable(l) && cur != [] && |cur| <= l.maxSegments && |cur| <= n && SegSum(cur) <= l.maxRequest
    requires forall i :: 0 <= i < |cur| ==> 1 <= cur[i].len <= l.maxSegment
    ensures forall addr: nat :: Bounded(l, n, Request(addr, cur, Blocks(SegSum(cur), l.blockSize)))
  {
    NonEmptySum(cur);
  }

  // The next segment has been collected; once a limit is reached the request is submitted.
  lemma AfterCut(l: Limits, lens: seq<nat>, n: nat, reqs: seq<Request>, cur: seq<Seg>, p: nat, off: nat, addr: nat)
    requires Usable(l) && p < |lens| && off < lens[p]
    requires Splitting(l, lens, n, reqs, cur, Base(lens, p) + off)
    requires BlockAligned(l, lens) ==> Multiple(off, l.blockSize)
    ensures SegSum(cur) < l.maxRequest
    ensures var len := CutSize(l, lens[p] - off, SegSum(cur));
            var cur', pos := cur + [Seg(p, off, len)], Base(lens, p) + (off + len);
            && SegSum(cur') == SegSum(cur) + len
            && (BlockAligned(l, lens) ==> Multiple(off + len, l.blockSize))
            && if SegSum(cur') >= l.maxRequest || |cur'| >= l.maxSegments || |cur'| >= n then
                 Splitting(l, lens, n, reqs + [Request(addr, cur', Blocks(SegSum(cur'), l.blockSize))], [], pos)
               else Splitting(l, lens, n, reqs, cur', pos)
  {
    hide Tiles, BlockAligned, Multiple, AllSegs, Base, SegSum, CutSize, Splitting, Bounded, Blocks;
    Collected(l, lens, n, reqs, cur, Base(lens, p) + off);
    CutTiles(l, lens, n, reqs, cur, p, off);
    var len := CutSize(l, lens[p] - off, SegSum(cur));
    var cur', pos := cur + [Seg(p, off, len)], Base(lens, p) + (off + len);
    if SegSum(cur') >= l.maxRequest || |cur'| >= l.maxSegments || |cur'| >= n {
      CutBounded(l, lens, n, cur');
      Submitted(l, lens, n, reqs, cur', pos, Request(addr, cur', Blocks(SegSum(cur'), l.blockSize)));
    } else {
      GoingOn(l, lens, n, reqs, cur, Base(lens, p) + off, cur', pos);
    }
  }

  lemma AddressedAppend(reqs: seq<Request>, addr: nat, function1: bool, next: nat, r: Request)
    requires Addressed(reqs, addr, function1, next) && r.addr == next
    ensures Addressed(reqs + [r], addr, function1, if function1 then next + SegSum(r.segs) else next)
  {
    assert (reqs + [r])[..|reqs|] == reqs;
  }

  // What a successful split achieves.
  ghost predicate Complete(l: Limits, lens: seq<nat>, n: nat, reqs: seq<Request>)
    requires Usable(l)
  {
    && Tiles(lens, AllSegs(reqs), Sum(lens))
    && (forall i :: 0 <= i < |reqs| ==> Bounded(l, n, reqs[i]))
    && (BlockAligned(l, lens) ==> forall i :: 0 <= i < |reqs| ==> reqs[i].blocks * l.blockSize == SegSum(reqs[i].segs))
  }

  lemma Finished(l: Limits, lens: seq<nat>, n: nat, reqs: seq<Request>)
    requires Usable(l) && Splitting(l, lens, n, reqs, [], Sum(lens))
    ensures Complete(l, lens, n, reqs)
  {
    assert AllSegs(reqs) + [] == AllSegs(reqs);
    if BlockAligned(l, lens) {
      forall i | 0 <= i < |reqs|
        ensures reqs[i].blocks * l.blockSize == SegSum(reqs[i].segs)
      {
        MultipleDiv(SegSum(reqs[i].segs), l.blockSize);
      }
    }
  }

  // ---- what is submitted, step by step ----

  // The address of the next request, the requests submitted, and what is collected for the next.
  datatype Split = Split(addr: nat, reqs: seq<Request>, cur: seq<Seg>)

  function Submit(l: Limits, function1: bool, s: Split): (s': Split)
    requires l.blockSize > 0
    ensures s'.cur == []
  {
    Split(if function1 then s.addr + SegSum(s.cur) else s.addr,
          s.reqs + [Request(s.addr, s.cur, Blocks(SegSum(s.cur), l.blockSize))], [])
  }

  // One segment of packet `p`, which is `len` bytes long, from `off` on.
  function CutOnce(l: Limits, function1: bool, maxSegCnt: nat, s: Split, p: nat, off: nat, len: nat): (s': Split)
    requires Usable(l) && SegSum(s.cur) < l.maxRequest && off < len
    ensures SegSum(s'.cur) < l.maxRequest
  {
    var s1 := s.(cur := s.cur + [Seg(p, off, CutSize(l, len - off, SegSum(s.cur)))]);
    if SegSum(s1.cur) >= l.maxRequest || |s1.cur| >= maxSegCnt then Submit(l, function1, s1) else s1
  }

  // The rest of the packet.
  function CutFrom(l: Limits, function1: bool, maxSegCnt: nat, s: Split, p: nat, off: nat, len: nat): (s': Split)
    requires Usable(l) && SegSum(s.cur) < l.maxRequest && off <= len
    ensures SegSum(s'.cur) < l.maxRequest
    decreases len - off
  {
    if off == len then s
    else
      var s1 := CutOnce(l, function1, maxSegCnt, s, p, off, len);
      CutFrom(l, function1, maxSegCnt, s1, p, off + CutSize(l, len - off, SegSum(s.cur)), len)
  }

  // The first `n` packets.
  function CutPackets(l: Limits, function1: bool, addr: nat, lens: seq<nat>, n: nat): (s: Split)
    requires Usable(l) && n <= |lens|
    ensures SegSum(s.cur) < l.maxRequest
  {
    if n == 0 then Split(addr, [], [])
    else CutFrom(l, function1, MaxSegCnt(l, lens), CutPackets(l, function1, addr, lens, n - 1), n - 1, 0, lens[n - 1])
  }

  function MaxSegCnt(l: Limits, lens: seq<nat>): nat {
    if l.maxSegments < |lens| then l.maxSegments else |lens|
  }

  function Flushed(l: Limits, function1: bool, s: Split): Split
    requires l.blockSize > 0
  {
    if s.cur == [] then s else Submit(l, function1, s)
  }

  // All requests for the packets.
  function Requests(l: Limits, function1: bool, addr: nat, lens: seq<nat>): seq<Request>
    requires Usable(l)
  {
    Flushed(l, function1, CutPackets(l, function1, addr, lens, |lens|)).reqs
  }

  lemma {:induction false} CutExtends(l: Limits, function1: bool, maxSegCnt: nat, s: Split, p: nat, off: nat, len: nat)
    requires Usable(l) && SegSum(s.cur) < l.maxRequest && off <= len
    ensures s.reqs <= CutFrom(l, function1, maxSegCnt, s, p, off, len).reqs
    decreases len - off
  {
    hide SegSum, CutSize;
    if off < len {
      var s1 := CutOnce(l, function1, maxSegCnt, s, p, off, len);
      CutExtends(l, function1, maxSegCnt, s1, p, off + CutSize(l, len - off, SegSum(s.cur)), len);
    }
  }

  lemma {:induction false} PacketsExtend(l: Limits, function1: bool, addr: nat, lens: seq<nat>, n: nat)
    requires Usable(l) && n <= |lens|
    ensures CutPackets(l, function1, addr, lens, n).reqs <= Requests(l, function1, addr, lens)
    decreases |lens| - n
  {
    hide CutFrom, SegSum;
    if n < |lens| {
      var s := CutPackets(l, function1, addr, lens, n);
      CutExtends(l, function1, MaxSegCnt(l, lens), s, n, 0, lens[n]);
      PacketsExtend(l, function1, addr, lens, n + 1);
    }
  }

  // ---- the command argument ----

  // A machine word, as the set of its bits that are one.
  type Word = set<nat>

  // The bits of `n`, shifted left.
  function Ones(n: nat, shift: nat): Word {
    if n == 0 then {} else (if n % 2 == 1 then {shift} else {}) + Ones(n / 2, shift + 1)
  }

  function AddressBits(r: Request): Word {
    Ones(r.addr % 0x2_0000, 9)
  }

  function BlockBits(r: Request): Word {
    Ones(r.blocks % 0x200, 0)
  }

  // What a request adds to the argument: seventeen bits of its address, nine of its block count.
  function Bits(r: Request): Word {
    AddressBits(r) + BlockBits(r)
  }

  // Every request adds to what the ones before have left there.
  function ArgAfter(base: Word, reqs: seq<Request>): Word {
    if reqs == [] then base else ArgAfter(base, reqs[..|reqs| - 1]) + Bits(reqs[|reqs| - 1])
  }

  function Args(base: Word, reqs: seq<Request>): (args: seq<Word>)
    ensures |args| == |reqs|
  {
    seq(|reqs|, k requires 0 <= k < |reqs| => ArgAfter(base, reqs[..k + 1]))
  }

  predicate Commanded(base: Word, reqs: seq<Request>, arg: Word, args: seq<Word>) {
    arg == ArgAfter(base, reqs) && args == Args(base, reqs)
  }

  lemma ArgAppend(base: Word, reqs: seq<Request>, r: Request)
    ensures ArgAfter(base, reqs + [r]) == ArgAfter(base, reqs) + Bits(r)
  {
    hide Bits;
    assert (reqs + [r])[..|reqs|] == reqs;
  }

  lemma ArgsAppend(base: Word, reqs: seq<Request>, r: Request)
    ensures Args(base, reqs + [r]) == Args(base, reqs) + [ArgAfter(base, reqs + [r])]
  {
    hide Bits, ArgAfter;
    var longer, last := reqs + [r], ArgAfter(base, reqs + [r]);
    assert longer[..|reqs| + 1] == longer;
    forall k | 0 <= k < |reqs|
      ensures Args(base, longer)[k] == Args(base, reqs)[k]
    {
      assert longer[..k + 1] == reqs[..k + 1];
    }
  }

  lemma CommandedAppend(base: Word, reqs: seq<Request>, arg: Word, args: seq<Word>, r: Request)
    requires Commanded(base, reqs, arg, args)
    ensures Commanded(base, reqs + [r], arg + Bits(r), args + [arg + Bits(r)])
  {
    hide Bits, ArgAfter, Args;
    ArgAppend(base, reqs, r);
    ArgsAppend(base, reqs, r);
  }

  lemma {:induction false} ArgIs(base: Word, reqs: seq<Request>, bit: nat)
    ensures bit in ArgAfter(base, reqs) <==> bit in base || exists i :: 0 <= i < |reqs| && bit in Bits(reqs[i])
  {
    hide Bits;
    if reqs != [] {
      var init, last := reqs[..|reqs| - 1], reqs[|reqs| - 1];
      ArgIs(base, init, bit);
      assert forall i :: 0 <= i < |init| ==> reqs[i] == init[i];
    }
  }

  // The card is given a request's own address and block count if and only if no request before
  // has set a bit that this one does not.
  lemma CommandRightExactly(base: Word, reqs: seq<Request>, k: nat)
    requires k < |reqs|
    ensures Args(base, reqs)[k] == base + Bits(reqs[k])
        <==> forall i :: 0 <= i < k ==> Bits(reqs[i]) <= base + Bits(reqs[k])
  {
    hide Bits;
    var before, b := reqs[..k], Bits(reqs[k]);
    assert reqs[..k + 1][..k] == before;
    assert forall i :: 0 <= i < k ==> before[i] == reqs[i];
    forall bit: nat
      ensures bit in ArgAfter(base, before) <==> bit in base || exists i :: 0 <= i < |before| && bit in Bits(before[i])
    {
      ArgIs(base, before, bit);
    }
  }

  const SMALL: Limits := Limits(1024, 32, 65536, 64, 512)
  const FIRST: Request := Request(0, [Seg(0, 0, 1024)], 2)
  const SECOND: Request := Request(0, [Seg(0, 1024, 512)], 1)

  // One packet of three blocks where a request may have two: the second request is for one
  // block, and its command says three.
  lemma SecondCommandWrong()
    ensures Usable(SMALL) && Requests(SMALL, false, 0, [1536]) == [FIRST, SECOND]
    ensures SECOND.blocks == 1 && Args({}, [FIRST, SECOND])[1] == Ones(3, 0)
  {
    hide Args, Requests, Bits, Ones;
    SmallSteps();
    SmallBits();
    TwoArgs({}, FIRST, SECOND);
  }

  lemma SmallBits()
    ensures Bits(FIRST) == {1} && Bits(SECOND) == {0} && Ones(3, 0) == {0, 1}
  {
    assert Ones(1, 0) == {0} && Ones(1, 1) == {1};
    assert Ones(2, 0) == {1} && Ones(0, 9) == {};
  }

  lemma TwoArgs(base: Word, r0: Request, r1: Request)
    ensures Args(base, [r0, r1])[1] == base + Bits(r0) + Bits(r1)
  {
    hide Bits;
    var none: seq<Request> := [];
    assert [r0][..0] == none && [r0, r1][..1] == [r0] && [r0, r1][..2] == [r0, r1];
    assert ArgAfter(base, [r0]) == base + Bits(r0);
  }

  lemma SmallSteps()
    ensures Usable(SMALL) && Requests(SMALL, false, 0, [1536]) == [FIRST, SECOND]
  {
    OneSum(Seg(0, 0, 1024));
    OneSum(Seg(0, 1024, 512));
    hide SegSum;
    var s0, s1 := Split(0, [], []), Split(0, [FIRST], []);
    assert [] + [Seg(0, 0, 1024)] == [Seg(0, 0, 1024)] && [] + [Seg(0, 1024, 512)] == [Seg(0, 1024, 512)];
    assert CutOnce(SMALL, false, 1, s0, 0, 0, 1536) == s1;
    assert CutOnce(SMALL, false, 1, s1, 0, 1024, 1536) == Split(0, [FIRST, SECOND], []);
    CutFromStep(SMALL, false, 1, s0, 0, 0, 1536);
    CutFromStep(SMALL, false, 1, s1, 0, 1024, 1536);
    CutFromEnd(SMALL, false, 1, Split(0, [FIRST, SECOND], []), 0, 1536);
    assert CutPackets(SMALL, false, 0, [1536], 0) == s0;
  }

  lemma OneSum(s: Seg)
    ensures SegSum([s]) == s.len && SegSum([]) == 0
  {
    SegSumAppend([], s);
    assert [] + [s] == [s];
  }

  class Splitter {
    const limits: Limits
    const function1: bool
    const base: Word
    const fails: set<nat>  // the submissions that fail, by number
    var addr: nat
    var reqs: seq<Request>
    var cur: seq<Seg>
    var reqSz: nat
    var arg: Word
    var args: seq<Word>

    constructor (limits: Limits, function1: bool, addr: nat, base: Word, fails: set<nat>)
      ensures this.limits == limits && this.function1 == function1 && this.base == base && this.fails == fails
      ensures View() == Split(addr, [], []) && reqSz == 0 && arg == base && args == []
    {
      this.limits, this.function1, this.addr, this.base, this.fails := limits, function1, addr, base, fails;
      reqs, cur, reqSz, arg, args := [], [], 0, base, [];
    }

    ghost function View(): Split
      reads this`addr, this`reqs, this`cur
    {
      Split(addr, reqs, cur)
    }

    // mmc_submit_one
    method SubmitOne() returns (ok: bool)
      requires limits.blockSize > 0 && reqSz == SegSum(cur) && Commanded(base, reqs, arg, args)
      modifies this
      ensures View() == Submit(limits, function1, old(View())) && reqSz == 0
      ensures Commanded(base, reqs, arg, args)
      ensures ok == (|old(reqs)| !in fails)
    {
      hide Commanded, SegSum, Blocks, Ones;
      var blocks := Blocks(reqSz, limits.blockSize);
      CommandedAppend(base, reqs, arg, args, Request(addr, cur, blocks));
      arg := arg + Ones(addr % 0x2_0000, 9);
      arg := arg + Ones(blocks % 0x200, 0);
      assert arg == old(arg) + Bits(Request(addr, cur, blocks));
      ok := |reqs| !in fails;
      reqs, args := reqs + [Request(addr, cur, blocks)], args + [arg];
      if function1 {
        addr := addr + reqSz;
      }
      cur, reqSz := [], 0;
    }

    // Every submission so far has worked, or the last one has failed.
    predicate Working()
      reads this`reqs
    {
      forall k :: 0 <= k < |reqs| ==> k !in fails
    }

    predicate Failed()
      reads this`reqs
    {
      reqs != [] && |reqs| - 1 in fails && forall k :: 0 <= k < |reqs| - 1 ==> k !in fails
    }

    ghost predicate Valid(lens: seq<nat>, n: nat, addr0: nat, pos: nat)
      reads this
    {
      && Usable(limits) && reqSz == SegSum(cur)
      && Splitting(limits, lens, n, reqs, cur, pos)
      && Addressed(reqs, addr0, function1, addr)
      && Commanded(base, reqs, arg, args) && Working()
    }

    // Cut one segment; submit when a limit is reached.
    method Cut(p: nat, off: nat, maxSegCnt: nat, lens: seq<nat>, ghost addr0: nat) returns (ok: bool, off': nat)
      requires p < |lens| && off < lens[p] && maxSegCnt == MaxSegCnt(limits, lens)
      requires Valid(lens, |lens|, addr0, Base(lens, p) + off) && SegSum(cur) < limits.maxRequest
      requires BlockAligned(limits, lens) ==> Multiple(off, limits.blockSize)
      modifies this
      ensures View() == CutOnce(limits, function1, maxSegCnt, old(View()), p, off, lens[p])
      ensures off' == off + CutSize(limits, lens[p] - off, SegSum(old(cur))) <= lens[p]
      ensures Commanded(base, reqs, arg, args)
      ensures if ok then Valid(lens, |lens|, addr0, Base(lens, p) + off') else Failed()
      ensures BlockAligned(limits, lens) ==> Multiple(off', limits.blockSize)
    {
      hide Tiles, BlockAligned, Multiple, AllSegs, Base, SegSum, Addressed, CutSize, Splitting, Bounded, Blocks;
      hide Commanded;
      AfterCut(limits, lens, |lens|, reqs, cur, p, off, addr);
      var len := CutSize(limits, lens[p] - off, reqSz);
      cur := cur + [Seg(p, off, len)];
      reqSz := reqSz + len;
      off' := off + len;
      ok := true;
      if reqSz >= limits.maxRequest || |cur| >= maxSegCnt {
        AddressedAppend(reqs, addr0, function1, addr, Request(addr, cur, Blocks(reqSz, limits.blockSize)));
        EmptySum();
        ok := SubmitOne();
      }
    }

    lemma EmptySum()
      ensures SegSum([]) == 0
    {
    }

    // Submit what is left over.
    method Flush(lens: seq<nat>, ghost addr0: nat) returns (ok: bool)
      requires lens != [] && Valid(lens, |lens|, addr0, Sum(lens))
      modifies this
      ensures View() == Flushed(limits, function1, old(View())) && Commanded(base, reqs, arg, args)
      ensures if ok then Working() else Failed()
      ensures Complete(limits, lens, |lens|, reqs) && Addressed(reqs, addr0, function1, addr)
    {
      hide Tiles, BlockAligned, Multiple, AllSegs, SegSum, Addressed, Splitting, Complete, Commanded, Blocks;
      ok := true;
      if |cur| > 0 {
        ghost var last := Request(addr, cur, Blocks(reqSz, limits.blockSize));
        LastBounded(limits, lens, |lens|, reqs, cur, Sum(lens), last);
        AddressedAppend(reqs, addr0, function1, addr, last);
        ok := SubmitOne();
      }
      Finished(limits, lens, |lens|, reqs);
    }

    // Cut up one packet; the scatter list has `sgEntries` entries.
    method CutPacket(p: nat, maxSegCnt: nat, lens: seq<nat>, ghost addr0: nat) returns (err: Option<Error>)
      requires p < |lens| && maxSegCnt == MaxSegCnt(limits, lens)
      requires Valid(lens, |lens|, addr0, Base(lens, p)) && SegSum(cur) < limits.maxRequest
      modifies this
      ensures var all := CutFrom(limits, function1, maxSegCnt, old(View()), p, 0, lens[p]);
              Commanded(base, reqs, arg, args)
              && match err
                 case None => View() == all && Valid(lens, |lens|, addr0, Base(lens, p + 1))
                 case Some(e) =>
                   && reqs <= all.reqs
                   && if e.NoMemory? then limits.sgEntries < maxSegCnt && Working() else e == Io && Failed()
    {
      hide Tiles, BlockAligned, Multiple, AllSegs, Base, SegSum, Addressed, Splitting, Commanded;
      hide CutFrom, CutOnce, CutSize;
      BaseStep(lens, p);
      MultipleZero(limits.blockSize);
      var off := 0;
      while off < lens[p]
        invariant off <= lens[p] && Valid(lens, |lens|, addr0, Base(lens, p) + off) && SegSum(cur) < limits.maxRequest
        invariant CutFrom(limits, function1, maxSegCnt, View(), p, off, lens[p])
               == CutFrom(limits, function1, maxSegCnt, old(View()), p, 0, lens[p])
        invariant BlockAligned(limits, lens) ==> Multiple(off, limits.blockSize)
        decreases lens[p] - off
      {
        if |cur| >= limits.sgEntries {
          Collected(limits, lens, |lens|, reqs, cur, Base(lens, p) + off);
          CutExtends(limits, function1, maxSegCnt, View(), p, off, lens[p]);
          return Some(NoMemory);
        }
        CutFromStep(limits, function1, maxSegCnt, View(), p, off, lens[p]);
        var ok;
        ok, off := Cut(p, off, maxSegCnt, lens, addr0);
        if !ok {
          CutExtends(limits, function1, maxSegCnt, View(), p, off, lens[p]);
          return Some(Io);
        }
      }
      CutFromEnd(limits, function1, maxSegCnt, View(), p, lens[p]);
      err := None;
    }
  }

  lemma CutFromStep(l: Limits, function1: bool, maxSegCnt: nat, s: Split, p: nat, off: nat, len: nat)
    requires Usable(l) && SegSum(s.cur) < l.maxRequest && off < len
    ensures var s1 := CutOnce(l, function1, maxSegCnt, s, p, off, len);
            CutFrom(l, function1, maxSegCnt, s, p, off, len)
            == CutFrom(l, function1, maxSegCnt, s1, p, off + CutSize(l, len - off, SegSum(s.cur)), len)
  {
    hide CutOnce, CutSize, SegSum;
  }

  lemma CutFromEnd(l: Limits, function1: bool, maxSegCnt: nat, s: Split, p: nat, len: nat)
    requires Usable(l) && SegSum(s.cur) < l.maxRequest
    ensures CutFrom(l, function1, maxSegCnt, s, p, len, len) == s
  {
  }

  lemma LastBounded(l: Limits, lens: seq<nat>, n: nat, reqs: seq<Request>, cur: seq<Seg>, pos: nat, r: Request)
    requires Usable(l) && n > 0 && Splitting(l, lens, n, reqs, cur, pos) && cur != []
    requires r.segs == cur && r.blocks == Blocks(SegSum(cur), l.blockSize)
    ensures Splitting(l, lens, n, reqs + [r], [], pos)
  {
    NonEmptySum(cur);
    Submitted(l, lens, n, reqs, cur, pos, r);
  }

  // The split of brcmf_sdiod_sglist_rw; `fails` are the submissions that fail, by number, and
  // `tried` are those that are made.  It ends for all positive limits, and runs out of
  // scatter-list entries only if there are fewer of them than a request may have segments.
  method SglistSplit(lens: seq<nat>, limits: Limits, function1: bool, addr: nat, base: Word, fails: set<nat>)
    returns (r: Result<seq<Request>, Error>, tried: seq<Request>, args: seq<Word>)
    requires Usable(limits)
    ensures lens == [] <==> r == Err(NoPackets)
    ensures args == Args(base, tried) && tried <= Requests(limits, function1, addr, lens)
    ensures match r
            case Ok(reqs) =>
              && reqs == tried == Requests(limits, function1, addr, lens)
              && (forall k :: 0 <= k < |reqs| ==> k !in fails)
              && Complete(limits, lens, |lens|, reqs) && exists next :: Addressed(reqs, addr, function1, next)
            case Err(NoPackets) => tried == []
            case Err(NoMemory) =>
              && limits.sgEntries < limits.maxSegments && limits.sgEntries < |lens|
              && forall k :: 0 <= k < |tried| ==> k !in fails
            case Err(Io) =>
              && tried != [] && |tried| - 1 in fails
              && forall k :: 0 <= k < |tried| - 1 ==> k !in fails
  {
    hide Tiles, BlockAligned, Multiple, AllSegs, SegSum, Addressed, Splitting, Complete, CutPackets, CutFrom, Requests;
    hide Commanded;
    StartCommands(base);
    if lens == [] {
      return Err(NoPackets), [], [];
    }
    var maxSegCnt := if limits.maxSegments < |lens| then limits.maxSegments else |lens|;
    var sp := new Splitter(limits, function1, addr, base, fails);
    StartSplit(limits, lens);
    StartAddress(addr, function1);
    StartPackets(limits, function1, addr, lens);
    for p := 0 to |lens|
      invariant sp.limits == limits && sp.function1 == function1 && sp.base == base && sp.fails == fails
      invariant sp.Valid(lens, |lens|, addr, Base(lens, p))
      invariant sp.View() == CutPackets(limits, function1, addr, lens, p)
    {
      NextPacket(limits, function1, addr, lens, p);
      var err := sp.CutPacket(p, maxSegCnt, lens, addr);
      if err.Some? {
        PacketsExtend(limits, function1, addr, lens, p + 1);
        ArgsOf(base, sp.reqs, sp.arg, sp.args);
        return Err(err.value), sp.reqs, sp.args;
      }
    }
    assert lens[..|lens|] == lens;
    AllRequests(limits, function1, addr, lens);
    var ok := sp.Flush(lens, addr);
    ArgsOf(base, sp.reqs, sp.arg, sp.args);
    r, tried, args := if ok then Ok(sp.reqs) else Err(Io), sp.reqs, sp.args;
  }

  lemma StartCommands(base: Word)
    ensures Commanded(base, [], base, [])
    ensures Args(base, []) == []
  {
  }

  lemma ArgsOf(base: Word, reqs: seq<Request>, arg: Word, args: seq<Word>)
    requires Commanded(base, reqs, arg, args)
    ensures args == Args(base, reqs)
  {
  }

  lemma StartPackets(l: Limits, function1: bool, addr: nat, lens: seq<nat>)
    requires Usable(l)
    ensures CutPackets(l, function1, addr, lens, 0) == Split(addr, [], [])
  {
  }

  lemma NextPacket(l: Limits, function1: bool, addr: nat, lens: seq<nat>, p: nat)
    requires Usable(l) && p < |lens|
    ensures var s := CutPackets(l, function1, addr, lens, p);
            && SegSum(s.cur) < l.maxRequest
            && CutPackets(l, function1, addr, lens, p + 1)
            == CutFrom(l, function1, MaxSegCnt(l, lens), s, p, 0, lens[p])
  {
    hide CutFrom;
  }

  lemma AllRequests(l: Limits, function1: bool, addr: nat, lens: seq<nat>)
    requires Usable(l)
    ensures Requests(l, function1, addr, lens)
         == Flushed(l, function1, CutPackets(l, function1, addr, lens, |lens|)).reqs
  {
    hide CutPackets, Flushed;
  }

  // What the requests of a successful split send, one after the other, is the packets' bytes.
  lemma SendsChain(l: Limits, pkts: seq<seq<byte>>, reqs: seq<Request>)
    requires Usable(l) && Complete(l, Lens(pkts), |pkts|, reqs)
    ensures AllWithin(Lens(pkts), AllSegs(reqs)) && Gathered(pkts, AllSegs(reqs)) == Cat(pkts)
  {
    hide Tiles, AllWithin, Bounded, BlockAligned, AllSegs, Gathered, Cat, Sum;
    TilesSend(pkts, AllSegs(reqs), Sum(Lens(pkts)));
    CatLength(pkts);
    assert Cat(pkts)[..|Cat(pkts)|] == Cat(pkts);
  }

  // What they receive, one after the other, is the packets' bytes afterwards.
  lemma ReceivesStream(l: Limits, pkts: seq<seq<byte>>, reqs: seq<Request>, stream: seq<byte>)
    requires Usable(l) && Complete(l, Lens(pkts), |pkts|, reqs) && |stream| == Sum(Lens(pkts))
    ensures AllWithin(Lens(pkts), AllSegs(reqs)) && SegSum(AllSegs(reqs)) == |stream|
    ensures var pkts' := Delivered(pkts, AllSegs(reqs), stream); Lens(pkts') == Lens(pkts) && Cat(pkts') == stream
  {
    hide Tiles, AllWithin, Bounded, BlockAligned, AllSegs, Delivered, Cat, Sum;
    TilesReceive(pkts, AllSegs(reqs), stream);
    CatLength(Delivered(pkts, AllSegs(reqs), stream));
  }

  lemma StartAddress(addr: nat, function1: bool)
    ensures Addressed([], addr, function1, addr)
    ensures SegSum([]) == 0
  {
  }

  lemma StartSplit(l: Limits, lens: seq<nat>)
    requires Usable(l) && lens != []
    ensures Splitting(l, lens, |lens|, [], [], Base(lens, 0))
  {
    assert AllSegs([]) + [] == [];
    MultipleZero(l.blockSize);
  }

  lemma NonEmptySum(segs: seq<Seg>)
    requires segs != [] && forall i :: 0 <= i < |segs| ==> 1 <= segs[i].len
    ensures SegSum(segs) >= 1
  {
  }
}

/** Reading through whole pages on hosts with broken scatter-gather support. */
module SdioBounce {
  import opened Bytes
  import opened SdioScatter
  import opened SdioSegments
  import opened Wrappers

  function AlignUp(x: nat, unit: nat): (y: nat)
    requires unit > 0
    ensures y >= x
  {
    var q := (x + unit - 1) / unit;
    assert q * unit >= x by {
      assert x + unit - 1 == q * unit + (x + unit - 1) % unit;
    }
    q * unit
  }

  lemma SumAppend(lens: seq<nat>, n: nat)
    ensures Sum(lens + [n]) == Sum(lens) + n && Sum([]) == 0
  {
    assert (lens + [n])[..|lens|] == lens;
  }

  method Total(lens: seq<nat>) returns (n: nat)
    ensures n == Sum(lens)
  {
    n := 0;
    for p := 0 to |lens|
      invariant n == Sum(lens[..p])
    {
      assert lens[..p + 1][..p] == lens[..p];
      n := n + lens[p];
    }
    assert lens[..|lens|] == lens;
  }

  // Full pages, then one page for the rest.
  predicate Pages(sizes: seq<nat>, pageSize: nat) {
    && sizes != []
    && (forall i :: 0 <= i < |sizes| - 1 ==> sizes[i] == pageSize)
    && sizes[|sizes| - 1] <= pageSize
  }

  // The sizes of the bounce pages: together the packets' length rounded up to whole
  // blocks, and none empty if there is anything to read.
  method BouncePages(lens: seq<nat>, blockSize: nat, pageSize: nat) returns (sizes: seq<nat>)
    requires blockSize > 0 && pageSize > 0
    ensures Pages(sizes, pageSize) && Sum(sizes) == AlignUp(Sum(lens), blockSize)
    ensures Sum(lens) > 0 ==> forall i :: 0 <= i < |sizes| ==> sizes[i] > 0
  {
    hide AlignUp, Sum;
    var reqSz: nat := Total(lens);
    reqSz := AlignUp(reqSz, blockSize);
    sizes := [];
    SumAppend([], reqSz);
    while reqSz > pageSize
      invariant Sum(sizes) + reqSz == AlignUp(Sum(lens), blockSize)
      invariant forall i :: 0 <= i < |sizes| ==> sizes[i] == pageSize
      invariant Sum(lens) > 0 ==> reqSz > 0
    {
      SumAppend(sizes, pageSize);
      sizes := sizes + [pageSize];
      reqSz := reqSz - pageSize;
    }
    SumAppend(sizes, reqSz);
    sizes := sizes + [reqSz];
  }

  // Page `k` at `off` is where byte `at` of the pages is.
  ghost predicate Standing(bounce: seq<seq<byte>>, k: nat, off: nat, at: nat) {
    && k <= |bounce| && at == Base(Lens(bounce), k) + off
    && (if k < |bounce| then off < |bounce[k]| else off == 0)
  }

  lemma MoreLeft(bounce: seq<seq<byte>>, k: nat, off: nat, at: nat)
    requires Standing(bounce, k, off, at) && at < |Cat(bounce)|
    ensures k < |bounce|
  {
    CatLength(bounce);
    assert Lens(bounce)[..|bounce|] == Lens(bounce);
  }

  lemma TakeFromPage(bounce: seq<seq<byte>>, k: nat, off: nat, at: nat, n: nat)
    requires Standing(bounce, k, off, at) && k < |bounce| && off + n <= |bounce[k]|
    ensures at + n <= |Cat(bounce)| && bounce[k][off..off + n] == Cat(bounce)[at..at + n]
    ensures Base(Lens(bounce), k + 1) == Base(Lens(bounce), k) + |bounce[k]|
  {
    PacketAt(bounce, k);
    SliceOf(Cat(bounce), Base(Lens(bounce), k), bounce[k], off, off + n);
    BaseStep(Lens(bounce), k);
  }

  // Fill one packet from the pages, starting at page `k`, `off`.
  method FillPacket(bounce: seq<seq<byte>>, k0: nat, off0: nat, len: nat, ghost at: nat)
    returns (pkt: seq<byte>, k: nat, off: nat)
    requires forall i :: 0 <= i < |bounce| ==> bounce[i] != []
    requires Standing(bounce, k0, off0, at) && len > 0 && at + len <= |Cat(bounce)|
    ensures pkt == Cat(bounce)[at..at + len] && Standing(bounce, k, off, at + len)
  {
    hide Cat, Lens, Base;
    pkt, k, off := [], k0, off0;
    while true
      invariant |pkt| < len && pkt == Cat(bounce)[at..at + |pkt|] && Standing(bounce, k, off, at + |pkt|)
      decreases len - |pkt|
    {
      MoreLeft(bounce, k, off, at + |pkt|);
      var reqSz := len - |pkt|;
      if reqSz > |bounce[k]| - off {
        reqSz := |bounce[k]| - off;
      }
      TakeFromPage(bounce, k, off, at + |pkt|, reqSz);
      assert Cat(bounce)[at..at + |pkt|] + Cat(bounce)[at + |pkt|..at + |pkt| + reqSz]
          == Cat(bounce)[at..at + |pkt| + reqSz];
      pkt := pkt + bounce[k][off..off + reqSz];
      off := off + reqSz;
      if off == |bounce[k]| {
        off, k := 0, k + 1;
      }
      if |pkt| == len {
        break;
      }
    }
  }

  lemma StandsAtStart(bounce: seq<seq<byte>>, lens: seq<nat>)
    requires forall i :: 0 <= i < |bounce| ==> bounce[i] != []
    ensures Standing(bounce, 0, 0, Base(lens, 0))
  {
  }

  // The first packets have got their shares.
  ghost predicate Shared(stream: seq<byte>, lens: seq<nat>, pkts: seq<seq<byte>>) {
    && |pkts| <= |lens|
    && forall p :: 0 <= p < |pkts| ==>
         && Base(lens, p) + lens[p] <= |stream|
         && pkts[p] == stream[Base(lens, p)..Base(lens, p) + lens[p]]
  }

  lemma SharedStep(stream: seq<byte>, lens: seq<nat>, pkts: seq<seq<byte>>, pkt: seq<byte>)
    requires Shared(stream, lens, pkts) && |pkts| < |lens|
    requires Base(lens, |pkts|) + lens[|pkts|] <= |stream|
    requires pkt == stream[Base(lens, |pkts|)..Base(lens, |pkts|) + lens[|pkts|]]
    ensures Shared(stream, lens, pkts + [pkt])
  {
    hide Base;
  }

  lemma ShareFits(lens: seq<nat>, p: nat)
    requires p < |lens|
    ensures Base(lens, p + 1) == Base(lens, p) + lens[p] <= Sum(lens)
  {
    BaseStep(lens, p);
    BaseMonotone(lens, p + 1, |lens|);
    assert lens[..|lens|] == lens;
  }

  // Copying the pages back: every packet gets exactly its share.
  method CopyBack(bounce: seq<seq<byte>>, lens: seq<nat>) returns (pkts: seq<seq<byte>>)
    requires forall i :: 0 <= i < |bounce| ==> bounce[i] != []
    requires (forall p :: 0 <= p < |lens| ==> lens[p] > 0) && Sum(lens) <= |Cat(bounce)|
    ensures |pkts| == |lens| && Shared(Cat(bounce), lens, pkts)
  {
    hide Sum, Base, Lens, Cat, Standing, Shared;
    StandsAtStart(bounce, lens);
    pkts := [];
    NoneShared(Cat(bounce), lens);
    var k, off := 0, 0;
    for p := 0 to |lens|
      invariant |pkts| == p && Standing(bounce, k, off, Base(lens, p)) && Shared(Cat(bounce), lens, pkts)
    {
      ShareFits(lens, p);
      var pkt;
      pkt, k, off := FillPacket(bounce, k, off, lens[p], Base(lens, p));
      SharedStep(Cat(bounce), lens, pkts, pkt);
      pkts := pkts + [pkt];
    }
  }

  lemma NoneShared(stream: seq<byte>, lens: seq<nat>)
    ensures Shared(stream, lens, [])
  {
  }

  // Pages filled by requests that tile them hold exactly the stream the device sent.
  lemma PagesHoldStream(pages: seq<seq<byte>>, segs: seq<Seg>, stream: seq<byte>)
    requires Tiles(Lens(pages), segs, |stream|) && |stream| == Sum(Lens(pages))
    ensures AllWithin(Lens(pages), segs) && SegSum(segs) == |stream|
    ensures Cat(Delivered(pages, segs, stream)) == stream
  {
    TilesReceive(pages, segs, stream);
    CatLength(Delivered(pages, segs, stream));
  }

  function Blank(sizes: seq<nat>): (pages: seq<seq<byte>>)
    ensures Lens(pages) == sizes
  {
    seq(|sizes|, i requires 0 <= i < |sizes| => Zeros(sizes[i]))
  }

  lemma {:induction false} SumPositive(lens: seq<nat>)
    requires lens != [] && forall p :: 0 <= p < |lens| ==> lens[p] > 0
    ensures Sum(lens) > 0
  {
  }

  // The pages after the device has sent `stream`, in the order of the requests.
  lemma PagesFilled(limits: Limits, sizes: seq<nat>, reqs: seq<Request>, stream: seq<byte>)
    requires Usable(limits) && Complete(limits, sizes, |sizes|, reqs) && |stream| == Sum(sizes)
    ensures AllWithin(sizes, AllSegs(reqs)) && SegSum(AllSegs(reqs)) == |stream|
    ensures var pages := Delivered(Blank(sizes), AllSegs(reqs), stream);
            Lens(pages) == sizes && Cat(pages) == stream
  {
    PagesHoldStream(Blank(sizes), AllSegs(reqs), stream);
  }

  // The whole of a read on a host with broken scatter-gather support, every submission
  // succeeding: through pages, requests and the copy back each packet receives exactly its
  // share of what the device sends.
  method ReadThroughPages(lens: seq<nat>, limits: Limits, function1: bool, addr: nat, base: Word, fails: set<nat>,
                          pageSize: nat, stream: seq<byte>)
    returns (r: Result<seq<seq<byte>>, SdioScatter.Error>)
    requires Usable(limits) && pageSize > 0 && (forall p :: 0 <= p < |lens| ==> lens[p] > 0)
    requires |stream| == AlignUp(Sum(lens), limits.blockSize)
    ensures lens == [] <==> r == Err(NoPackets)
    ensures r == Err(NoMemory) ==> limits.sgEntries < limits.maxSegments
    ensures r.Ok? ==> |r.value| == |lens| && Shared(stream, lens, r.value)
  {
    hide Sum, Base, Cat, Complete, AllSegs, SegSum, Pages, Shared;
    if lens == [] {
      return Err(NoPackets);
    }
    SumPositive(lens);
    var sizes := BouncePages(lens, limits.blockSize, pageSize);
    NotEmpty(sizes, pageSize);
    var split, tried, args := SglistSplit(sizes, limits, function1, addr, base, fails);
    if split.Err? {
      return Err(split.error);
    }
    PagesFilled(limits, sizes, split.value, stream);
    var pages := Delivered(Blank(sizes), AllSegs(split.value), stream);
    assert forall i :: 0 <= i < |pages| ==> |pages[i]| == sizes[i];
    var pkts := CopyBack(pages, lens);
    return Ok(pkts);
  }

  lemma NotEmpty(sizes: seq<nat>, pageSize: nat)
    requires Pages(sizes, pageSize)
    ensures sizes != []
  {
  }
}
