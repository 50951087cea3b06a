/**
  Whole sequential scans: MCUs encoded one after the other, packed into segments with a restart
  marker after every interval, are decoded to the blocks they were made of, however the stream is
  delivered.
  */
module SequentialScan {
  import opened BitStrings
  import opened EntropyStream
  import opened EntropyWriter
  import opened HuffmanCode
  import opened HuffmanTable
  import opened BitReader
  import opened Coefficients
  import opened SequentialDecoder
  import opened SequentialEncoder
  import opened Options

  type Blocks = seq<ZigZag>

  // ---- the MCUs of a segment ----

  predicate BlocksFit(cfg: seq<BlockConfig>, mcus: seq<Blocks>) {
    forall k | 0 <= k < |mcus| :: |mcus[k]| == |cfg|
  }

  function PredsAfter(cfg: seq<BlockConfig>, mcus: seq<Blocks>, preds: seq<int>): (r: seq<int>)
    requires ConfigValid(cfg, |preds|) && BlocksFit(cfg, mcus)
    ensures |r| == |preds|
  {
    if mcus == [] then preds
    else
      var n := |mcus| - 1;
      McuPreds(cfg, mcus[n], 0, PredsAfter(cfg, mcus[..n], preds))
  }

  predicate McusCoded(cfg: seq<BlockConfig>, mcus: seq<Blocks>, preds: seq<int>)
    requires ConfigValid(cfg, |preds|) && BlocksFit(cfg, mcus)
  {
    mcus == [] ||
    var n := |mcus| - 1;
    McusCoded(cfg, mcus[..n], preds) && McuCoded(cfg, mcus[n], 0, PredsAfter(cfg, mcus[..n], preds))
  }

  function McusBits(cfg: seq<BlockConfig>, mcus: seq<Blocks>, preds: seq<int>): seq<Bit>
    requires ConfigValid(cfg, |preds|) && BlocksFit(cfg, mcus) && McusCoded(cfg, mcus, preds)
  {
    if mcus == [] then []
    else
      var n := |mcus| - 1;
      McusBits(cfg, mcus[..n], preds) + McuBits(cfg, mcus[n], 0, PredsAfter(cfg, mcus[..n], preds))
  }

  // One list of assignments for each MCU, storing its blocks.
  ghost predicate StoresAll(wss: seq<seq<Write>>, cfg: seq<BlockConfig>, mcus: seq<Blocks>) {
    |wss| == |mcus| && forall k | 0 <= k < |mcus| :: StoresMcu(wss[k], cfg, mcus[k], 0)
  }

  // One MCU, with other bits behind it.
  lemma McuStepReads(d: seq<Byte>, cfg: seq<BlockConfig>, interval: nat, l: Logical, blocks: Blocks, preds: seq<int>,
                     rest: seq<Bit>)
    requires ConfigValid(cfg, |l.dc|) && |preds| == |l.dc| && NeedsAgree(cfg) && Tracks(cfg, l.dc, preds)
    requires McuCoded(cfg, blocks, 0, preds) && l.seg.bits == McuBits(cfg, blocks, 0, preds) + rest
    requires !l.seg.insufficient && (interval == 0 || 0 < l.restartsToGo < BUF_MODULUS)
    ensures var st := Step(d, cfg, interval, l);
            && st.Some? && StoresMcu(st.value.0, cfg, blocks, 0)
            && var m := st.value.1;
               && |m.dc| == |l.dc| && m.seg == l.seg.(bits := rest) && |blocks| == |cfg|
               && (interval != 0 ==> m.restartsToGo == l.restartsToGo - 1)
               && Tracks(cfg, m.dc, McuPreds(cfg, blocks, 0, preds))
  {
    hide McuBits, McuPreds, McuCoded, StoresMcu, Tracks, NeedsAgree, ConfigValid, Mcu;
    var bits := McuBits(cfg, blocks, 0, preds);
    assert (bits + rest)[0..0 + |bits|] == bits && (bits + rest)[|bits|..] == rest;
    McuRoundTrip(cfg, blocks, 0, l.seg.bits, 0, l.dc, preds);
    StepOf(cfg, l);
    SameSize(cfg, blocks, preds);
  }

  lemma SameSize(cfg: seq<BlockConfig>, blocks: Blocks, preds: seq<int>)
    requires ConfigValid(cfg, |preds|) && McuCoded(cfg, blocks, 0, preds)
    ensures |blocks| == |cfg|
  {}

  // The state after some MCUs of a segment.
  ghost predicate Inside(l: Logical, m: Logical, interval: nat, n: nat) {
    && |m.dc| == |l.dc| && m.seg.ahead == l.seg.ahead && m.seg.restartNum == l.seg.restartNum
    && !m.seg.insufficient && (interval != 0 ==> m.restartsToGo == l.restartsToGo - n)
  }

  lemma {:induction false} SegmentSteps(d: seq<Byte>, cfg: seq<BlockConfig>, interval: nat, l: Logical,
                                        mcus: seq<Blocks>, preds: seq<int>, rest: seq<Bit>)
    requires ConfigValid(cfg, |l.dc|) && |preds| == |l.dc| && NeedsAgree(cfg) && Tracks(cfg, l.dc, preds)
    requires BlocksFit(cfg, mcus) && McusCoded(cfg, mcus, preds) && l.seg.bits == McusBits(cfg, mcus, preds) + rest
    requires !l.seg.insufficient && (interval == 0 || |mcus| <= l.restartsToGo < BUF_MODULUS)
    ensures var st := Steps(d, cfg, interval, l, |mcus|);
            && st.Some? && StoresAll(st.value.0, cfg, mcus)
            && var m := st.value.1;
               Inside(l, m, interval, |mcus|) && m.seg.bits == rest && Tracks(cfg, m.dc, PredsAfter(cfg, mcus, preds))
    ensures forall j | 0 <= j <= |mcus| ::
              var st := Steps(d, cfg, interval, l, j); st.Some? && Inside(l, st.value.1, interval, j)
    decreases |mcus|
  {
    hide McuBits, McuPreds, McuCoded, StoresMcu, Tracks, NeedsAgree, ConfigValid, Step;
    if mcus == [] {
      assert [] + rest == rest;
    } else {
      var n := |mcus| - 1;
      var front := mcus[..n];
      var mid := PredsAfter(cfg, front, preds);
      var last := McuBits(cfg, mcus[n], 0, mid);
      ConcatAssoc(McusBits(cfg, front, preds), last, rest);
      SegmentSteps(d, cfg, interval, l, front, preds, last + rest);
      var before := Steps(d, cfg, interval, l, n).value;
      McuStepReads(d, cfg, interval, before.1, mcus[n], mid, rest);
    }
  }

  // ---- the segments of a scan ----

  // Every segment begins with predictions of zero (section F.1.2.1).
  function Zero(comps: nat): (r: seq<int>)
    ensures |r| == comps
  {
    seq(comps, i => 0)
  }

  // Every segment is coded for itself, with predictions of zero.
  predicate SegmentCoded(cfg: seq<BlockConfig>, comps: nat, mcus: seq<Blocks>)
    requires ConfigValid(cfg, comps)
  {
    BlocksFit(cfg, mcus) && McusCoded(cfg, mcus, Zero(comps))
  }

  function SegmentBytes(cfg: seq<BlockConfig>, comps: nat, mcus: seq<Blocks>): seq<Byte>
    requires ConfigValid(cfg, comps) && SegmentCoded(cfg, comps, mcus)
  {
    Stuff(Pack(McusBits(cfg, mcus, Zero(comps))))
  }

  predicate ScanCoded(cfg: seq<BlockConfig>, comps: nat, interval: nat, mcus: seq<Blocks>)
    requires ConfigValid(cfg, comps)
    decreases |mcus|
  {
    var n := FirstPart(interval, |mcus|);
    SegmentCoded(cfg, comps, mcus[..n]) && (n < |mcus| ==> ScanCoded(cfg, comps, interval, mcus[n..]))
  }

  // The bytes of a scan, from a segment on that is preceded by restart marker number num - 1.
  function ScanBytes(cfg: seq<BlockConfig>, comps: nat, interval: nat, mcus: seq<Blocks>, num: nat): seq<Byte>
    requires ConfigValid(cfg, comps) && ScanCoded(cfg, comps, interval, mcus) && num < 8
    decreases |mcus|
  {
    var n := FirstPart(interval, |mcus|);
    var segment := SegmentBytes(cfg, comps, mcus[..n]);
    if n == |mcus| then segment
    else segment + (RestartBytes(num) + ScanBytes(cfg, comps, interval, mcus[n..], (num + 1) % 8))
  }

  // The state at the beginning of a segment.
  function StateAt(d: seq<Byte>, pos: nat, comps: nat, togo: nat, num: nat): Logical {
    Logical(Segment(DataBits(d, pos), FirstMarker(d, pos), false, num), togo, Zero(comps))
  }

  lemma {:induction false} StepsCompose(d: seq<Byte>, cfg: seq<BlockConfig>, interval: nat, l: Logical, m: nat, n: nat)
    requires ConfigValid(cfg, |l.dc|) && Steps(d, cfg, interval, l, m).Some?
    ensures var before := Steps(d, cfg, interval, l, m).value;
            var after := Steps(d, cfg, interval, before.1, n);
            Steps(d, cfg, interval, l, m + n)
            == if after.None? then None else Some((before.0 + after.value.0, after.value.1))
    decreases n
  {
    hide Step, ConfigValid;
    var before := Steps(d, cfg, interval, l, m).value;
    if n == 0 {
      assert before.0 + [] == before.0;
    } else {
      StepsCompose(d, cfg, interval, l, m, n - 1);
      assert m + n - 1 == m + (n - 1);
      var mid := Steps(d, cfg, interval, before.1, n - 1);
      if mid.Some? {
        StepKeepsComps(d, cfg, interval, mid.value.1);
        var s := Step(d, cfg, interval, mid.value.1);
        if s.Some? {
          ConcatAssoc(before.0, mid.value.0, [s.value.0]);
        }
      }
    }
  }

  // A restart that is due may be taken before counting the steps.
  lemma {:induction false} StepsAfterRestart(d: seq<Byte>, cfg: seq<BlockConfig>, interval: nat, l: Logical, m: Logical,
                                             n: nat)
    requires ConfigValid(cfg, |l.dc|) && |m.dc| == |l.dc| && n >= 1
    requires AfterRestart(d, interval, l) == Some(m) && AfterRestart(d, interval, m) == Some(m)
    ensures Steps(d, cfg, interval, l, n) == Steps(d, cfg, interval, m, n)
    decreases n
  {
    hide ConfigValid, AfterRestart, DecodeStep;
    if n > 1 {
      StepsAfterRestart(d, cfg, interval, l, m, n - 1);
    } else {
      assert Steps(d, cfg, interval, l, 0) == Some(([], l)) && Steps(d, cfg, interval, m, 0) == Some(([], m));
    }
  }

  // At every MCU the segment that it belongs to is closed.
  ghost predicate AllClosed(d: seq<Byte>, cfg: seq<BlockConfig>, interval: nat, l: Logical, n: nat)
    requires ConfigValid(cfg, |l.dc|)
  {
    forall j | 0 <= j < n ::
      var st := Steps(d, cfg, interval, l, j); st.Some? && Closed(d, interval, st.value.1)
  }

  lemma InsideClosed(d: seq<Byte>, cfg: seq<BlockConfig>, interval: nat, l: Logical, n: nat)
    requires ConfigValid(cfg, |l.dc|) && l.seg.ahead.Some? && (interval == 0 || n <= l.restartsToGo)
    requires forall j | 0 <= j <= n ::
               var st := Steps(d, cfg, interval, l, j); st.Some? && Inside(l, st.value.1, interval, j)
    ensures AllClosed(d, cfg, interval, l, n)
  {
    hide Steps, ConfigValid, NextSegment;
  }

  // The first segment: its MCUs, and the state at the marker behind it.
  lemma FirstSegment(d: seq<Byte>, pos: nat, cfg: seq<BlockConfig>, comps: nat, interval: nat, mcus: seq<Blocks>,
                     togo: nat, num: nat, code: Byte, after: nat)
    requires ConfigValid(cfg, comps) && NeedsAgree(cfg) && SegmentCoded(cfg, comps, mcus)
    requires BytesAt(d, pos, SegmentBytes(cfg, comps, mcus))
    requires MarkerAt(d, pos + |SegmentBytes(cfg, comps, mcus)|, code, after)
    requires interval == 0 || |mcus| <= togo < BUF_MODULUS
    ensures var l := StateAt(d, pos, comps, togo, num);
            var st := Steps(d, cfg, interval, l, |mcus|);
            && st.Some? && StoresAll(st.value.0, cfg, mcus) && Inside(l, st.value.1, interval, |mcus|)
            && l.seg.ahead == Some(Marker(code, after)) && AllClosed(d, cfg, interval, l, |mcus|)
  {
    hide McusBits, StoresAll, NeedsAgree, ConfigValid, Steps, Tracks, McusCoded, BlocksFit, AllClosed;
    var bits := McusBits(cfg, mcus, Zero(comps));
    var pad := SegmentReads(d, pos, bits, code, after);
    var l := StateAt(d, pos, comps, togo, num);
    TracksItself(cfg, Zero(comps));
    SegmentSteps(d, cfg, interval, l, mcus, Zero(comps), Ones(pad));
    InsideClosed(d, cfg, interval, l, |mcus|);
  }

  lemma TracksItself(cfg: seq<BlockConfig>, preds: seq<int>)
    ensures Tracks(cfg, preds, preds)
  {}

  // Decoding a scan gives back what was encoded: every MCU's blocks, restart markers passed.
  lemma {:induction false} ScanRoundTrip(d: seq<Byte>, pos: nat, cfg: seq<BlockConfig>, comps: nat, interval: nat,
                                         mcus: seq<Blocks>, togo: nat, num: nat, code: Byte, after: nat)
    requires ConfigValid(cfg, comps) && NeedsAgree(cfg) && ScanCoded(cfg, comps, interval, mcus) && num < 8
    requires BytesAt(d, pos, ScanBytes(cfg, comps, interval, mcus, num))
    requires MarkerAt(d, pos + |ScanBytes(cfg, comps, interval, mcus, num)|, code, after)
    requires interval < BUF_MODULUS && (interval != 0 ==> togo == interval)
    ensures var l := StateAt(d, pos, comps, togo, num);
            var st := Steps(d, cfg, interval, l, |mcus|);
            st.Some? && StoresAll(st.value.0, cfg, mcus) && AllClosed(d, cfg, interval, l, |mcus|)
    decreases |mcus|
  {
    hide SegmentBytes, SegmentCoded, StoresAll, NeedsAgree, ConfigValid, Steps, AllClosed, BytesAt, MarkerAt;
    var n := FirstPart(interval, |mcus|);
    if n == |mcus| {
      assert mcus[..n] == mcus;
      FirstSegment(d, pos, cfg, comps, interval, mcus, togo, num, code, after);
    } else {
      RestartedScan(d, pos, cfg, comps, interval, mcus, togo, num, code, after, n);
    }
  }

  lemma RestartTaken(d: seq<Byte>, pos: nat, comps: nat, interval: nat, togo: nat, num: nat, m: Logical, next: nat)
    requires num < 8 && interval != 0
    requires Inside(StateAt(d, pos, comps, togo, num), m, interval, togo)
    requires FirstMarker(d, pos) == Some(Marker(M_RST0 + num, next))
    ensures AfterRestart(d, interval, m) == Some(StateAt(d, next, comps, interval, (num + 1) % 8))
  {
    hide DataBits, FirstMarker;
  }

  lemma {:induction false} RestartedScan(d: seq<Byte>, pos: nat, cfg: seq<BlockConfig>, comps: nat, interval: nat,
                                         mcus: seq<Blocks>, togo: nat, num: nat, code: Byte, after: nat, n: nat)
    requires ConfigValid(cfg, comps) && NeedsAgree(cfg) && ScanCoded(cfg, comps, interval, mcus) && num < 8
    requires BytesAt(d, pos, ScanBytes(cfg, comps, interval, mcus, num))
    requires MarkerAt(d, pos + |ScanBytes(cfg, comps, interval, mcus, num)|, code, after)
    requires interval < BUF_MODULUS && togo == interval != 0 && n == FirstPart(interval, |mcus|) < |mcus|
    ensures var l := StateAt(d, pos, comps, togo, num);
            var st := Steps(d, cfg, interval, l, |mcus|);
            st.Some? && StoresAll(st.value.0, cfg, mcus) && AllClosed(d, cfg, interval, l, |mcus|)
    decreases |mcus|, 0
  {
    hide SegmentBytes, SegmentCoded, StoresAll, NeedsAgree, ConfigValid, Steps, AllClosed, BytesAt, MarkerAt, Inside,
         AfterRestart, RestartBytes;
    var front, rest := mcus[..n], mcus[n..];
    var segment, marker := SegmentBytes(cfg, comps, front), RestartBytes(num);
    var tail := ScanBytes(cfg, comps, interval, rest, (num + 1) % 8);
    BytesBoth(d, pos, segment, marker + tail);
    BytesBoth(d, pos + |segment|, marker, tail);
    RestartMarker(d, pos + |segment|, num);
    var next := pos + |segment| + 2;
    assert |marker| == 2;
    FirstSegment(d, pos, cfg, comps, interval, front, togo, num, M_RST0 + num, next);
    ScanRoundTrip(d, next, cfg, comps, interval, rest, interval, (num + 1) % 8, code, after);
    JoinScan(d, pos, cfg, comps, interval, mcus, num, n, next);
  }

  // A segment and the rest of the scan.
  lemma JoinScan(d: seq<Byte>, pos: nat, cfg: seq<BlockConfig>, comps: nat, interval: nat, mcus: seq<Blocks>, num: nat,
                 n: nat, next: nat)
    requires ConfigValid(cfg, comps) && num < 8 && n == interval != 0 && n < |mcus|
    requires FirstMarker(d, pos) == Some(Marker(M_RST0 + num, next))
    requires var l := StateAt(d, pos, comps, interval, num);
             var st := Steps(d, cfg, interval, l, n);
             && st.Some? && StoresAll(st.value.0, cfg, mcus[..n]) && Inside(l, st.value.1, interval, n)
             && AllClosed(d, cfg, interval, l, n)
    requires var l := StateAt(d, next, comps, interval, (num + 1) % 8);
             var st := Steps(d, cfg, interval, l, |mcus| - n);
             st.Some? && StoresAll(st.value.0, cfg, mcus[n..]) && AllClosed(d, cfg, interval, l, |mcus| - n)
    ensures var l := StateAt(d, pos, comps, interval, num);
            var st := Steps(d, cfg, interval, l, |mcus|);
            st.Some? && StoresAll(st.value.0, cfg, mcus) && AllClosed(d, cfg, interval, l, |mcus|)
  {
    hide ConfigValid, Steps, AfterRestart, Inside, StoresAll, StateAt, AllClosed;
    var l, l' := StateAt(d, pos, comps, interval, num), StateAt(d, next, comps, interval, (num + 1) % 8);
    StateComps(d, pos, comps, interval, num);
    StateComps(d, next, comps, interval, (num + 1) % 8);
    var m := Steps(d, cfg, interval, l, n).value.1;
    RestartTaken(d, pos, comps, interval, interval, num, m, next);
    NotDue(d, next, comps, interval, (num + 1) % 8);
    var k := |mcus| - n;
    StepsAfterRestart(d, cfg, interval, m, l', k);
    StepsCompose(d, cfg, interval, l, n, k);
    assert n + k == |mcus|;
    JoinStores(Steps(d, cfg, interval, l, n).value.0, Steps(d, cfg, interval, l', k).value.0, cfg, mcus, n);
    JoinClosed(d, cfg, interval, l, m, l', n, k);
  }

  lemma JoinStores(a: seq<seq<Write>>, b: seq<seq<Write>>, cfg: seq<BlockConfig>, mcus: seq<Blocks>, n: nat)
    requires n <= |mcus| && StoresAll(a, cfg, mcus[..n]) && StoresAll(b, cfg, mcus[n..])
    ensures StoresAll(a + b, cfg, mcus)
  {
    hide StoresMcu;
  }

  lemma JoinClosed(d: seq<Byte>, cfg: seq<BlockConfig>, interval: nat, l: Logical, m: Logical, l': Logical, n: nat,
                   k: nat)
    requires ConfigValid(cfg, |l.dc|) && |l'.dc| == |m.dc| == |l.dc|
    requires Steps(d, cfg, interval, l, n).Some? && Steps(d, cfg, interval, l, n).value.1 == m
    requires AfterRestart(d, interval, m) == Some(l') && AfterRestart(d, interval, l') == Some(l')
    requires AllClosed(d, cfg, interval, l, n) && AllClosed(d, cfg, interval, l', k)
    ensures AllClosed(d, cfg, interval, l, n + k)
  {
    hide ConfigValid, Steps, AfterRestart, Closed;
    forall j | 0 <= j < n + k
      ensures Steps(d, cfg, interval, l, j).Some? && Closed(d, interval, Steps(d, cfg, interval, l, j).value.1)
    {
      if j >= n {
        ClosedAfter(d, cfg, interval, m, l', j - n);
        StepsCompose(d, cfg, interval, l, n, j - n);
        assert n + (j - n) == j;
      }
    }
  }

  lemma StateComps(d: seq<Byte>, pos: nat, comps: nat, togo: nat, num: nat)
    ensures |StateAt(d, pos, comps, togo, num).dc| == comps
  {}

  lemma NotDue(d: seq<Byte>, pos: nat, comps: nat, interval: nat, num: nat)
    requires interval != 0
    ensures var l := StateAt(d, pos, comps, interval, num); AfterRestart(d, interval, l) == Some(l)
  {}

  lemma ClosedAfter(d: seq<Byte>, cfg: seq<BlockConfig>, interval: nat, m: Logical, l: Logical, j: nat)
    requires ConfigValid(cfg, |l.dc|) && |m.dc| == |l.dc|
    requires AfterRestart(d, interval, m) == Some(l) && AfterRestart(d, interval, l) == Some(l)
    requires var st := Steps(d, cfg, interval, l, j); st.Some? && Closed(d, interval, st.value.1)
    ensures var st := Steps(d, cfg, interval, m, j); st.Some? && Closed(d, interval, st.value.1)
  {
    if j > 0 {
      StepsAfterRestart(d, cfg, interval, m, l, j);
    }
  }

  // What the blocks of an MCU hold in natural order, parts that are not needed left zero.
  ghost predicate Holding(img: Image, cfg: seq<BlockConfig>, blocks: Blocks) {
    && |blocks| == |cfg| && ImageShape(img, |cfg|)
    && forall b, i | 0 <= b < |cfg| && 0 <= i < DCTSIZE2 :: img[b][i] == Stored(cfg[b], blocks[b], i, 0)
  }

  lemma HoldingAll(images: seq<Image>, wss: seq<seq<Write>>, cfg: seq<BlockConfig>, mcus: seq<Blocks>)
    requires |images| == |wss| && StoresAll(wss, cfg, mcus)
    requires forall k | 0 <= k < |wss| :: Shows(images[k], |cfg|, wss[k])
    ensures |images| == |mcus| && forall k | 0 <= k < |mcus| :: Holding(images[k], cfg, mcus[k])
  {
    forall k | 0 <= k < |mcus| ensures Holding(images[k], cfg, mcus[k]) {
      assert StoresMcu(wss[k], cfg, mcus[k], 0) && Shows(images[k], |cfg|, wss[k]);
      hide Stored, Last;
    }
  }

  // The decoder, started where an encoded scan begins, delivers the blocks that were encoded, over
  // any cut of the stream into deliveries, and comes to the end once everything has arrived.
  method DecodeEncodedScan(rd: Reader, cfg: seq<BlockConfig>, dcTbls: seq<DerivedTable>, acTbls: seq<DerivedTable>,
                           comps: nat, interval: nat, mcu: array2<int>, n: nat, deliveries: seq<nat>,
                           ghost mcus: seq<Blocks>, ghost code: Byte, ghost after: nat)
    returns (ok: bool, ghost images: seq<Image>)
    requires rd.Valid() && rd.unreadMarker == 0
    requires ConfigValid(cfg, comps) && TablesReady(cfg, dcTbls, acTbls) && NeedsAgree(cfg) && interval < BUF_MODULUS
    requires mcu.Length0 == |cfg| && mcu.Length1 == DCTSIZE2
    requires n == |mcus| && ScanCoded(cfg, comps, interval, mcus)
    requires var bytes := ScanBytes(cfg, comps, interval, mcus, rd.nextRestartNum);
             BytesAt(rd.data, rd.pos, bytes) && MarkerAt(rd.data, rd.pos + |bytes|, code, after)
    modifies rd, mcu
    ensures ok ==> |images| == n && forall k | 0 <= k < n :: Holding(images[k], cfg, mcus[k])
    ensures rd.avail == |rd.data| ==> ok
  {
    hide ConfigValid, TablesReady, Step, Closed, Reader.Seg, Shows, ScanCoded, ScanBytes, BytesAt, MarkerAt, NeedsAgree,
         Pending, Holding, StoresAll, AllClosed;
    ghost var d, pos, num := rd.data, rd.pos, rd.nextRestartNum;
    var dec := new HuffDecoder(rd, cfg, dcTbls, acTbls, comps, interval);
    ghost var l := dec.Abs();
    StartState(d, rd.Load(), comps, interval, num);
    assert l == StateAt(d, pos, comps, interval, num);
    ScanRoundTrip(d, pos, cfg, comps, interval, mcus, interval, num, code, after);
    var done;
    ghost var wss;
    ok, done, wss, images := dec.DecodeMcusInPieces(mcu, n, deliveries);
    if ok {
      HoldingAll(images, wss, cfg, mcus);
    } else {
      ClosedAt(d, cfg, interval, l, n, done);
    }
  }

  lemma ClosedAt(d: seq<Byte>, cfg: seq<BlockConfig>, interval: nat, l: Logical, n: nat, j: nat)
    requires ConfigValid(cfg, |l.dc|) && AllClosed(d, cfg, interval, l, n) && j < n
    ensures var st := Steps(d, cfg, interval, l, j); st.Some? && Closed(d, interval, st.value.1)
  {}

  lemma StartState(d: seq<Byte>, w: Work, comps: nat, togo: nat, num: nat)
    ensures Logical(Segment(PastBuffer(d, w, 0), Ahead(d, w.pos, 0), false, num), togo, ZeroPredictions(comps))
         == StateAt(d, w.pos, comps, togo, num)
  {
    hide DataBits, FirstMarker;
  }
}
