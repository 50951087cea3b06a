/**
  The sequential Huffman entropy decoder (decode_mcu of jdhuff.c): one call decodes one
  MCU, and a call that runs out of input changes nothing that a retry would notice.

  The reference is Step, a function of the whole stream and of the decoder's logical
  state: it says which coefficients an MCU assigns and what the state is afterwards,
  without any notion of buffers or deliveries.
  */
module SequentialDecoder {
  import opened BitStrings
  import opened EntropyStream
  import opened HuffmanCode
  import opened HuffmanTable
  import opened BitReader
  import opened Coefficients
  import opened Options

  // ---- what one MCU means ----

  // What the scan says about one block of the MCU.
  datatype BlockConfig = BlockConfig(dc: Spec, ac: Spec, comp: nat, dcNeeded: bool, acNeeded: bool) {
    predicate Valid(comps: nat) {
      && dc.Shape() && dc.Legal() && DcSymbols(dc)
      && ac.Shape() && ac.Legal()
      && comp < comps
    }
  }

  // The assignment of one coefficient.
  datatype Write = Write(block: nat, index: nat, value: int)

  // A DC difference: bits consumed, and its value.
  function DcDiff(t: Spec, s: seq<Bit>, pos: nat): (r: (nat, int))
    requires t.Shape() && t.Legal() && DcSymbols(t)
  {
    var (len, size) := t.Decode(s, pos);
    DcSizeBound(t, s, pos);
    if size == 0 then (len, 0) else (len + size, Extend(Value(s, pos + len, size), size))
  }

  // The AC coefficients from k on: the assignments, and the position after them.
  function AcScan(t: Spec, s: seq<Bit>, pos: nat, k: nat, blk: nat, needed: bool): (seq<Write>, nat)
    requires t.Shape() && t.Legal()
    decreases 80 - k
  {
    if k >= DCTSIZE2 then ([], pos)
    else
      var (len, sym) := t.Decode(s, pos);
      var r, n := sym / 16, sym % 16;
      if n != 0 then
        var v := Extend(Value(s, pos + len, n), n);
        var (ws, end) := AcScan(t, s, pos + len + n, k + r + 1, blk, needed);
        (if needed then [Write(blk, NaturalOrder(k + r), ToCoef(v))] + ws else ws, end)
      else if r != 15 then ([], pos + len)
      else AcScan(t, s, pos + len, k + 16, blk, needed)
  }

  // Blocks blkn.. of an MCU: assignments, new predictions, position after them.
  datatype McuResult = McuResult(writes: seq<Write>, dc: seq<int>, pos: nat)

  predicate ConfigValid(cfg: seq<BlockConfig>, comps: nat) {
    forall b | 0 <= b < |cfg| :: cfg[b].Valid(comps)
  }

  // One block's DC part: assignments, predictions, position.
  function DcPart(cfg: BlockConfig, blkn: nat, s: seq<Bit>, pos: nat, dc: seq<int>): McuResult
    requires cfg.Valid(|dc|)
  {
    var (len, diff) := DcDiff(cfg.dc, s, pos);
    if cfg.dcNeeded then
      var v := diff + dc[cfg.comp];
      McuResult([Write(blkn, 0, ToCoef(v))], dc[cfg.comp := v], pos + len)
    else McuResult([], dc, pos + len)
  }

  // One block: the DC part, then the AC scan.
  function BlockPart(cfg: BlockConfig, blkn: nat, s: seq<Bit>, pos: nat, dc: seq<int>): McuResult
    requires cfg.Valid(|dc|)
  {
    var d := DcPart(cfg, blkn, s, pos, dc);
    var (ws, end) := AcScan(cfg.ac, s, d.pos, 1, blkn, cfg.acNeeded);
    McuResult(d.writes + ws, d.dc, end)
  }

  function Mcu(cfg: seq<BlockConfig>, blkn: nat, s: seq<Bit>, pos: nat, dc: seq<int>): (r: McuResult)
    requires blkn <= |cfg| && ConfigValid(cfg, |dc|)
    ensures |r.dc| == |dc|
    decreases |cfg| - blkn
  {
    if blkn == |cfg| then McuResult([], dc, pos)
    else
      var part := BlockPart(cfg[blkn], blkn, s, pos, dc);
      var rest := Mcu(cfg, blkn + 1, s, part.pos, part.dc);
      McuResult(part.writes + rest.writes, rest.dc, rest.pos)
  }

  lemma {:induction false} SymbolFromTable(t: Spec, s: seq<Bit>, pos: nat, l: nat)
    requires t.Shape() && t.Legal() && t.LegalStart(s, pos, l)
    ensures var r := t.DecodeFrom(s, pos, l);
            r == (17, 0) || exists p :: 0 <= p < t.Index(17) && p < 256 && r.1 == t.huffval[p]
    decreases 17 - l
  {
    if l < 17 {
      t.Advance(s, pos, l);
      if Value(s, pos, l) > t.MaxCode(l) {
        SymbolFromTable(t, s, pos, l + 1);
      } else {
        t.IndexMonotone(l + 1, 17);
        var p := t.Index(l) + Value(s, pos, l) - t.First(l);
        assert 0 <= p < t.Index(17) && t.DecodeFrom(s, pos, l).1 == t.huffval[p];
      }
    }
  }

  lemma DcSizeBound(t: Spec, s: seq<Bit>, pos: nat)
    requires t.Shape() && t.Legal() && DcSymbols(t)
    ensures t.Decode(s, pos).1 <= 15
  {
    SymbolFromTable(t, s, pos, 1);
  }

  // ---- coefficient storage ----

  // What coefficient (b, i) holds after some assignments, if it held x before.
  function Last(ws: seq<Write>, b: nat, i: nat, x: int): int {
    if ws == [] then x
    else
      var w := ws[|ws| - 1];
      if w.block == b && w.index == i then w.value else Last(ws[..|ws| - 1], b, i, x)
  }

  lemma {:induction false} LastAppends(ws: seq<Write>, vs: seq<Write>, b: nat, i: nat, x: int)
    ensures Last(ws + vs, b, i, x) == Last(vs, b, i, Last(ws, b, i, x))
    decreases |vs|
  {
    if vs == [] {
      assert ws + vs == ws;
    } else {
      assert (ws + vs)[..|ws + vs| - 1] == ws + vs[..|vs| - 1];
      LastAppends(ws, vs[..|vs| - 1], b, i, x);
    }
  }

  // Repeating assignments from their start wipes out what an abandoned attempt left.
  lemma {:induction false} RetryIsHarmless(ws: seq<Write>, n: nat, b: nat, i: nat, x: int)
    requires n <= |ws|
    ensures Last(ws, b, i, Last(ws[..n], b, i, x)) == Last(ws, b, i, x)
    decreases |ws|
  {
    if ws != [] {
      var front := ws[..|ws| - 1];
      if n == |ws| {
        assert ws[..n] == ws;
        assert Last(ws, b, i, Last(ws, b, i, x)) == Last(ws, b, i, x) by {
          RetryIsHarmless(front, |front|, b, i, x);
          assert front[..|front|] == front;
        }
      } else {
        assert ws[..n] == front[..n];
        RetryIsHarmless(front, n, b, i, x);
      }
    }
  }

  type Image = seq<seq<int>>

  ghost function Snapshot(mcu: array2<int>): (r: Image)
    reads mcu
    ensures |r| == mcu.Length0
    ensures forall b | 0 <= b < mcu.Length0 :: |r[b]| == mcu.Length1
    ensures forall b, i | 0 <= b < mcu.Length0 && 0 <= i < mcu.Length1 :: r[b][i] == mcu[b, i]
  {
    seq(mcu.Length0, b requires 0 <= b < mcu.Length0 reads mcu =>
      seq(mcu.Length1, i requires 0 <= i < mcu.Length1 reads mcu => mcu[b, i]))
  }

  predicate ImageShape(base: Image, blocks: nat) {
    |base| == blocks && forall b | 0 <= b < blocks :: |base[b]| == DCTSIZE2
  }

  // The coefficient blocks hold base, overlaid with the assignments ws.
  ghost predicate Holds(mcu: array2<int>, base: Image, ws: seq<Write>)
    requires mcu.Length1 == DCTSIZE2 && ImageShape(base, mcu.Length0)
    reads mcu
  {
    forall b, i | 0 <= b < mcu.Length0 && 0 <= i < DCTSIZE2 :: mcu[b, i] == Last(ws, b, i, base[b][i])
  }

  method Assign(mcu: array2<int>, b: nat, i: Index, v: int, ghost base: Image, ghost ws: seq<Write>)
    requires mcu.Length1 == DCTSIZE2 && ImageShape(base, mcu.Length0) && b < mcu.Length0
    requires Holds(mcu, base, ws)
    modifies mcu
    ensures Holds(mcu, base, ws + [Write(b, i, v)])
  {
    mcu[b, i] := v;
  }

  // ---- decoding ----

  // The cases of one round of the AC scan.
  lemma AcStep(t: Spec, s: seq<Bit>, pos: nat, k: nat, blk: nat, needed: bool)
    requires t.Shape() && t.Legal() && k < DCTSIZE2
    ensures var (len, sym) := t.Decode(s, pos);
            var scan, run, n := AcScan(t, s, pos, k, blk, needed), sym / 16, sym % 16;
            && k + run < 80
            && (n != 0 ==>
                  var rest := AcScan(t, s, pos + len + n, k + run + 1, blk, needed);
                  var v := ToCoef(Extend(Value(s, pos + len, n), n));
                  scan == (if needed then [Write(blk, NaturalOrder(k + run), v)] + rest.0 else rest.0, rest.1))
            && (n == 0 && run == 15 ==> scan == AcScan(t, s, pos + len, k + 16, blk, needed))
            && (n == 0 && run != 15 ==> scan == ([], pos + len))
  {
    hide Spec.Decode, Value, ToCoef, Extend, NaturalOrder;
  }

  lemma AcScanEnds(t: Spec, s: seq<Bit>, pos: nat, k: nat, blk: nat, needed: bool)
    requires t.Shape() && t.Legal() && k >= DCTSIZE2
    ensures AcScan(t, s, pos, k, blk, needed) == ([], pos)
  {}

  // One round of the AC loop.  Assignments made so far and those still to come always add
  // up to the same list.
  method DecodeCoef(rd: Reader, w: Work, tbl: DerivedTable, k: nat, blkn: nat, needed: bool, mcu: array2<int>,
                    ghost c: Cursor, ghost base: Image, ghost done: seq<Write>)
    returns (ok: bool, r: Work, ghost c': Cursor, k': nat, ghost done': seq<Write>)
    requires rd.Reading(w, c) && tbl.Derived() && 1 <= k < DCTSIZE2
    requires mcu.Length1 == DCTSIZE2 && ImageShape(base, mcu.Length0) && blkn < mcu.Length0
    requires Holds(mcu, base, done)
    modifies rd`unreadMarker, rd`insufficientData, mcu
    ensures rd.Valid() && MarkerKept(old(rd.unreadMarker), rd.unreadMarker)
    ensures rd.unreadMarker == 0 ==> rd.insufficientData == old(rd.insufficientData)
    ensures Holds(mcu, base, done')
    ensures !ok ==> rd.Suspended(c.ahead, old(rd.insufficientData)) && done' == done
    ensures ok ==> rd.Reading(r, c') && c'.s == c.s && c'.ahead == c.ahead && k < k' <= 80
    ensures ok ==> var (rest, end) := AcScan(tbl.pub, c.s, c'.k, k', blkn, needed);
                   var scan := AcScan(tbl.pub, c.s, c.k, k, blkn, needed);
                   done' + rest == done + scan.0 && end == scan.1
  {
    hide Reader.Reading, DerivedTable.Derived, Holds, Spec.Decode, Value, ToCoef, Extend, AcScan, NaturalOrder;
    TableBounds(tbl);
    k', done' := k, done;
    AcStep(tbl.pub, c.s, c.k, k, blkn, needed);
    var sym;
    ok, sym, r, c' := rd.HuffDecode(w, tbl, c);
    if !ok {
      return;
    }
    var run, n := sym / 16, sym % 16;
    if n != 0 {
      k' := k + run;
      var x;
      ok, x, r, c' := rd.GetBits(r, n, c');
      if !ok {
        return;
      }
      if needed {
        var v := ToCoef(Extend(x, n));
        Assign(mcu, blkn, NaturalOrder(k'), v, base, done);
        done' := done + [Write(blkn, NaturalOrder(k'), v)];
        ConcatAssoc(done, [Write(blkn, NaturalOrder(k'), v)], AcScan(tbl.pub, c.s, c'.k, k' + 1, blkn, needed).0);
      }
      k' := k' + 1;
    } else if run == 15 {
      k' := k + 16;
    } else {
      k' := 80;   // end of block
      AcScanEnds(tbl.pub, c.s, c'.k, k', blkn, needed);
    }
  }

  // The AC loop of decode_mcu for one block.
  method DecodeAc(rd: Reader, w: Work, tbl: DerivedTable, blkn: nat, needed: bool, mcu: array2<int>,
                  ghost c: Cursor, ghost base: Image, ghost done: seq<Write>)
    returns (ok: bool, r: Work, ghost c': Cursor, ghost done': seq<Write>)
    requires rd.Reading(w, c) && tbl.Derived()
    requires mcu.Length1 == DCTSIZE2 && ImageShape(base, mcu.Length0) && blkn < mcu.Length0
    requires Holds(mcu, base, done)
    modifies rd`unreadMarker, rd`insufficientData, mcu
    ensures rd.Valid() && MarkerKept(old(rd.unreadMarker), rd.unreadMarker)
    ensures rd.unreadMarker == 0 ==> rd.insufficientData == old(rd.insufficientData)
    ensures Holds(mcu, base, done')
    ensures done' <= done + AcScan(tbl.pub, c.s, c.k, 1, blkn, needed).0
    ensures !ok ==> rd.Suspended(c.ahead, old(rd.insufficientData))
    ensures ok ==> rd.Reading(r, c') && c'.s == c.s && c'.ahead == c.ahead
    ensures ok ==> var (ws, end) := AcScan(tbl.pub, c.s, c.k, 1, blkn, needed);
                   done' == done + ws && c'.k == end
  {
    assert rd.Valid();
    hide Reader.Reading, DerivedTable.Derived, Holds, AcScan;
    TableBounds(tbl);
    ok, r, c', done' := true, w, c, done;
    var k := 1;
    while k < DCTSIZE2
      invariant 1 <= k <= 80
      invariant rd.Valid() && rd.Reading(r, c') && MarkerKept(old(rd.unreadMarker), rd.unreadMarker)
      invariant rd.unreadMarker == 0 ==> rd.insufficientData == old(rd.insufficientData)
      invariant c'.s == c.s && c'.ahead == c.ahead
      invariant Holds(mcu, base, done')
      invariant done' + AcScan(tbl.pub, c.s, c'.k, k, blkn, needed).0
          == done + AcScan(tbl.pub, c.s, c.k, 1, blkn, needed).0
      invariant AcScan(tbl.pub, c.s, c'.k, k, blkn, needed).1 == AcScan(tbl.pub, c.s, c.k, 1, blkn, needed).1
      decreases 80 - k
    {
      ok, r, c', k, done' := DecodeCoef(rd, r, tbl, k, blkn, needed, mcu, c', base, done');
      if !ok {
        return;
      }
    }
    AcScanEnds(tbl.pub, c.s, c'.k, k, blkn, needed);
  }

  // The DC part of one block.
  method DecodeDc(rd: Reader, w: Work, tbl: DerivedTable, ghost cfg: BlockConfig, blkn: nat,
                  comp: nat, needed: bool, dc: seq<int>, mcu: array2<int>,
                  ghost c: Cursor, ghost base: Image, ghost done: seq<Write>)
    returns (ok: bool, r: Work, dc': seq<int>, ghost c': Cursor, ghost done': seq<Write>)
    requires rd.Reading(w, c) && tbl.Derived() && tbl.pub == cfg.dc
    requires cfg.Valid(|dc|) && comp == cfg.comp && needed == cfg.dcNeeded
    requires mcu.Length1 == DCTSIZE2 && ImageShape(base, mcu.Length0) && blkn < mcu.Length0
    requires Holds(mcu, base, done)
    modifies rd`unreadMarker, rd`insufficientData, mcu
    ensures rd.Valid() && MarkerKept(old(rd.unreadMarker), rd.unreadMarker)
    ensures rd.unreadMarker == 0 ==> rd.insufficientData == old(rd.insufficientData)
    ensures Holds(mcu, base, done')
    ensures !ok ==> rd.Suspended(c.ahead, old(rd.insufficientData)) && done' == done
    ensures ok ==> rd.Reading(r, c') && c'.s == c.s && c'.ahead == c.ahead
    ensures ok ==> var part := DcPart(cfg, blkn, c.s, c.k, dc);
                   done' == done + part.writes && dc' == part.dc && c'.k == part.pos
  {
    hide Reader.Reading, DerivedTable.Derived, Holds, Spec.Decode, Value, ToCoef, Extend;
    dc', done' := dc, done;
    DcSizeBound(cfg.dc, c.s, c.k);
    var size;
    ok, size, r, c' := rd.HuffDecode(w, tbl, c);
    if !ok {
      return;
    }
    var diff := 0;
    if size != 0 {
      var x;
      ok, x, r, c' := rd.GetBits(r, size, c');
      if !ok {
        return;
      }
      diff := Extend(x, size);
    }
    if needed {
      var v := diff + dc[comp];
      dc' := dc[comp := v];
      Assign(mcu, blkn, 0, ToCoef(v), base, done);
      done' := done + [Write(blkn, 0, ToCoef(v))];
    } else {
      assert done == done + [];
    }
  }

  ghost predicate TablesReady(cfg: seq<BlockConfig>, dcTbls: seq<DerivedTable>, acTbls: seq<DerivedTable>)
  {
    && |dcTbls| == |acTbls| == |cfg|
    && forall b | 0 <= b < |cfg| ::
         && dcTbls[b].Derived() && dcTbls[b].pub == cfg[b].dc
         && acTbls[b].Derived() && acTbls[b].pub == cfg[b].ac
  }

  // One block of the MCU: the assignments add up with those still to come.
  method DecodeBlock(rd: Reader, w: Work, cfg: seq<BlockConfig>, dcTbl: DerivedTable, acTbl: DerivedTable, blkn: nat,
                     dc: seq<int>, mcu: array2<int>, ghost c: Cursor, ghost base: Image, ghost done: seq<Write>,
                     ghost full: McuResult)
    returns (ok: bool, r: Work, dc': seq<int>, ghost c': Cursor, ghost done': seq<Write>)
    requires rd.Reading(w, c) && blkn < |cfg| && ConfigValid(cfg, |dc|)
    requires dcTbl.Derived() && dcTbl.pub == cfg[blkn].dc && acTbl.Derived() && acTbl.pub == cfg[blkn].ac
    requires mcu.Length1 == DCTSIZE2 && ImageShape(base, mcu.Length0) && blkn < mcu.Length0
    requires Holds(mcu, base, done) && Remaining(full, done, Mcu(cfg, blkn, c.s, c.k, dc))
    modifies rd`unreadMarker, rd`insufficientData, mcu
    ensures rd.Valid() && MarkerKept(old(rd.unreadMarker), rd.unreadMarker)
    ensures rd.unreadMarker == 0 ==> rd.insufficientData == old(rd.insufficientData)
    ensures Holds(mcu, base, done') && done' <= full.writes
    ensures !ok ==> rd.Suspended(c.ahead, old(rd.insufficientData))
    ensures ok ==> rd.Reading(r, c') && c'.s == c.s && c'.ahead == c.ahead && |dc'| == |dc|
    ensures ok ==> Remaining(full, done', Mcu(cfg, blkn + 1, c.s, c'.k, dc'))
  {
    RemainingStep(full, done, cfg, blkn, c.s, c.k, dc);
    hide Reader.Reading, DerivedTable.Derived, Holds, AcScan, DcPart, BlockConfig.Valid, ConfigValid, Remaining, Mcu;
    var b := cfg[blkn];
    ghost var d := DcPart(b, blkn, c.s, c.k, dc);
    ghost var (ws, end) := AcScan(b.ac, c.s, d.pos, 1, blkn, b.acNeeded);
    ConcatAssoc(done, d.writes, ws);
    ok, r, dc', c', done' := DecodeDc(rd, w, dcTbl, b, blkn, b.comp, b.dcNeeded, dc, mcu, c, base, done);
    if !ok {
      return;
    }
    ok, r, c', done' := DecodeAc(rd, r, acTbl, blkn, b.acNeeded, mcu, c', base, done');
  }

  lemma BlockKeepsComps(cfg: BlockConfig, blkn: nat, s: seq<Bit>, pos: nat, dc: seq<int>)
    requires cfg.Valid(|dc|)
    ensures |BlockPart(cfg, blkn, s, pos, dc).dc| == |dc|
  {}

  // The loop of decode_mcu over the blocks of the MCU.
  method DecodeBlocks(rd: Reader, w: Work, cfg: seq<BlockConfig>, dcTbls: seq<DerivedTable>, acTbls: seq<DerivedTable>,
                      dc: seq<int>, mcu: array2<int>, ghost c: Cursor, ghost base: Image)
    returns (ok: bool, r: Work, dc': seq<int>, ghost c': Cursor, ghost done: seq<Write>)
    requires rd.Reading(w, c) && c.k == 0
    requires ConfigValid(cfg, |dc|) && TablesReady(cfg, dcTbls, acTbls)
    requires mcu.Length0 == |cfg| && mcu.Length1 == DCTSIZE2 && ImageShape(base, |cfg|)
    requires Holds(mcu, base, [])
    modifies rd`unreadMarker, rd`insufficientData, mcu
    ensures rd.Valid() && MarkerKept(old(rd.unreadMarker), rd.unreadMarker)
    ensures rd.unreadMarker == 0 ==> rd.insufficientData == old(rd.insufficientData)
    ensures Holds(mcu, base, done)
    ensures done <= Mcu(cfg, 0, c.s, 0, dc).writes
    ensures !ok ==> rd.Suspended(c.ahead, old(rd.insufficientData))
    ensures ok ==> rd.Reading(r, c') && c'.s == c.s && c'.ahead == c.ahead
    ensures ok ==> Mcu(cfg, 0, c.s, 0, dc) == McuResult(done, dc', c'.k)
  {
    hide Reader.Reading, Reader.Valid, ImageShape, TablesReady, Holds, Mcu, ConfigValid, Remaining, Snapshot, Last;
    ReadingValid(rd, w, c);
    ghost var full := Mcu(cfg, 0, c.s, 0, dc);
    RemainingStart(cfg, c.s, dc);
    ok, r, dc', c', done := true, w, dc, c, [];
    for blkn := 0 to |cfg|
      invariant rd.Valid() && rd.Reading(r, c') && MarkerKept(old(rd.unreadMarker), rd.unreadMarker)
      invariant rd.unreadMarker == 0 ==> rd.insufficientData == old(rd.insufficientData)
      invariant c'.s == c.s && c'.ahead == c.ahead && |dc'| == |dc|
      invariant Holds(mcu, base, done)
      invariant Remaining(full, done, Mcu(cfg, blkn, c.s, c'.k, dc'))
    {
      TableOf(cfg, dcTbls, acTbls, blkn);
      ok, r, dc', c', done := DecodeBlock(rd, r, cfg, dcTbls[blkn], acTbls[blkn], blkn, dc', mcu, c', base, done, full);
      if !ok {
        return;
      }
    }
    McuEnds(full, done, cfg, c.s, c'.k, dc');
  }

  lemma RemainingStep(full: McuResult, done: seq<Write>, cfg: seq<BlockConfig>, blkn: nat, s: seq<Bit>, pos: nat,
                      dc: seq<int>)
    requires blkn < |cfg| && ConfigValid(cfg, |dc|) && Remaining(full, done, Mcu(cfg, blkn, s, pos, dc))
    ensures cfg[blkn].Valid(|dc|) && cfg[blkn].ac.Shape() && cfg[blkn].ac.Legal()
    ensures var part := BlockPart(cfg[blkn], blkn, s, pos, dc);
            && |part.dc| == |dc|
            && Remaining(full, done + part.writes, Mcu(cfg, blkn + 1, s, part.pos, part.dc))
            && done + part.writes <= full.writes
  {
    McuStep(cfg, blkn, s, pos, dc);
    var part := BlockPart(cfg[blkn], blkn, s, pos, dc);
    var rest := Mcu(cfg, blkn + 1, s, part.pos, part.dc);
    hide Mcu, BlockPart, ConfigValid;
    ConcatAssoc(done, part.writes, rest.writes);
  }

  lemma McuStep(cfg: seq<BlockConfig>, blkn: nat, s: seq<Bit>, pos: nat, dc: seq<int>)
    requires blkn < |cfg| && ConfigValid(cfg, |dc|)
    ensures cfg[blkn].Valid(|dc|) && cfg[blkn].ac.Shape() && cfg[blkn].ac.Legal()
    ensures var part := BlockPart(cfg[blkn], blkn, s, pos, dc);
            && |part.dc| == |dc|
            && var rest := Mcu(cfg, blkn + 1, s, part.pos, part.dc);
               Mcu(cfg, blkn, s, pos, dc) == McuResult(part.writes + rest.writes, rest.dc, rest.pos)
  {
    BlockKeepsComps(cfg[blkn], blkn, s, pos, dc);
  }

  // done, followed by what is still to come, is the whole result.
  ghost predicate Remaining(full: McuResult, done: seq<Write>, rest: McuResult) {
    full.writes == done + rest.writes && full.dc == rest.dc && full.pos == rest.pos
  }

  lemma McuEnds(full: McuResult, done: seq<Write>, cfg: seq<BlockConfig>, s: seq<Bit>, pos: nat, dc: seq<int>)
    requires ConfigValid(cfg, |dc|) && Remaining(full, done, Mcu(cfg, |cfg|, s, pos, dc))
    ensures full == McuResult(done, dc, pos)
  {}

  lemma RemainingStart(cfg: seq<BlockConfig>, s: seq<Bit>, dc: seq<int>)
    requires ConfigValid(cfg, |dc|)
    ensures var full := Mcu(cfg, 0, s, 0, dc);
            Remaining(full, [], full)
  {}

  lemma TableOf(cfg: seq<BlockConfig>, dcTbls: seq<DerivedTable>, acTbls: seq<DerivedTable>, b: nat)
    requires TablesReady(cfg, dcTbls, acTbls) && b < |cfg|
    ensures |dcTbls| == |acTbls| == |cfg|
    ensures dcTbls[b].Derived() && dcTbls[b].pub == cfg[b].dc
    ensures acTbls[b].Derived() && acTbls[b].pub == cfg[b].ac
  {}

  // ---- the decoder object ----

  // The decoder's state as the stream sees it: the segment ahead, the restart counter, the predictions.
  datatype Logical = Logical(seg: Segment, restartsToGo: nat, dc: seq<int>)

  function ZeroPredictions(n: nat): (r: seq<int>)
    ensures |r| == n
  {
    seq(n, i => 0)
  }

  // restarts_to_go is unsigned and is decremented even when restarts are not in use.
  function Decrement32(n: nat): nat {
    (n - 1) % BUF_MODULUS
  }

  // The state in which the next MCU is decoded: past the restart marker if one is due.
  function AfterRestart(d: seq<Byte>, interval: nat, l: Logical): Option<Logical> {
    if interval == 0 || l.restartsToGo != 0 then Some(l)
    else
      match NextSegment(d, l.seg)
      case None => None
      case Some(seg) => Some(Logical(seg, interval, ZeroPredictions(|l.dc|)))
  }

  // Decoding proper: the assignments of an MCU and the state after it.
  function DecodeStep(cfg: seq<BlockConfig>, l: Logical): (seq<Write>, Logical)
    requires ConfigValid(cfg, |l.dc|)
  {
    var togo := Decrement32(l.restartsToGo);
    if l.seg.insufficient then ([], l.(restartsToGo := togo))
    else
      var r := Mcu(cfg, 0, l.seg.bits, 0, l.dc);
      (r.writes, Logical(Consume(l.seg, r.pos), togo, r.dc))
  }

  // One MCU, as a function of stream and state alone.  None: the stream lacks a restart marker.
  function Step(d: seq<Byte>, cfg: seq<BlockConfig>, interval: nat, l: Logical): Option<(seq<Write>, Logical)>
    requires ConfigValid(cfg, |l.dc|)
  {
    match AfterRestart(d, interval, l)
    case None => None
    case Some(m) => Some(DecodeStep(cfg, m))
  }

  // The segment the next MCU belongs to is closed by a marker.
  predicate Closed(d: seq<Byte>, interval: nat, l: Logical) {
    var m := AfterRestart(d, interval, l);
    m.Some? && m.value.seg.ahead.Some?
  }

  class HuffDecoder {
    const reader: Reader
    const cfg: seq<BlockConfig>
    const dcTbls: seq<DerivedTable>
    const acTbls: seq<DerivedTable>
    const restartInterval: nat
    var restartsToGo: nat
    var lastDc: seq<int>

    ghost predicate Valid()
      reads this, reader
    {
      && reader.Valid()
      && ConfigValid(cfg, |lastDc|)
      && TablesReady(cfg, dcTbls, acTbls)
      && restartInterval < BUF_MODULUS
    }

    ghost function Abs(): Logical
      reads this, reader
    {
      Logical(reader.Seg(), restartsToGo, lastDc)
    }

    // start_pass_huff_decoder, once the tables are built.
    constructor (reader: Reader, cfg: seq<BlockConfig>, dcTbls: seq<DerivedTable>, acTbls: seq<DerivedTable>,
                 comps: nat, restartInterval: nat)
      requires reader.Valid() && ConfigValid(cfg, comps) && TablesReady(cfg, dcTbls, acTbls)
      requires restartInterval < BUF_MODULUS
      modifies reader`getBuffer, reader`bitsLeft, reader`insufficientData
      ensures Valid() && this.reader == reader && this.cfg == cfg && this.restartInterval == restartInterval
      ensures Abs() == Logical(Segment(PastBuffer(reader.data, reader.Load(), reader.unreadMarker),
                                       Ahead(reader.data, reader.pos, reader.unreadMarker), false,
                                         reader.nextRestartNum),
                               restartInterval, ZeroPredictions(comps))
    {
      this.reader, this.cfg, this.dcTbls, this.acTbls := reader, cfg, dcTbls, acTbls;
      this.restartInterval, restartsToGo, lastDc := restartInterval, restartInterval, ZeroPredictions(comps);
      new;
      reader.getBuffer, reader.bitsLeft, reader.insufficientData := 0, 0, false;
      EmptyBuffer(reader.data, reader.Load(), reader.unreadMarker);
    }

    // process_restart: resynchronise at the marker, reset predictions and counters.
    method ProcessRestart() returns (ok: bool)
      requires Valid() && restartInterval != 0 && restartsToGo == 0
      modifies this`restartsToGo, this`lastDc, reader`pos, reader`discardedBytes, reader`unreadMarker
      modifies reader`nextRestartNum, reader`bitsLeft, reader`insufficientData
      ensures Valid() && |lastDc| == |old(lastDc)|
      ensures ok ==>
          AfterRestart(reader.data, restartInterval, old(Abs())) == Some(Abs()) && restartsToGo == restartInterval
      ensures !ok ==> restartsToGo == 0
                      && AfterRestart(reader.data, restartInterval, Abs())
                        == AfterRestart(reader.data, restartInterval, old(Abs()))
      ensures !ok && reader.avail == |reader.data| ==> AfterRestart(reader.data, restartInterval, Abs()).None?
    {
      hide Reader.Seg, ConfigValid, TablesReady, NextSegment, ZeroPredictions;
      ok := reader.Restart();
      if !ok {
        return;
      }
      lastDc := ZeroPredictions(|lastDc|);
      restartsToGo := restartInterval;
    }

    // decode_mcu.  A true result is one Step of the logical state; after a false one every
    // retry will take that same Step.
    method DecodeMcu(mcu: array2<int>) returns (ok: bool, ghost ws: seq<Write>)
      requires Valid() && mcu.Length0 == |cfg| && mcu.Length1 == DCTSIZE2
      modifies this`restartsToGo, this`lastDc, reader`pos, reader`discardedBytes, reader`unreadMarker
      modifies reader`nextRestartNum, reader`getBuffer, reader`bitsLeft, reader`insufficientData, mcu
      ensures Valid() && |lastDc| == |old(lastDc)|
      ensures ImageShape(old(Snapshot(mcu)), |cfg|) && Holds(mcu, old(Snapshot(mcu)), ws)
      ensures ok ==> Step(reader.data, cfg, restartInterval, old(Abs())) == Some((ws, Abs()))
      ensures !ok ==>
          AfterRestart(reader.data, restartInterval, Abs()) == AfterRestart(reader.data, restartInterval, old(Abs()))
      ensures !ok ==> var s := Step(reader.data, cfg, restartInterval, old(Abs()));
                      if s.Some? then ws <= s.value.0 else ws == []
      ensures !ok && (restartInterval == 0 || old(restartsToGo) != 0) ==>
                reader.Load() == old(reader.Load()) && lastDc == old(lastDc) && Abs() == old(Abs())
      ensures !ok && reader.avail == |reader.data| ==> !Closed(reader.data, restartInterval, Abs())
    {
      hide Holds, ConfigValid, TablesReady, Mcu, Reader.Seg, DecodeStep, ImageShape;
      ghost var base := Snapshot(mcu);
      NothingWritten(mcu, base);
      ok, ws := true, [];
      if restartInterval != 0 && restartsToGo == 0 {
        ok := ProcessRestart();
        if !ok {
          return;
        }
      }
      assert AfterRestart(reader.data, restartInterval, old(Abs())) == Some(Abs());
      SegFlag(reader);
      if !reader.insufficientData {
        ok, ws := DecodeSegmentMcu(mcu, base);
        if !ok {
          return;
        }
      } else {
        StepOfNothing(cfg, Abs());
      }
      restartsToGo := (restartsToGo - 1) % BUF_MODULUS;
    }

    // The part of decode_mcu between loading and saving the working state.
    method DecodeSegmentMcu(mcu: array2<int>, ghost base: Image) returns (ok: bool, ghost ws: seq<Write>)
      requires Valid() && !reader.insufficientData
      requires mcu.Length0 == |cfg| && mcu.Length1 == DCTSIZE2 && ImageShape(base, |cfg|) && Holds(mcu, base, [])
      modifies this`lastDc, reader`pos, reader`unreadMarker, reader`getBuffer, reader`bitsLeft, reader`insufficientData,
          mcu
      ensures Valid() && |lastDc| == |old(lastDc)|
      ensures Holds(mcu, base, ws) && ws <= DecodeStep(cfg, old(Abs())).0
      ensures ok ==> (ws, Abs().(restartsToGo := Decrement32(restartsToGo))) == DecodeStep(cfg, old(Abs()))
      ensures !ok ==> reader.Load() == old(reader.Load()) && lastDc == old(lastDc) && Abs() == old(Abs())
      ensures !ok && reader.avail == |reader.data| ==> Abs().seg.ahead.None?
    {
      hide Reader.Reading, Holds, ConfigValid, TablesReady, Mcu, DecodeStep, ImageShape, Pending, Ahead, Consume;
      reader.Loaded();
      ghost var l := Abs();
      var w, dc;
      ghost var c';
      ok, w, dc, c', ws := DecodeBlocks(reader, reader.Load(), cfg, dcTbls, acTbls, lastDc, mcu, StartOf(l.seg), base);
      StepOf(cfg, l);
      if !ok {
        return;
      }
      McuKeepsComps(cfg, l.seg.bits, lastDc);
      reader.Save(w, l.seg, c');
      lastDc := dc;
    }

    // decode_mcu under an arbitrary sequence of deliveries: after each suspended call the
    // application hands over some more bytes and calls again.  However the input is cut up,
    // the MCU that comes out is the Step of the state at the first call, and it does come out
    // once everything is delivered.
    method DecodeMcuInPieces(mcu: array2<int>, deliveries: seq<nat>) returns (ok: bool, used: nat, ghost ws: seq<Write>)
      requires Valid() && mcu.Length0 == |cfg| && mcu.Length1 == DCTSIZE2
      modifies this`restartsToGo, this`lastDc, reader, mcu
      ensures Valid() && |lastDc| == |old(lastDc)|
      ensures ImageShape(old(Snapshot(mcu)), |cfg|) && used <= |deliveries|
      ensures ok ==> Step(reader.data, cfg, restartInterval, old(Abs())) == Some((ws, Abs()))
      ensures ok ==> Holds(mcu, old(Snapshot(mcu)), ws)
      ensures !ok && reader.avail == |reader.data| ==> !Closed(reader.data, restartInterval, old(Abs()))
    {
      hide ConfigValid, TablesReady, AfterRestart, DecodeStep, Pending, Ahead, Holds, Snapshot, Recoverable;
      ghost var start, base := Abs(), Snapshot(mcu);
      ghost var goal := Step(reader.data, cfg, restartInterval, start);
      ghost var all := if goal.Some? then goal.value.0 else [];
      NothingWritten(mcu, base);
      RecoverableAtStart(base, |cfg|, all);
      ghost var img := base;
      used := 0;
      while true
        invariant used <= |deliveries| && Valid() && |lastDc| == |old(lastDc)|
        invariant img == Snapshot(mcu) && ImageShape(img, |cfg|) && Recoverable(base, img, all)
        invariant AfterRestart(reader.data, restartInterval, Abs()) == AfterRestart(reader.data, restartInterval, start)
        decreases |deliveries| - used
      {
        ok, ws := DecodeMcu(mcu);
        if ok {
          AttemptSucceeds(mcu, base, img, all);
          return;
        }
        AttemptFails(mcu, base, img, all, ws);
        img := Snapshot(mcu);
        NothingWritten(mcu, img);
        if used == |deliveries| {
          return;
        }
        reader.Deliver(deliveries[used]);
        used := used + 1;
      }
    }

    // The entropy decoder expects its blocks zeroed.
    method ZeroBlocks(mcu: array2<int>)
      requires mcu.Length1 == DCTSIZE2
      modifies mcu
      ensures Shows(Snapshot(mcu), mcu.Length0, [])
    {
      for b := 0 to mcu.Length0
        invariant forall c, i | 0 <= c < b && 0 <= i < DCTSIZE2 :: mcu[c, i] == 0
      {
        for i := 0 to DCTSIZE2
          invariant forall c, k | 0 <= c < b && 0 <= k < DCTSIZE2 :: mcu[c, k] == 0
          invariant forall k | 0 <= k < i :: mcu[b, k] == 0
        {
          mcu[b, i] := 0;
        }
      }
    }

    // One MCU of a scan, into zeroed blocks.
    method DecodeNext(mcu: array2<int>, deliveries: seq<nat>)
      returns (ok: bool, used: nat, ghost ws: seq<Write>, ghost image: Image)
      requires Valid() && mcu.Length0 == |cfg| && mcu.Length1 == DCTSIZE2
      modifies this`restartsToGo, this`lastDc, reader, mcu
      ensures Valid() && |lastDc| == |old(lastDc)| && used <= |deliveries|
      ensures ok ==> Step(reader.data, cfg, restartInterval, old(Abs())) == Some((ws, Abs())) && Shows(image, |cfg|, ws)
      ensures !ok && reader.avail == |reader.data| ==> !Closed(reader.data, restartInterval, old(Abs()))
    {
      hide ConfigValid, TablesReady, Step, Closed, Reader.Seg;
      ZeroBlocks(mcu);
      ghost var base := Snapshot(mcu);
      ok, used, ws := DecodeMcuInPieces(mcu, deliveries);
      image := Snapshot(mcu);
      if ok {
        ShownOverZero(mcu, base, ws);
      }
    }

    // A whole run of MCUs under one arbitrary sequence of deliveries: wherever input runs out, in
    // whichever MCU, what comes out is what the stream alone determines, and it all comes out
    // once everything is delivered, unless a segment is not closed by a marker.
    method DecodeMcusInPieces(mcu: array2<int>, n: nat, deliveries: seq<nat>)
      returns (ok: bool, done: nat, ghost wss: seq<seq<Write>>, ghost images: seq<Image>)
      requires Valid() && mcu.Length0 == |cfg| && mcu.Length1 == DCTSIZE2
      modifies this`restartsToGo, this`lastDc, reader, mcu
      ensures Valid() && |lastDc| == |old(lastDc)| && |wss| == |images| == done <= n && (ok <==> done == n)
      ensures var steps := Steps(reader.data, cfg, restartInterval, old(Abs()), done);
        && steps.Some? && steps.value.0 == wss
        && (ok ==> steps.value.1 == Abs())
        && (!ok && reader.avail == |reader.data| ==> !Closed(reader.data, restartInterval, steps.value.1))
      ensures forall k | 0 <= k < done :: Shows(images[k], |cfg|, wss[k])
    {
      hide ConfigValid, TablesReady, Step, Closed, Reader.Seg, Shows;
      ghost var start := Abs();
      ok, done, wss, images := true, 0, [], [];
      var next: nat := 0;
      while done < n
        invariant done <= n && next <= |deliveries| && Valid() && |lastDc| == |old(lastDc)| && |wss| == |images| == done
        invariant Steps(reader.data, cfg, restartInterval, start, done) == Some((wss, Abs()))
        invariant forall k | 0 <= k < done :: Shows(images[k], |cfg|, wss[k])
      {
        var used;
        ghost var ws, image;
        ok, used, ws, image := DecodeNext(mcu, deliveries[next..]);
        if !ok {
          return;
        }
        done, next, wss, images := done + 1, next + used, wss + [ws], images + [image];
      }
      ok := true;
    }
  }

  // What zeroed blocks hold after the assignments ws.
  ghost predicate Shows(img: Image, blocks: nat, ws: seq<Write>) {
    ImageShape(img, blocks) && forall b, i | 0 <= b < blocks && 0 <= i < DCTSIZE2 :: img[b][i] == Last(ws, b, i, 0)
  }

  lemma ShownOverZero(mcu: array2<int>, base: Image, ws: seq<Write>)
    requires mcu.Length1 == DCTSIZE2 && Shows(base, mcu.Length0, []) && Holds(mcu, base, ws)
    ensures Shows(Snapshot(mcu), mcu.Length0, ws)
  {}

  // n MCUs one after the other, as a function of stream and state alone.
  function Steps(d: seq<Byte>, cfg: seq<BlockConfig>, interval: nat, l: Logical,
                 n: nat): (r: Option<(seq<seq<Write>>, Logical)>)
    requires ConfigValid(cfg, |l.dc|)
    ensures r.Some? ==> |r.value.0| == n && |r.value.1.dc| == |l.dc|
  {
    if n == 0 then Some(([], l))
    else
      match Steps(d, cfg, interval, l, n - 1)
      case None => None
      case Some(before) =>
        StepKeepsComps(d, cfg, interval, before.1);
        match Step(d, cfg, interval, before.1)
        case None => None
        case Some(s) => Some((before.0 + [s.0], s.1))
  }

  lemma StepKeepsComps(d: seq<Byte>, cfg: seq<BlockConfig>, interval: nat, l: Logical)
    requires ConfigValid(cfg, |l.dc|)
    ensures var s := Step(d, cfg, interval, l); s.Some? ==> |s.value.1.dc| == |l.dc|
  {
    hide Mcu, ConfigValid, NextSegment;
    var m := AfterRestart(d, interval, l);
    if m.Some? {
      McuKeepsComps(cfg, m.value.seg.bits, m.value.dc);
    }
  }

  // Carrying out all assignments on img gives what carrying them out on base gives.
  ghost predicate Recoverable(base: Image, img: Image, all: seq<Write>) {
    && |img| == |base|
    && forall b, i | 0 <= b < |img| && 0 <= i < |img[b]| && i < |base[b]| ::
      Last(all, b, i, img[b][i]) == Last(all, b, i, base[b][i])
  }

  lemma RecoverableAtStart(base: Image, blocks: nat, all: seq<Write>)
    requires ImageShape(base, blocks)
    ensures Recoverable(base, base, all)
  {}

  lemma AttemptFails(mcu: array2<int>, base: Image, img: Image, all: seq<Write>, ws: seq<Write>)
    requires mcu.Length1 == DCTSIZE2 && ImageShape(base, mcu.Length0) && ImageShape(img, mcu.Length0)
    requires Recoverable(base, img, all) && Holds(mcu, img, ws) && ws <= all
    ensures Recoverable(base, Snapshot(mcu), all)
  {
    forall b, i | 0 <= b < mcu.Length0 && 0 <= i < DCTSIZE2
      ensures Last(all, b, i, mcu[b, i]) == Last(all, b, i, base[b][i])
    {
      assert ws == all[..|ws|];
      RetryIsHarmless(all, |ws|, b, i, img[b][i]);
      assert |base[b]| == |img[b]| == DCTSIZE2;
    }
  }

  lemma AttemptSucceeds(mcu: array2<int>, base: Image, img: Image, all: seq<Write>)
    requires mcu.Length1 == DCTSIZE2 && ImageShape(base, mcu.Length0) && ImageShape(img, mcu.Length0)
    requires Recoverable(base, img, all) && Holds(mcu, img, all)
    ensures Holds(mcu, base, all)
  {}

  lemma NothingWritten(mcu: array2<int>, base: Image)
    requires mcu.Length1 == DCTSIZE2 && base == Snapshot(mcu)
    ensures ImageShape(base, mcu.Length0) && Holds(mcu, base, [])
  {}

  lemma StepOf(cfg: seq<BlockConfig>, l: Logical)
    requires ConfigValid(cfg, |l.dc|) && !l.seg.insufficient
    ensures var r := Mcu(cfg, 0, l.seg.bits, 0, l.dc);
            DecodeStep(cfg, l) == (r.writes, Logical(Consume(l.seg, r.pos), Decrement32(l.restartsToGo), r.dc))
  {}

  lemma StepOfNothing(cfg: seq<BlockConfig>, l: Logical)
    requires ConfigValid(cfg, |l.dc|) && l.seg.insufficient
    ensures DecodeStep(cfg, l) == ([], l.(restartsToGo := Decrement32(l.restartsToGo)))
  {}

  lemma McuKeepsComps(cfg: seq<BlockConfig>, s: seq<Bit>, dc: seq<int>)
    requires ConfigValid(cfg, |dc|)
    ensures |Mcu(cfg, 0, s, 0, dc).dc| == |dc|
  {}
}
