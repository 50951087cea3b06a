/**
  Huffman encoding of sequential scans as section F.1.2 of ITU-T T.81 describes it: differences of
  the DC coefficients, runs of zero AC coefficients, sizes and magnitude bits.  Decoding is shown
  to give back every block that was encoded.
  */
module SequentialEncoder {
  import opened BitStrings
  import opened HuffmanCode
  import opened HuffmanTable
  import opened HuffmanEncoder
  import opened Coefficients
  import opened SequentialDecoder

  // ---- AC coefficients ----

  // Coefficients in zigzag order.
  type ZigZag = zz: seq<int> | |zz| == DCTSIZE2 witness seq(DCTSIZE2, i => 0)

  function NextNonZero(zz: ZigZag, k: nat): (j: nat)
    requires k <= DCTSIZE2
    ensures k <= j <= DCTSIZE2 && (j < DCTSIZE2 ==> zz[j] != 0) && forall i | k <= i < j :: zz[i] == 0
    decreases DCTSIZE2 - k
  {
    if k == DCTSIZE2 || zz[k] != 0 then k else NextNonZero(zz, k + 1)
  }

  const EOB := 0
  const ZRL := 0xF0

  // A coefficient behind a run of zeros, and what follows.
  function Lead(run: nat, v: int, rest: seq<Item>): seq<Item> {
    [Symbol(16 * run + Size(v))] + ([Extra(Magnitude(v), Size(v))] + rest)
  }

  // From coefficient k on: run of zeros and size in one symbol, then the magnitude bits; a run of
  // sixteen by itself; an end-of-block symbol if zeros are all that is left.
  function AcItems(zz: ZigZag, k: nat): seq<Item>
    requires k <= DCTSIZE2
    decreases DCTSIZE2 - k
  {
    var j := NextNonZero(zz, k);
    if k == DCTSIZE2 then []
    else if j == DCTSIZE2 then [Symbol(EOB)]
    else if j - k >= 16 then [Symbol(ZRL)] + AcItems(zz, k + 16)
    else Lead(j - k, zz[j], AcItems(zz, j + 1))
  }

  predicate SmallFrom(zz: ZigZag, k: nat) {
    forall m | k <= m < DCTSIZE2 :: Size(zz[m]) <= 15
  }

  // The assignments are those of the coefficients from k on that are not zero, and no others.
  ghost predicate Stores(ws: seq<Write>, blk: nat, zz: ZigZag, k: nat) {
    forall b: nat, i: nat, x: int | i < DCTSIZE2 :: Last(ws, b, i, x)
      == if b == blk && ZigZagNumber(i) >= k && zz[ZigZagNumber(i)] != 0 then zz[ZigZagNumber(i)] else x
  }

  lemma StoresNothing(blk: nat, zz: ZigZag, k: nat)
    requires k <= DCTSIZE2 && NextNonZero(zz, k) == DCTSIZE2
    ensures Stores([], blk, zz, k)
  {
    hide ZigZagNumber;
  }

  lemma StoresFurther(ws: seq<Write>, blk: nat, zz: ZigZag, k: nat, m: nat)
    requires k <= m && Stores(ws, blk, zz, m) && forall i | k <= i < m && i < DCTSIZE2 :: zz[i] == 0
    ensures Stores(ws, blk, zz, k)
  {
    hide ZigZagNumber;
  }

  lemma StoresOne(ws: seq<Write>, blk: nat, zz: ZigZag, k: nat)
    requires k < DCTSIZE2 && zz[k] != 0 && Stores(ws, blk, zz, k + 1)
    ensures Stores([Write(blk, NaturalOrder(k), zz[k])] + ws, blk, zz, k)
  {
    var w := Write(blk, NaturalOrder(k), zz[k]);
    OrderInverts(k);
    forall b: nat, i: nat, x: int | i < DCTSIZE2
      ensures Last([w] + ws, b, i, x)
           == if b == blk && ZigZagNumber(i) >= k && zz[ZigZagNumber(i)] != 0 then zz[ZigZagNumber(i)] else x
    {
      LastAppends([w], ws, b, i, x);
      LastOfOne(w, b, i, x);
      NumberInverts(i);
      hide NaturalOrder, ZigZagNumber;
    }
  }

  lemma LastOfOne(w: Write, b: nat, i: nat, x: int)
    ensures Last([w], b, i, x) == if w.block == b && w.index == i then w.value else x
  {
    assert [w][..0] == [];
  }

  // Decoding what stands for the coefficients from k on.
  lemma {:induction false} AcRoundTrip(t: Spec, s: seq<Bit>, pos: nat, zz: ZigZag, k: nat, blk: nat, needed: bool)
    requires t.Shape() && t.Legal() && k <= DCTSIZE2 && SmallFrom(zz, k)
    requires AllCoded(t, AcItems(zz, k)) && BitsAt(s, pos, Bits(t, AcItems(zz, k)))
    ensures var (ws, end) := AcScan(t, s, pos, k, blk, needed);
            && end == pos + |Bits(t, AcItems(zz, k))|
            && (if needed then Stores(ws, blk, zz, k) else ws == [])
    decreases DCTSIZE2 - k
  {
    hide AcScan, Bits, AllCoded, Spec.Shape, Spec.Legal, Spec.Decode, Stores, Value, NaturalOrder, BitsAt, Extend, Size,
         Magnitude;
    var j := NextNonZero(zz, k);
    if k == DCTSIZE2 {
      AcScanEnds(t, s, pos, k, blk, needed);
      StoresNothing(blk, zz, k);
      NoBits(t);
    } else {
      AcStep(t, s, pos, k, blk, needed);
      if j == DCTSIZE2 {
        assert [Symbol(EOB)] + [] == [Symbol(EOB)];
        NoBits(t);
        var len := ReadSymbol(t, s, pos, EOB, []);
        StoresNothing(blk, zz, k);
      } else if j - k >= 16 {
        var len := ReadSymbol(t, s, pos, ZRL, AcItems(zz, k + 16));
        AcRoundTrip(t, s, pos + len, zz, k + 16, blk, needed);
        if needed {
          StoresFurther(AcScan(t, s, pos, k, blk, needed).0, blk, zz, k, k + 16);
        }
      } else {
        AcCoefficient(t, s, pos, zz, k, blk, needed);
      }
    }
  }

  lemma AcItemsOf(zz: ZigZag, k: nat)
    requires k < DCTSIZE2 && NextNonZero(zz, k) < DCTSIZE2 && NextNonZero(zz, k) - k < 16
    ensures var j := NextNonZero(zz, k);
            AcItems(zz, k) == Lead(j - k, zz[j], AcItems(zz, j + 1))
  {}

  // One round of the scan: symbol and magnitude bits.
  lemma AcValue(t: Spec, s: seq<Bit>, pos: nat, run: nat, v: int, rest: seq<Item>) returns (len: nat)
    requires t.Shape() && t.Legal() && v != 0 && Size(v) <= 15
    requires AllCoded(t, Lead(run, v, rest)) && BitsAt(s, pos, Bits(t, Lead(run, v, rest)))
    ensures t.Decode(s, pos) == (len, 16 * run + Size(v)) && AllCoded(t, rest)
    ensures ToCoef(Extend(Value(s, pos + len, Size(v)), Size(v))) == v
    ensures BitsAt(s, pos + len + Size(v), Bits(t, rest))
    ensures |Bits(t, Lead(run, v, rest))| == len + Size(v) + |Bits(t, rest)|
  {
    hide Bits, AllCoded, Spec.Shape, Spec.Legal, Spec.Decode, Value, BitsAt, Extend, Size, Magnitude;
    ExtendInverts(v);
    SmallValue(v);
    len := ReadSymbol(t, s, pos, 16 * run + Size(v), [Extra(Magnitude(v), Size(v))] + rest);
    ReadExtra(t, s, pos + len, Magnitude(v), Size(v), rest);
  }

  // What the scan does with them.
  lemma AcStepValue(t: Spec, s: seq<Bit>, pos: nat, k: nat, blk: nat, needed: bool, len: nat, run: nat, v: int)
    requires t.Shape() && t.Legal() && k + run < DCTSIZE2 && v != 0 && Size(v) <= 15
    requires t.Decode(s, pos) == (len, 16 * run + Size(v))
    requires Size(v) >= 1 && ToCoef(Extend(Value(s, pos + len, Size(v)), Size(v))) == v
    ensures var rest := AcScan(t, s, pos + len + Size(v), k + run + 1, blk, needed);
            AcScan(t, s, pos, k, blk, needed)
            == (if needed then [Write(blk, NaturalOrder(k + run), v)] + rest.0 else rest.0, rest.1)
  {
    hide Spec.Decode, Value, ToCoef, Extend, NaturalOrder, Size, AcScan;
    SymbolParts(run, Size(v));
    AcStep(t, s, pos, k, blk, needed);
  }

  lemma StoresRun(ws: seq<Write>, blk: nat, zz: ZigZag, k: nat, j: nat)
    requires k <= DCTSIZE2 && j == NextNonZero(zz, k) < DCTSIZE2 && Stores(ws, blk, zz, j + 1)
    ensures Stores([Write(blk, NaturalOrder(j), zz[j])] + ws, blk, zz, k)
  {
    hide Stores, NaturalOrder;
    StoresOne(ws, blk, zz, j);
    StoresFurther([Write(blk, NaturalOrder(j), zz[j])] + ws, blk, zz, k, j);
  }

  // The item of a coefficient: its value is within bounds, and what follows is coded as well.
  lemma AcLead(t: Spec, s: seq<Bit>, pos: nat, zz: ZigZag, k: nat) returns (len: nat)
    requires t.Shape() && t.Legal() && k < DCTSIZE2 && SmallFrom(zz, k)
    requires AllCoded(t, AcItems(zz, k)) && BitsAt(s, pos, Bits(t, AcItems(zz, k)))
    requires NextNonZero(zz, k) < DCTSIZE2 && NextNonZero(zz, k) - k < 16
    ensures var j := NextNonZero(zz, k);
            var v, rest := zz[j], AcItems(zz, j + 1);
            && v != 0 && 1 <= Size(v) <= 15 && t.Decode(s, pos) == (len, 16 * (j - k) + Size(v)) && AllCoded(t, rest)
            && ToCoef(Extend(Value(s, pos + len, Size(v)), Size(v))) == v
            && BitsAt(s, pos + len + Size(v), Bits(t, rest))
            && |Bits(t, AcItems(zz, k))| == len + Size(v) + |Bits(t, rest)|
  {
    hide Bits, AllCoded, Spec.Shape, Spec.Legal, Spec.Decode, Value, BitsAt, Extend, Size, Magnitude, AcItems, ToCoef,
         Lead, NextNonZero;
    var j := NextNonZero(zz, k);
    AcItemsOf(zz, k);
    ExtendInverts(zz[j]);
    len := AcValue(t, s, pos, j - k, zz[j], AcItems(zz, j + 1));
  }

  lemma AcCoefficient(t: Spec, s: seq<Bit>, pos: nat, zz: ZigZag, k: nat, blk: nat, needed: bool)
    requires t.Shape() && t.Legal() && k < DCTSIZE2 && SmallFrom(zz, k)
    requires AllCoded(t, AcItems(zz, k)) && BitsAt(s, pos, Bits(t, AcItems(zz, k)))
    requires NextNonZero(zz, k) < DCTSIZE2 && NextNonZero(zz, k) - k < 16
    ensures var (ws, end) := AcScan(t, s, pos, k, blk, needed);
            && end == pos + |Bits(t, AcItems(zz, k))|
            && (if needed then Stores(ws, blk, zz, k) else ws == [])
    decreases DCTSIZE2 - k, 0
  {
    hide AcScan, Bits, AllCoded, Spec.Shape, Spec.Legal, Spec.Decode, Stores, Value, NaturalOrder, BitsAt, Extend, Size,
         Magnitude, AcItems, ToCoef, NextNonZero;
    var j := NextNonZero(zz, k);
    var len := AcLead(t, s, pos, zz, k);
    AcStepValue(t, s, pos, k, blk, needed, len, j - k, zz[j]);
    AcRoundTrip(t, s, pos + len + Size(zz[j]), zz, j + 1, blk, needed);
    if needed {
      StoresRun(AcScan(t, s, pos + len + Size(zz[j]), j + 1, blk, needed).0, blk, zz, k, j);
    }
  }

  // Fifteen bits of magnitude fit the 16-bit coefficient.
  lemma SmallValue(v: int)
    requires Size(v) <= 15
    ensures ToCoef(v) == v
  {
    if v != 0 {
      SizeBounds(v);
      Pow2Grows(Size(v), 15);
      Pow2Adds(8, 7);
      assert Pow2(8) == 256 && Pow2(7) == 128;
    }
  }

  lemma {:induction false} Pow2Grows(m: nat, n: nat)
    requires m <= n
    ensures Pow2(m) <= Pow2(n)
    decreases n
  {
    if m < n {
      Pow2Grows(m, n - 1);
    }
  }

  // ---- DC coefficients ----

  function DcItems(diff: int): seq<Item> {
    if diff == 0 then [Symbol(0)] else [Symbol(Size(diff))] + [Extra(Magnitude(diff), Size(diff))]
  }

  lemma DcRoundTrip(t: Spec, s: seq<Bit>, pos: nat, diff: int)
    requires t.Shape() && t.Legal() && DcSymbols(t)
    requires Size(diff) <= 15 && AllCoded(t, DcItems(diff)) && BitsAt(s, pos, Bits(t, DcItems(diff)))
    ensures DcDiff(t, s, pos) == (|Bits(t, DcItems(diff))|, diff)
  {
    hide Bits, AllCoded, Spec.Shape, Spec.Legal, Spec.Decode, Value, BitsAt, Extend, Size, Magnitude, DcSymbols;
    NoBits(t);
    if diff == 0 {
      assert [Symbol(0)] + [] == [Symbol(0)];
      var len := ReadSymbol(t, s, pos, 0, []);
    } else {
      var n := Size(diff);
      ExtendInverts(diff);
      var extra := [Extra(Magnitude(diff), n)];
      assert extra + [] == extra;
      var len := ReadSymbol(t, s, pos, n, extra);
      ReadExtra(t, s, pos + len, Magnitude(diff), n, []);
    }
  }

  // ---- blocks and MCUs ----

  predicate BlockCoded(cfg: BlockConfig, zz: ZigZag, pred: int)
    requires cfg.dc.Shape() && cfg.dc.Legal() && cfg.ac.Shape() && cfg.ac.Legal()
  {
    && Size(zz[0] - pred) <= 15 && SmallFrom(zz, 1) && -0x8000 <= zz[0] < 0x8000
    && AllCoded(cfg.dc, DcItems(zz[0] - pred)) && AllCoded(cfg.ac, AcItems(zz, 1))
  }

  // The DC coefficient as its difference from a prediction, then the others.
  function BlockBits(cfg: BlockConfig, zz: ZigZag, pred: int): seq<Bit>
    requires cfg.dc.Shape() && cfg.dc.Legal() && cfg.ac.Shape() && cfg.ac.Legal() && BlockCoded(cfg, zz, pred)
  {
    Bits(cfg.dc, DcItems(zz[0] - pred)) + Bits(cfg.ac, AcItems(zz, 1))
  }

  // What is to be stored for coefficient i (in natural order) of a block in which x stands there.
  function Stored(cfg: BlockConfig, zz: ZigZag, i: nat, x: int): int
    requires i < DCTSIZE2
  {
    var k := ZigZagNumber(i);
    if k == 0 then (if cfg.dcNeeded then zz[0] else x) else if cfg.acNeeded && zz[k] != 0 then zz[k] else x
  }

  ghost predicate StoresBlock(ws: seq<Write>, blk: nat, cfg: BlockConfig, zz: ZigZag) {
    forall b: nat, i: nat, x: int | i < DCTSIZE2 ::
      Last(ws, b, i, x) == if b == blk then Stored(cfg, zz, i, x) else x
  }

  lemma BlockRoundTrip(cfg: BlockConfig, blk: nat, s: seq<Bit>, pos: nat, dc: seq<int>, zz: ZigZag, pred: int)
    requires cfg.Valid(|dc|) && (cfg.dcNeeded ==> dc[cfg.comp] == pred)
    requires BlockCoded(cfg, zz, pred) && BitsAt(s, pos, BlockBits(cfg, zz, pred))
    ensures var part := BlockPart(cfg, blk, s, pos, dc);
            && part.pos == pos + |BlockBits(cfg, zz, pred)| && StoresBlock(part.writes, blk, cfg, zz)
            && part.dc == if cfg.dcNeeded then dc[cfg.comp := zz[0]] else dc
  {
    hide AcScan, Bits, AllCoded, Spec.Shape, Spec.Legal, Stores, BitsAt, Size, SmallFrom, AcItems, DcItems, DcDiff,
         DcSymbols, StoresBlock;
    BitsBoth(s, pos, Bits(cfg.dc, DcItems(zz[0] - pred)), Bits(cfg.ac, AcItems(zz, 1)));
    DcRoundTrip(cfg.dc, s, pos, zz[0] - pred);
    var len := |Bits(cfg.dc, DcItems(zz[0] - pred))|;
    AcRoundTrip(cfg.ac, s, pos + len, zz, 1, blk, cfg.acNeeded);
    var ws := AcScan(cfg.ac, s, pos + len, 1, blk, cfg.acNeeded).0;
    StoredBoth(cfg, blk, zz, ws);
    assert [] + ws == ws;
  }

  lemma StoredBoth(cfg: BlockConfig, blk: nat, zz: ZigZag, ws: seq<Write>)
    requires if cfg.acNeeded then Stores(ws, blk, zz, 1) else ws == []
    ensures StoresBlock(if cfg.dcNeeded then [Write(blk, 0, zz[0])] + ws else ws, blk, cfg, zz)
  {
    hide Stores, Stored, Last;
    var all := if cfg.dcNeeded then [Write(blk, 0, zz[0])] + ws else ws;
    forall b: nat, i: nat, x: int | i < DCTSIZE2
      ensures Last(all, b, i, x) == if b == blk then Stored(cfg, zz, i, x) else x
    {
      StoredOne(cfg, blk, zz, ws, b, i, x);
    }
  }

  lemma StoredOne(cfg: BlockConfig, blk: nat, zz: ZigZag, ws: seq<Write>, b: nat, i: nat, x: int)
    requires (if cfg.acNeeded then Stores(ws, blk, zz, 1) else ws == []) && i < DCTSIZE2
    ensures Last(if cfg.dcNeeded then [Write(blk, 0, zz[0])] + ws else ws, b, i, x)
         == if b == blk then Stored(cfg, zz, i, x) else x
  {
    var first := Write(blk, 0, zz[0]);
    LastAppends([first], ws, b, i, x);
    LastOfOne(first, b, i, x);
    NumberInverts(i);
    OrderInverts(0);
    hide ZigZagNumber, NaturalOrder;
  }

  // Blocks of one component are needed or not together.
  predicate NeedsAgree(cfg: seq<BlockConfig>) {
    forall b, c | 0 <= b < |cfg| && 0 <= c < |cfg| && cfg[b].comp == cfg[c].comp :: cfg[b].dcNeeded == cfg[c].dcNeeded
  }

  // The decoder's predictions are the encoder's wherever they are needed.
  predicate Tracks(cfg: seq<BlockConfig>, dc: seq<int>, preds: seq<int>) {
    |dc| == |preds| && forall b | 0 <= b < |cfg| && cfg[b].comp < |dc| && cfg[b].dcNeeded ::
      dc[cfg[b].comp] == preds[cfg[b].comp]
  }

  // The blocks of an MCU, each in zigzag order, from number n on.
  predicate McuCoded(cfg: seq<BlockConfig>, blocks: seq<ZigZag>, n: nat, preds: seq<int>)
    requires ConfigValid(cfg, |preds|) && n <= |cfg|
    decreases |cfg| - n
  {
    |blocks| == |cfg| &&
    (n < |cfg| ==>
      && BlockCoded(cfg[n], blocks[n], preds[cfg[n].comp])
      && McuCoded(cfg, blocks, n + 1, preds[cfg[n].comp := blocks[n][0]]))
  }

  function McuBits(cfg: seq<BlockConfig>, blocks: seq<ZigZag>, n: nat, preds: seq<int>): seq<Bit>
    requires ConfigValid(cfg, |preds|) && n <= |cfg| && McuCoded(cfg, blocks, n, preds)
    decreases |cfg| - n
  {
    if n == |cfg| then []
    else
      BlockBits(cfg[n], blocks[n], preds[cfg[n].comp])
      + McuBits(cfg, blocks, n + 1, preds[cfg[n].comp := blocks[n][0]])
  }

  // The last DC coefficient of each component.
  function McuPreds(cfg: seq<BlockConfig>, blocks: seq<ZigZag>, n: nat, preds: seq<int>): (r: seq<int>)
    requires ConfigValid(cfg, |preds|) && n <= |cfg| == |blocks|
    ensures |r| == |preds|
    decreases |cfg| - n
  {
    if n == |cfg| then preds else McuPreds(cfg, blocks, n + 1, preds[cfg[n].comp := blocks[n][0]])
  }

  // The assignments store the blocks from number n on, and nothing else.
  ghost predicate StoresMcu(ws: seq<Write>, cfg: seq<BlockConfig>, blocks: seq<ZigZag>, n: nat) {
    |blocks| == |cfg| && forall b: nat, i: nat, x: int | i < DCTSIZE2 ::
      Last(ws, b, i, x) == if n <= b < |cfg| then Stored(cfg[b], blocks[b], i, x) else x
  }

  lemma StoresNext(ws: seq<Write>, vs: seq<Write>, cfg: seq<BlockConfig>, blocks: seq<ZigZag>, n: nat)
    requires n < |cfg| == |blocks| && StoresBlock(ws, n, cfg[n], blocks[n]) && StoresMcu(vs, cfg, blocks, n + 1)
    ensures StoresMcu(ws + vs, cfg, blocks, n)
  {
    forall b: nat, i: nat, x: int | i < DCTSIZE2
      ensures Last(ws + vs, b, i, x) == if n <= b < |cfg| then Stored(cfg[b], blocks[b], i, x) else x
    {
      LastAppends(ws, vs, b, i, x);
      hide Stored, Last;
    }
  }

  lemma {:induction false} McuRoundTrip(cfg: seq<BlockConfig>, blocks: seq<ZigZag>, n: nat, s: seq<Bit>, pos: nat,
                                        dc: seq<int>, preds: seq<int>)
    requires n <= |cfg| && ConfigValid(cfg, |dc|) && |preds| == |dc| && NeedsAgree(cfg) && Tracks(cfg, dc, preds)
    requires McuCoded(cfg, blocks, n, preds) && BitsAt(s, pos, McuBits(cfg, blocks, n, preds))
    ensures var r := Mcu(cfg, n, s, pos, dc);
            && r.pos == pos + |McuBits(cfg, blocks, n, preds)| && StoresMcu(r.writes, cfg, blocks, n)
            && Tracks(cfg, r.dc, McuPreds(cfg, blocks, n, preds))
    decreases |cfg| - n
  {
    hide BlockBits, BlockCoded, BlockConfig.Valid, StoresMcu, StoresBlock, BitsAt, BlockPart, Tracks, NeedsAgree;
    if n == |cfg| {
      NothingStored(cfg, blocks);
    } else {
      TracksOne(cfg, dc, preds, n);
      var pred := preds[cfg[n].comp];
      var preds' := preds[cfg[n].comp := blocks[n][0]];
      var bits := BlockBits(cfg[n], blocks[n], pred);
      McuStep(cfg, n, s, pos, dc);
      BitsBoth(s, pos, bits, McuBits(cfg, blocks, n + 1, preds'));
      BlockRoundTrip(cfg[n], n, s, pos, dc, blocks[n], pred);
      TracksNext(cfg, dc, preds, n, blocks[n][0]);
      var part := BlockPart(cfg[n], n, s, pos, dc);
      McuRoundTrip(cfg, blocks, n + 1, s, part.pos, part.dc, preds');
      StoresNext(part.writes, Mcu(cfg, n + 1, s, part.pos, part.dc).writes, cfg, blocks, n);
    }
  }

  lemma NothingStored(cfg: seq<BlockConfig>, blocks: seq<ZigZag>)
    requires |blocks| == |cfg|
    ensures StoresMcu([], cfg, blocks, |cfg|)
  {}

  lemma TracksOne(cfg: seq<BlockConfig>, dc: seq<int>, preds: seq<int>, n: nat)
    requires n < |cfg| && ConfigValid(cfg, |dc|) && Tracks(cfg, dc, preds)
    ensures cfg[n].Valid(|dc|) && |dc| == |preds| && (cfg[n].dcNeeded ==> dc[cfg[n].comp] == preds[cfg[n].comp])
  {}

  lemma TracksNext(cfg: seq<BlockConfig>, dc: seq<int>, preds: seq<int>, n: nat, v: int)
    requires n < |cfg| && ConfigValid(cfg, |dc|) && Tracks(cfg, dc, preds) && NeedsAgree(cfg)
    ensures cfg[n].comp < |dc| == |preds|
    ensures Tracks(cfg, if cfg[n].dcNeeded then dc[cfg[n].comp := v] else dc, preds[cfg[n].comp := v])
  {}
}
