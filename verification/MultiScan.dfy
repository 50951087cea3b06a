/**
  Multiple-scan decoding: the input controller's walk over scans and markers (consume_markers
  of jdinput.c), the coefficient controller's input side, which stores every scan in full-image
  coefficient arrays (consume_data of jdcoefct.c), and its output side, which must not overtake
  the input (decompress_data).

  A data stream is its sequence of scans followed by EOI.  What of it has arrived is counted in
  units, a unit being an MCU or a marker; units arrive between calls in any pattern.
  */
module MultiScan {
  import opened Arithmetic
  import opened McuGeometry
  import opened OnePass

  // A block of a component's coefficient array.
  datatype Pos = Pos(plane: nat, row: nat, col: nat)

  // Block `blkn` of MCU `mcu` of a scan has been decoded into a position.
  datatype Stored = Stored(scan: nat, pos: Pos, mcu: nat, blkn: nat)

  // Where the loops of consume_data point the block of component i at (y, x) in an MCU.
  function Target(s: Scan, imcuRow: nat, yoffset: nat, mcuCol: nat, i: nat, y: nat, x: nat): Pos
    requires s.Indexed() && i < |s.cur|
  {
    Pos(s.cur[i], imcuRow * s.Comp(i).v + (yoffset + y), mcuCol * s.Comp(i).mcuWidth + x)
  }

  predicate InMcu(s: Scan, i: nat, y: nat, x: nat)
    requires s.Indexed()
  {
    i < |s.cur| && y < s.Comp(i).mcuHeight && x < s.Comp(i).mcuWidth
  }

  // The list of pointers, as far as it has been made.
  ghost predicate Listed(s: Scan, list: seq<Pos>, imcuRow: nat, yoffset: nat, mcuCol: nat)
    requires s.Indexed()
  {
    forall i, y, x | 0 <= i && 0 <= y && 0 <= x && InMcu(s, i, y, x) && s.BlockOf(i, y, x) < |list| ::
      list[s.BlockOf(i, y, x)] == Target(s, imcuRow, yoffset, mcuCol, i, y, x)
  }

  // Places of an MCU are numbered differently.
  lemma OneNumber(s: Scan, i: nat, y: nat, x: nat, j: nat, y': nat, x': nat)
    requires s.Valid() && InMcu(s, i, y, x) && InMcu(s, j, y', x') && s.BlockOf(i, y, x) == s.BlockOf(j, y', x')
    ensures i == j && y == y' && x == x'
  {
    hide Scan.BlockOf, Scan.Offset, Component.Fits;
    BlockRange(s, i, y, x);
    BlockRange(s, j, y', x');
    if i < j {
      OffsetMonotone(s, i + 1, j);
    } else if j < i {
      OffsetMonotone(s, j + 1, i);
    }
    BlockSplits(s, i, y, x, y', x');
  }

  lemma ListNext(s: Scan, list: seq<Pos>, imcuRow: nat, yoffset: nat, mcuCol: nat, i: nat, y: nat, x: nat)
    requires s.Valid() && InMcu(s, i, y, x) && |list| == s.BlockOf(i, y, x) && Listed(s, list, imcuRow, yoffset, mcuCol)
    ensures Listed(s, list + [Target(s, imcuRow, yoffset, mcuCol, i, y, x)], imcuRow, yoffset, mcuCol)
  {
    hide Scan.BlockOf, Target;
    var next := list + [Target(s, imcuRow, yoffset, mcuCol, i, y, x)];
    forall j, y', x' | 0 <= j && 0 <= y' && 0 <= x' && InMcu(s, j, y', x') && s.BlockOf(j, y', x') < |next|
      ensures next[s.BlockOf(j, y', x')] == Target(s, imcuRow, yoffset, mcuCol, j, y', x')
    {
      if s.BlockOf(j, y', x') == |list| {
        OneNumber(s, i, y, x, j, y', x');
      }
    }
  }

  // One component's pointers.
  method ListComponent(s: Scan, imcuRow: nat, yoffset: nat, mcuCol: nat, i: nat, before: seq<Pos>)
    returns (list: seq<Pos>)
    requires s.Valid() && i < |s.cur| && |before| == s.Offset(i) && Listed(s, before, imcuRow, yoffset, mcuCol)
    ensures |list| == s.Offset(i + 1) && Listed(s, list, imcuRow, yoffset, mcuCol)
  {
    hide Scan.Offset, Listed, Component.Fits;
    PartShape(s, i, mcuCol);
    var c := s.Comp(i);
    list := before;
    var startCol := mcuCol * c.mcuWidth;
    var y := 0;
    while y < c.mcuHeight
      invariant y <= c.mcuHeight && |list| == s.Offset(i) + y * c.mcuWidth
      invariant Listed(s, list, imcuRow, yoffset, mcuCol)
    {
      var x := 0;
      while x < c.mcuWidth
        invariant x <= c.mcuWidth && |list| == s.Offset(i) + y * c.mcuWidth + x
        invariant Listed(s, list, imcuRow, yoffset, mcuCol)
      {
        ListNext(s, list, imcuRow, yoffset, mcuCol, i, y, x);
        list := list + [Pos(s.cur[i], imcuRow * c.v + (yoffset + y), startCol + x)];
        x := x + 1;
      }
      y := y + 1;
    }
  }

  // The list of pointers to the blocks of an MCU.
  method ListMcu(s: Scan, imcuRow: nat, yoffset: nat, mcuCol: nat) returns (list: seq<Pos>)
    requires s.Valid()
    ensures |list| == s.Offset(|s.cur|) && Listed(s, list, imcuRow, yoffset, mcuCol)
  {
    list := [];
    var ci := 0;
    while ci < |s.cur|
      invariant ci <= |s.cur| && |list| == s.Offset(ci) && Listed(s, list, imcuRow, yoffset, mcuCol)
    {
      list := ListComponent(s, imcuRow, yoffset, mcuCol, ci, list);
      ci := ci + 1;
    }
  }

  // Decoding an MCU puts its blocks where the list points.
  ghost function Decoded(num: nat, mcu: nat, list: seq<Pos>): set<Stored> {
    set k | 0 <= k < |list| :: Stored(num, list[k], mcu, k)
  }

  // The blocks of the first n MCUs of scan `num` are in their places.
  ghost predicate StoredUpTo(s: Scan, num: nat, stored: set<Stored>, n: nat)
    requires s.Valid()
  {
    forall i: nat, row: nat, col: nat | s.Real(i, row, col) && s.Place(i, row, col).mcu < n ::
      Stored(num, Pos(s.cur[i], row, col), s.Place(i, row, col).mcu, s.Place(i, row, col).blkn) in stored
  }

  // The blocks of a given MCU are where the loops say.
  lemma MemberOf(s: Scan, imcuRow: nat, yoffset: nat, mcuCol: nat, i: nat, row: nat, col: nat)
    requires s.Valid() && s.Real(i, row, col)
    requires imcuRow < s.totalIMCURows && yoffset < s.RowsIn(imcuRow) && mcuCol < s.mcusPerRow
    requires s.Place(i, row, col).mcu == s.McuOf(s.McuRow(imcuRow, yoffset), mcuCol)
    ensures s.Comp(i).mcuHeight > 0 && s.Comp(i).mcuWidth > 0
    ensures var y, x := row % s.Comp(i).mcuHeight, col % s.Comp(i).mcuWidth;
      && InMcu(s, i, y, x) && s.Place(i, row, col).blkn == s.BlockOf(i, y, x)
      && Pos(s.cur[i], row, col) == Target(s, imcuRow, yoffset, mcuCol, i, y, x)
  {
    hide Scan.BlockOf, Scan.McuOf, Scan.McuRow, Scan.RowsIn, Component.Fits;
    InsideMcu(s, i, row, col);
    var c := s.Comp(i);
    McuSplits(s, row / c.mcuHeight, col / c.mcuWidth, s.McuRow(imcuRow, yoffset), mcuCol);
    DivMod(row, c.mcuHeight);
    DivMod(col, c.mcuWidth);
    McuRowStart(s, i, imcuRow, yoffset);
    ProductOrder(c.mcuHeight, s.McuRow(imcuRow, yoffset));
    ProductOrder(c.mcuWidth, mcuCol);
  }

  lemma ProductOrder(a: nat, b: nat)
    ensures a * b == b * a
  {}

  // The first block row of an MCU row.
  lemma McuRowStart(s: Scan, i: nat, imcuRow: nat, yoffset: nat)
    requires s.Valid() && i < |s.cur| && imcuRow < s.totalIMCURows && yoffset < s.RowsIn(imcuRow)
    ensures s.McuRow(imcuRow, yoffset) * s.Comp(i).mcuHeight == imcuRow * s.Comp(i).v + yoffset
  {
    var c := s.Comp(i);
    assert c.Fits(s.Interleaved(), s.mcusPerRow, s.totalIMCURows);
    if |s.cur| == 1 {
      assert c.mcuHeight == 1 && i == 0;
    } else {
      assert c.mcuHeight == c.v && yoffset == 0;
    }
  }

  lemma StoreMcu(s: Scan, num: nat, stored: set<Stored>, imcuRow: nat, yoffset: nat, mcuCol: nat, mcu: nat,
                 list: seq<Pos>)
    requires s.Valid() && imcuRow < s.totalIMCURows && yoffset < s.RowsIn(imcuRow) && mcuCol < s.mcusPerRow
    requires mcu == s.McuOf(s.McuRow(imcuRow, yoffset), mcuCol)
    requires |list| == s.Offset(|s.cur|) && Listed(s, list, imcuRow, yoffset, mcuCol)
    requires StoredUpTo(s, num, stored, mcu)
    ensures StoredUpTo(s, num, stored + Decoded(num, mcu, list), mcu + 1)
  {
    hide Scan.McuOf, Scan.BlockOf, Scan.Place, Scan.McuRow, Scan.RowsIn, Scan.Offset, Component.Fits, Target;
    forall i: nat, row: nat, col: nat | s.Real(i, row, col) && s.Place(i, row, col).mcu < mcu + 1
      ensures Stored(num, Pos(s.cur[i], row, col), s.Place(i, row, col).mcu, s.Place(i, row, col).blkn)
           in stored + Decoded(num, mcu, list)
    {
      if s.Place(i, row, col).mcu == mcu {
        MemberOf(s, imcuRow, yoffset, mcuCol, i, row, col);
        BlockRange(s, i, row % s.Comp(i).mcuHeight, col % s.Comp(i).mcuWidth);
      }
    }
  }

  // All blocks of iMCU row r of a scan.
  ghost predicate RowStored(s: Scan, num: nat, stored: set<Stored>, r: nat)
    requires s.Valid()
  {
    forall i: nat, row: nat, col: nat | s.Real(i, row, col) && s.Comp(i).v > 0 && row / s.Comp(i).v <= r ::
      Stored(num, Pos(s.cur[i], row, col), s.Place(i, row, col).mcu, s.Place(i, row, col).blkn) in stored
  }

  // Once the MCUs before iMCU row r + 1 have been decoded, row r is in its place.
  lemma RowInPlace(s: Scan, num: nat, stored: set<Stored>, r: nat)
    requires s.Valid() && r < s.totalIMCURows
    requires StoredUpTo(s, num, stored, if r + 1 < s.totalIMCURows then s.McuOf(s.McuRow(r + 1, 0), 0)
        else s.McuOf(s.McuRows(), 0))
    ensures RowStored(s, num, stored, r)
  {
    hide Scan.McuOf, Scan.McuRow, Scan.McuRows, Scan.Place, Component.Fits;
    forall i: nat, row: nat, col: nat | s.Real(i, row, col) && s.Comp(i).v > 0 && row / s.Comp(i).v <= r
      ensures Stored(num, Pos(s.cur[i], row, col), s.Place(i, row, col).mcu, s.Place(i, row, col).blkn) in stored
    {
      if r + 1 < s.totalIMCURows {
        BeforeRow(s, i, row, col, r);
      } else {
        McuRowsEnough(s, i, row, col);
      }
    }
  }

  lemma BeforeRow(s: Scan, i: nat, row: nat, col: nat, r: nat)
    requires s.Valid() && s.Real(i, row, col) && s.Comp(i).v > 0 && row / s.Comp(i).v <= r && r + 1 < s.totalIMCURows
    ensures s.Place(i, row, col).mcu < s.McuOf(s.McuRow(r + 1, 0), 0)
  {
    hide Component.Fits;
    InsideMcu(s, i, row, col);
    var c := s.Comp(i);
    McuRowBefore(s, i, row, r);
    PositionInside(s.mcusPerRow, s.McuRow(r + 1, 0), row / c.mcuHeight, col / c.mcuWidth);
  }

  lemma McuRowBefore(s: Scan, i: nat, row: nat, r: nat)
    requires s.Valid() && i < |s.cur| && s.Comp(i).v > 0 && row / s.Comp(i).v <= r
    ensures s.Comp(i).mcuHeight > 0 && row / s.Comp(i).mcuHeight < s.McuRow(r + 1, 0)
  {
    var c := s.Comp(i);
    assert c.Fits(s.Interleaved(), s.mcusPerRow, s.totalIMCURows);
    if |s.cur| == 1 {
      DivMod(row, c.v);
      ProductMonotone(c.v, row / c.v, r);
    }
  }

  lemma RowStoredMore(s: Scan, num: nat, stored: set<Stored>, r: nat, r': nat)
    requires s.Valid() && RowStored(s, num, stored, r) && r' <= r
    ensures RowStored(s, num, stored, r')
  {}

  // A block of iMCU row r of a component.
  predicate InRow(c: Component, row: nat, col: nat, r: nat) {
    c.v > 0 && row < c.heightInBlocks && col < c.widthInBlocks && row / c.v == r
  }

  // The block rows of an iMCU row, as decompress_data counts them.
  lemma RowsOfIMCURow(c: Component, total: nat, r: nat, rows: nat, row: nat)
    requires total >= 1 && FillsRows(c, total) && r < total
    requires rows == if r < total - 1 then c.v else LastPart(c.heightInBlocks, c.v)
    ensures (row < c.heightInBlocks && row / c.v == r) <==> r * c.v <= row < r * c.v + rows
  {
    var last := c.heightInBlocks - (total - 1) * c.v;
    LastPartIs(c.heightInBlocks, c.v, total, last);
    if r * c.v <= row < r * c.v + rows {
      PartSplit(c.v, total, last, c.heightInBlocks, r, row - r * c.v, row);
    } else if row / c.v == r {
      DivMod(row, c.v);
      PartSplit(c.v, total, last, c.heightInBlocks, r, row % c.v, row);
    }
  }

  lemma LastPartIs(total: nat, n: nat, parts: nat, last: nat)
    requires 1 <= last <= n && parts >= 1 && (parts - 1) * n + last == total
    ensures LastPart(total, n) == last
  {
    if last == n {
      QuotientIs(total, n, parts);
    } else {
      QuotientIs(total, n, parts - 1);
    }
  }

  // What a scan takes from the frame: the sizes of the components.
  predicate SameFrame(s: Scan, comps: seq<Component>) {
    && |s.comps| == |comps|
    && forall p | 0 <= p < |comps| ::
         && s.comps[p].v == comps[p].v
         && s.comps[p].heightInBlocks == comps[p].heightInBlocks && s.comps[p].widthInBlocks == comps[p].widthInBlocks
  }

  // A component's block rows fill `total` iMCU rows, the last at least in part.
  predicate FillsRows(c: Component, total: nat) {
    c.v > 0 && (total - 1) * c.v < c.heightInBlocks <= total * c.v
  }

  // The input side was at (inputScan, inputRow) when row `row` of scan `scan` was output.
  datatype Emission = Emission(scan: nat, row: nat, inputScan: nat, inputRow: nat) {
    predicate NotOvertaken() {
      inputScan > scan || (inputScan == scan && inputRow > row)
    }
  }

  class Decompressor {
    // The frame, and the scans of the data stream.
    const comps: seq<Component>
    const scans: seq<Scan>
    const total: nat
    const hasMultipleScans: bool
    // A source that waits for its input never suspends; any other has `arrived` units at hand.
    const waits: bool
    var arrived: nat
    // Input side.
    var inputScan: nat
    var inputIMCURow: nat
    var consumingData: bool
    var eoiReached: bool
    var mcuCtr: nat
    var mcuVertOffset: nat
    var mcuRowsPerIMCURow: nat
    var decoded: nat
    // Output side.
    var outputScan: nat
    var outputIMCURow: nat
    // What is in the coefficient arrays, what has been put out in this pass, and every iMCU row
    // put out so far.
    ghost var stored: set<Stored>
    ghost var shown: set<Pos>
    ghost var history: seq<Emission>

    ghost predicate StreamOk() {
      && total >= 1 && |scans| >= 1
      && (forall k | 0 <= k < |scans| ::
        scans[k].Valid() && scans[k].totalIMCURows == total && SameFrame(scans[k], comps))
      && (forall p | 0 <= p < |comps| :: FillsRows(comps[p], total))
    }

    // consume_data is about to decode MCU `col` of MCU row `yoffset` of the current iMCU row.
    ghost predicate At(yoffset: nat, col: nat)
      reads `inputScan, `inputIMCURow, `mcuRowsPerIMCURow, `decoded, `stored
    {
      && StreamOk() && 1 <= inputScan <= |scans| && inputIMCURow < total
      && mcuRowsPerIMCURow == scans[inputScan - 1].RowsIn(inputIMCURow)
      && decoded == scans[inputScan - 1].McuOf(scans[inputScan - 1].McuRow(inputIMCURow, 0) + yoffset, col)
      && StoredUpTo(scans[inputScan - 1], inputScan, stored, decoded)
    }

    // The first n scans are complete.
    ghost predicate ScansIn(blocks: set<Stored>, n: nat) {
      StreamOk() && n <= |scans| && forall k | 0 <= k < n :: RowStored(scans[k], k + 1, blocks, total - 1)
    }

    lemma ScansStay(blocks: set<Stored>, more: set<Stored>, n: nat)
      requires ScansIn(blocks, n) && blocks <= more
      ensures ScansIn(more, n)
    {
      hide RowStored;
      forall k | 0 <= k < n
        ensures RowStored(scans[k], k + 1, more, total - 1)
      {
        RowStays(scans[k], k + 1, blocks, more, total - 1);
      }
    }

    ghost predicate InputOk()
      reads `inputScan, `inputIMCURow, `mcuRowsPerIMCURow, `decoded, `stored, `consumingData, `eoiReached, `mcuCtr,
          `mcuVertOffset
    {
      && StreamOk() && 1 <= inputScan <= |scans|
      && (eoiReached ==> !consumingData && inputScan == |scans|)
      && ScansIn(stored, if consumingData then inputScan - 1 else inputScan)
      && (consumingData ==>
            && At(mcuVertOffset, mcuCtr) && mcuVertOffset < mcuRowsPerIMCURow
              && mcuCtr < scans[inputScan - 1].mcusPerRow)
      && (!consumingData ==> inputIMCURow == total)
    }

    ghost predicate Valid()
      reads this
    {
      && InputOk() && outputScan >= 1 && outputIMCURow <= total
      && (eoiReached ==> outputScan <= inputScan)
      && (forall e | e in history :: e.NotOvertaken())
    }

    // The input is past iMCU row r of scan num.
    predicate Past(num: nat, r: nat)
      reads `inputScan, `inputIMCURow
    {
      inputScan > num || (inputScan == num && inputIMCURow > r)
    }

    // Rows the input is past are in the coefficient arrays.
    lemma PastIsStored(num: nat, r: nat)
      requires InputOk() && 1 <= num && r < total && Past(num, r)
      ensures num <= |scans| && RowStored(scans[num - 1], num, stored, r)
    {
      hide RowStored, Scan.McuOf, Scan.McuRow, Scan.McuRows, StoredUpTo;
      var s := scans[num - 1];
      if num <= (if consumingData then inputScan - 1 else inputScan) {
        assert RowStored(scans[num - 1], num, stored, total - 1);
        RowStoredMore(s, num, stored, total - 1, r);
      } else {
        NextIMCURow(s, inputIMCURow - 1);
        RowStarted(s, s.McuRow(inputIMCURow, 0), mcuVertOffset, mcuCtr);
        StoredLess(s, num, stored, decoded, s.McuOf(s.McuRow(inputIMCURow, 0), 0));
        RowInPlace(s, num, stored, inputIMCURow - 1);
        RowStoredMore(s, num, stored, inputIMCURow - 1, r);
      }
    }

    ghost predicate Blocked()
      reads `arrived
    {
      !waits && arrived == 0
    }

    // After jpeg_start_decompress in buffered-image mode: the header of the first scan has been read.
    constructor (comps: seq<Component>, scans: seq<Scan>, total: nat, hasMultipleScans: bool, waits: bool)
      requires total >= 1 && |scans| >= 1
      requires forall k | 0 <= k < |scans| ::
          scans[k].Valid() && scans[k].totalIMCURows == total && SameFrame(scans[k], comps)
      requires forall p | 0 <= p < |comps| :: FillsRows(comps[p], total)
      ensures Valid() && this.comps == comps && this.scans == scans && this.total == total
      ensures this.hasMultipleScans == hasMultipleScans && this.waits == waits
      ensures inputScan == 1 && inputIMCURow == 0 && consumingData && history == [] && arrived == 0
    {
      this.comps, this.scans, this.total := comps, scans, total;
      this.hasMultipleScans, this.waits, arrived := hasMultipleScans, waits, 0;
      inputScan, inputIMCURow, consumingData, eoiReached := 1, 0, true, false;
      mcuCtr, mcuVertOffset := 0, 0;
      mcuRowsPerIMCURow := scans[0].RowsIn(0);
      decoded := 0;
      outputScan, outputIMCURow := 1, 0;
      stored, shown, history := {}, {}, [];
      NextIMCURow(scans[0], 0);
    }

    // start_iMCU_row for the current scan.
    method StartIMCURow()
      requires StreamOk() && 1 <= inputScan <= |scans| && inputIMCURow < total
      modifies `mcuCtr, `mcuVertOffset, `mcuRowsPerIMCURow
      ensures mcuCtr == mcuVertOffset == 0 && mcuRowsPerIMCURow == scans[inputScan - 1].RowsIn(inputIMCURow)
    {
      var s := scans[inputScan - 1];
      if |s.cur| > 1 {
        mcuRowsPerIMCURow := 1;
      } else {
        if inputIMCURow < total - 1 {
          mcuRowsPerIMCURow := s.Comp(0).v;
        } else {
          mcuRowsPerIMCURow := s.Comp(0).lastRowHeight;
        }
      }
      mcuCtr, mcuVertOffset := 0, 0;
    }

    // One MCU of a row: point at its blocks and decode into them, input permitting.
    method ConsumeMcu(yoffset: nat, mcuCol: nat) returns (ok: bool)
      requires At(yoffset, mcuCol) && yoffset < mcuRowsPerIMCURow && mcuCol < scans[inputScan - 1].mcusPerRow
      modifies `arrived, `decoded, `stored
      ensures ok ==> At(yoffset, mcuCol + 1) && old(stored) <= stored
      ensures !ok ==> Blocked() && decoded == old(decoded) && stored == old(stored)
    {
      hide Scan.McuOf, Scan.McuRow, Scan.RowsIn, Scan.Offset, Listed, StoredUpTo;
      var s := scans[inputScan - 1];
      var list := ListMcu(s, inputIMCURow, yoffset, mcuCol);
      if !waits && arrived == 0 {
        return false;
      }
      if arrived > 0 { arrived := arrived - 1; }
      NextIMCURow(s, inputIMCURow);
      StoreMcu(s, inputScan, stored, inputIMCURow, yoffset, mcuCol, decoded, list);
      NextMcu(s, s.McuRow(inputIMCURow, 0) + yoffset, mcuCol);
      stored := stored + Decoded(inputScan, decoded, list);
      decoded := decoded + 1;
      return true;
    }

    // The MCUs of one MCU row.
    method ConsumeRow(yoffset: nat) returns (suspended: bool)
      requires At(yoffset, mcuCtr) && yoffset < mcuRowsPerIMCURow && mcuCtr < scans[inputScan - 1].mcusPerRow
      modifies `arrived, `decoded, `stored, `mcuCtr, `mcuVertOffset
      ensures old(stored) <= stored
      ensures suspended ==>
          Blocked() && mcuVertOffset == yoffset && mcuCtr < scans[inputScan - 1].mcusPerRow && At(yoffset, mcuCtr)
      ensures !suspended ==> mcuCtr == 0 && At(yoffset + 1, 0)
    {
      hide Scan.McuOf, Scan.McuRow, Scan.RowsIn, StoredUpTo;
      var mcuCol := mcuCtr;
      while mcuCol < scans[inputScan - 1].mcusPerRow
        invariant mcuCol <= scans[inputScan - 1].mcusPerRow && At(yoffset, mcuCol) && old(stored) <= stored
      {
        var ok := ConsumeMcu(yoffset, mcuCol);
        if !ok {
          mcuVertOffset := yoffset;
          mcuCtr := mcuCol;
          return true;
        }
        mcuCol := mcuCol + 1;
      }
      mcuCtr := 0;
      NextMcuRow(scans[inputScan - 1], scans[inputScan - 1].McuRow(inputIMCURow, 0) + yoffset);
      return false;
    }

    method ConsumeData() returns (r: Status)
      requires InputOk() && consumingData
      modifies `arrived, `decoded, `stored, `mcuCtr, `mcuVertOffset, `mcuRowsPerIMCURow, `inputIMCURow, `consumingData
      ensures InputOk() && old(stored) <= stored
      ensures r == Suspended ==> Blocked() && consumingData && inputIMCURow == old(inputIMCURow)
      ensures r == RowCompleted ==> consumingData && inputIMCURow == old(inputIMCURow) + 1
      ensures r == ScanCompleted ==> !consumingData && inputIMCURow == old(inputIMCURow) + 1 == total
      ensures r == Suspended || r == RowCompleted || r == ScanCompleted
    {
      hide Scan.McuOf, Scan.McuRow, Scan.RowsIn, Scan.McuRows, StoredUpTo, RowStored, Decompressor.ScansIn;
      NextIMCURow(scans[inputScan - 1], inputIMCURow);
      var yoffset: nat := mcuVertOffset;
      while yoffset < mcuRowsPerIMCURow
        invariant yoffset <= mcuRowsPerIMCURow == scans[inputScan - 1].RowsIn(inputIMCURow) && At(yoffset, mcuCtr)
        invariant mcuCtr < scans[inputScan - 1].mcusPerRow && (yoffset == mcuRowsPerIMCURow ==> mcuCtr == 0)
        invariant inputIMCURow == old(inputIMCURow) && consumingData && old(stored) <= stored
      {
        var suspended := ConsumeRow(yoffset);
        if suspended {
          ScansStay(old(stored), stored, inputScan - 1);
          return Suspended;
        }
        yoffset := yoffset + 1;
      }
      ScansStay(old(stored), stored, inputScan - 1);
      inputIMCURow := inputIMCURow + 1;
      if inputIMCURow < total {
        StartIMCURow();
        NextIMCURow(scans[inputScan - 1], inputIMCURow);
        return RowCompleted;
      }
      RowInPlace(scans[inputScan - 1], inputScan, stored, total - 1);
      OneMoreScan(stored, inputScan - 1);
      consumingData := false;
      return ScanCompleted;
    }

    lemma OneMoreScan(blocks: set<Stored>, n: nat)
      requires ScansIn(blocks, n) && n < |scans| && RowStored(scans[n], n + 1, blocks, total - 1)
      ensures ScansIn(blocks, n + 1)
    {}

    // start_input_pass: per_scan_setup has been done in `scans`.
    method StartInputPass()
      requires StreamOk() && 1 <= inputScan <= |scans| && ScansIn(stored, inputScan - 1) && !eoiReached
      modifies `inputIMCURow, `mcuCtr, `mcuVertOffset, `mcuRowsPerIMCURow, `consumingData, `decoded
      ensures InputOk() && consumingData && inputIMCURow == 0
    {
      hide RowStored;
      inputIMCURow := 0;
      StartIMCURow();
      NextIMCURow(scans[inputScan - 1], 0);
      decoded := 0;
      consumingData := true;
    }

    method ConsumeMarkers() returns (r: Status)
      requires InputOk() && !consumingData && (eoiReached ==> outputScan <= inputScan)
      modifies `arrived, `inputScan, `inputIMCURow, `mcuCtr, `mcuVertOffset, `mcuRowsPerIMCURow, `consumingData,
          `decoded,
               `eoiReached, `outputScan
      ensures InputOk() && (eoiReached ==> outputScan <= inputScan)
      ensures r == ReachedEOI <==> eoiReached
      ensures old(eoiReached) ==> eoiReached && inputScan == old(inputScan) && outputScan == old(outputScan)
      ensures r == ReachedSOS ==>
          inputScan == old(inputScan) + 1 && consumingData && inputIMCURow == 0 && hasMultipleScans
      ensures r == ReachedEOI ==> inputScan == old(inputScan) == |scans| && !consumingData
      ensures r == Suspended ==> Blocked() && inputScan == old(inputScan) && !consumingData
      ensures r == EOIExpected ==>
          !hasMultipleScans && inputScan < |scans| && inputScan == old(inputScan) && !consumingData
      ensures r == ReachedSOS || r == ReachedEOI || r == Suspended || r == EOIExpected
      ensures outputScan == if !old(eoiReached) && eoiReached
          && old(outputScan) > inputScan then inputScan else old(outputScan)
    {
      if eoiReached {
        return ReachedEOI;
      }
      if !waits && arrived == 0 {
        return Suspended;
      }
      if arrived > 0 { arrived := arrived - 1; }
      if inputScan < |scans| {
        if !hasMultipleScans {
          return EOIExpected;
        }
        inputScan := inputScan + 1;
        StartInputPass();
        return ReachedSOS;
      } else {
        eoiReached := true;
        if outputScan > inputScan {
          outputScan := inputScan;
        }
        return ReachedEOI;
      }
    }

    // Scans not begun, EOI not reached, iMCU rows of the current scan not read: what is left of the stream.
    function RowsToRead(): nat
      reads `consumingData, `inputIMCURow
    {
      if consumingData && inputIMCURow <= total then total - inputIMCURow + 1 else 0
    }

    method ConsumeInput() returns (r: Status)
      requires Valid()
      modifies `arrived, `inputScan, `inputIMCURow, `mcuCtr, `mcuVertOffset, `mcuRowsPerIMCURow, `consumingData,
          `decoded,
               `stored, `eoiReached, `outputScan
      ensures Valid() && old(stored) <= stored
      ensures r == Suspended ==> Blocked()
      ensures r == EOIExpected ==> !hasMultipleScans && inputScan < |scans|
      ensures inputScan >= old(inputScan) && (inputScan == old(inputScan) ==> inputIMCURow >= old(inputIMCURow))
      ensures outputScan == if !old(eoiReached) && eoiReached
          && old(outputScan) > inputScan then inputScan else old(outputScan)
      ensures old(eoiReached) ==> eoiReached
      ensures r == ReachedEOI <==> eoiReached
      // Every call that neither suspends nor fails reads on, until EOI.
      ensures r != Suspended && r != EOIExpected && !old(eoiReached) ==>
                || inputScan > old(inputScan)
                || (inputScan == old(inputScan) && eoiReached)
                || (inputScan == old(inputScan) && !eoiReached && RowsToRead() < old(RowsToRead()))
    {
      hide RowStored, StoredUpTo, Scan.McuOf, Scan.McuRow, Scan.RowsIn, Decompressor.ScansIn;
      if consumingData {
        r := ConsumeData();
      } else {
        r := ConsumeMarkers();
      }
    }

    // Part of what the current call puts out: block rows before `rows` of component ci, and the
    // first `cols` blocks of that row; components before ci entirely.
    predicate Due(p: Pos, r: nat, ci: nat, rows: nat, cols: nat) {
      && p.plane < |comps| && comps[p.plane].needed && InRow(comps[p.plane], p.row, p.col, r)
      && (p.plane < ci || (p.plane == ci && (p.row < rows || (p.row == rows && p.col < cols))))
    }

    ghost predicate ShownUpTo(now: set<Pos>, before: set<Pos>, r: nat, ci: nat, rows: nat, cols: nat) {
      forall p :: p in now <==> p in before || Due(p, r, ci, rows, cols)
    }

    // The rows of row r begin at r * v and end with its last block row.
    lemma RowEnds(now: set<Pos>, before: set<Pos>, r: nat, ci: nat, rows: nat)
      requires StreamOk() && ci < |comps| && r < total
      requires rows == if r < total - 1 then comps[ci].v else LastPart(comps[ci].heightInBlocks, comps[ci].v)
      ensures ShownUpTo(now, before, r, ci, 0, 0) ==> ShownUpTo(now, before, r, ci, r * comps[ci].v, 0)
      ensures ShownUpTo(now, before, r, ci, r * comps[ci].v + rows, 0) ==> ShownUpTo(now, before, r, ci + 1, 0, 0)
    {
      var c := comps[ci];
      forall p: Pos
        ensures Due(p, r, ci, 0, 0) <==> Due(p, r, ci, r * c.v, 0)
        ensures Due(p, r, ci, r * c.v + rows, 0) <==> Due(p, r, ci + 1, 0, 0)
      {
        if p.plane == ci {
          RowsOfIMCURow(c, total, r, rows, p.row);
        }
      }
    }

    // The blocks of one row of blocks.
    method ShowBlockRow(ci: nat, row: nat, ghost before: set<Pos>, ghost r: nat)
      requires ci < |comps| && comps[ci].needed && comps[ci].v > 0 && row < comps[ci].heightInBlocks
          && row / comps[ci].v == r
      requires ShownUpTo(shown, before, r, ci, row, 0)
      modifies `shown
      ensures ShownUpTo(shown, before, r, ci, row + 1, 0)
    {
      var col := 0;
      while col < comps[ci].widthInBlocks
        invariant col <= comps[ci].widthInBlocks && ShownUpTo(shown, before, r, ci, row, col)
      {
        shown := shown + {Pos(ci, row, col)};
        col := col + 1;
      }
    }

    // The component loop of decompress_data.
    method ShowComponent(ci: nat, ghost before: set<Pos>)
      requires StreamOk() && ci < |comps| && outputIMCURow < total && ShownUpTo(shown, before, outputIMCURow, ci, 0, 0)
      modifies `shown
      ensures ShownUpTo(shown, before, outputIMCURow, ci + 1, 0, 0)
    {
      hide Component.Fits, Decompressor.ShownUpTo;
      var c := comps[ci];
      if !c.needed {
        SkipShown(shown, before, outputIMCURow, ci);
        return;
      }
      var blockRows: nat;
      if outputIMCURow < total - 1 {
        blockRows := c.v;
      } else {
        blockRows := c.heightInBlocks % c.v;
        if blockRows == 0 { blockRows := c.v; }
      }
      var top: nat := outputIMCURow * c.v;
      RowEnds(shown, before, outputIMCURow, ci, blockRows);
      var blockRow := 0;
      while blockRow < blockRows
        invariant blockRow <= blockRows && ShownUpTo(shown, before, outputIMCURow, ci, top + blockRow, 0)
      {
        RowsOfIMCURow(c, total, outputIMCURow, blockRows, top + blockRow);
        ShowBlockRow(ci, top + blockRow, before, outputIMCURow);
        blockRow := blockRow + 1;
      }
      RowEnds(shown, before, outputIMCURow, ci, blockRows);
    }

    lemma SkipShown(now: set<Pos>, before: set<Pos>, r: nat, ci: nat)
      requires ci < |comps| && !comps[ci].needed && ShownUpTo(now, before, r, ci, 0, 0)
      ensures ShownUpTo(now, before, r, ci + 1, 0, 0)
    {}

    // What has been put out is now what it was before and the wanted blocks of row r.
    ghost predicate RowShown(before: set<Pos>, r: nat)
      reads `shown
    {
      forall p ::
        p in shown <==>
          (p in before || (p.plane < |comps| && comps[p.plane].needed && InRow(comps[p.plane], p.row, p.col, r)))
    }

    method ShowRow()
      requires StreamOk() && outputIMCURow < total
      modifies `shown
      ensures RowShown(old(shown), outputIMCURow)
    {
      hide InRow, Component.Fits, Decompressor.StreamOk;
      var ci := 0;
      while ci < |comps|
        invariant ci <= |comps| && ShownUpTo(shown, old(shown), outputIMCURow, ci, 0, 0)
      {
        ShowComponent(ci, old(shown));
        ci := ci + 1;
      }
    }

    // Force input until it is past the row to be put out.
    method CatchUp() returns (r: Status)
      requires Valid() && outputIMCURow < total
      modifies `arrived, `inputScan, `inputIMCURow, `mcuCtr, `mcuVertOffset, `mcuRowsPerIMCURow, `consumingData,
          `decoded,
               `stored, `eoiReached, `outputScan
      ensures Valid() && old(stored) <= stored
      ensures r == Suspended ==> Blocked()
      ensures r == EOIExpected ==> !hasMultipleScans && inputScan < |scans|
      ensures r != Suspended && r != EOIExpected ==> Past(outputScan, outputIMCURow)
      ensures outputScan == old(outputScan) || (outputScan == |scans| < old(outputScan) && eoiReached)
    {
      hide Decompressor.Valid;
      Standing();
      r := RowCompleted;
      while inputScan < outputScan || (inputScan == outputScan && inputIMCURow <= outputIMCURow)
        invariant Valid() && old(stored) <= stored && 1 <= inputScan <= |scans| && r != Suspended && r != EOIExpected
        invariant outputScan == old(outputScan) || (outputScan == |scans| < old(outputScan) && eoiReached)
        decreases |scans| - inputScan, if eoiReached then 0 else 1, RowsToRead()
      {
        Standing();
        r := ConsumeInput();
        Standing();
        if r == Suspended || r == EOIExpected {
          return;
        }
      }
    }

    // One call of the output side.
    method DecompressData() returns (r: Status)
      requires Valid() && outputIMCURow < total
      modifies this
      ensures Valid() && old(stored) <= stored
      ensures r == Suspended || r == EOIExpected || r == RowCompleted || r == ScanCompleted
      ensures r == Suspended ==> Blocked()
      ensures r == EOIExpected ==> !hasMultipleScans && inputScan < |scans|
      ensures r == Suspended || r == EOIExpected ==>
          outputIMCURow == old(outputIMCURow) && shown == old(shown) && history == old(history)
      // A row is put out only when the input is past it, so the arrays hold what the scan says of it.
      ensures r == RowCompleted || r == ScanCompleted ==>
          && Past(outputScan, old(outputIMCURow))
          && outputScan <= |scans| && RowStored(scans[outputScan - 1], outputScan, stored, old(outputIMCURow))
          && RowShown(old(shown), old(outputIMCURow)) && outputIMCURow == old(outputIMCURow) + 1
          && history == old(history) + [Emission(outputScan, old(outputIMCURow), inputScan, inputIMCURow)]
      ensures r == RowCompleted ==> outputIMCURow < total
      ensures r == ScanCompleted ==> outputIMCURow == total
      // The scan put out changes only when the stream turns out to have no such scan.
      ensures outputScan == old(outputScan) || (outputScan == |scans| < old(outputScan) && eoiReached)
    {
      hide RowStored, Decompressor.InputOk, RowShown;
      r := CatchUp();
      if r == Suspended || r == EOIExpected {
        return;
      }
      Standing();
      PastIsStored(outputScan, outputIMCURow);
      ShowRow();
      history := history + [Emission(outputScan, outputIMCURow, inputScan, inputIMCURow)];
      outputIMCURow := outputIMCURow + 1;
      r := if outputIMCURow < total then RowCompleted else ScanCompleted;
    }

    // jpeg_start_output: choose the scan for the next pass.
    method StartOutput(scanNumber: int)
      requires Valid()
      modifies `outputScan, `outputIMCURow, `shown
      ensures Valid() && outputIMCURow == 0 && shown == {}
      ensures outputScan == if scanNumber <= 0 then 1 else if eoiReached && scanNumber > |scans| then |scans|
          else scanNumber
    {
      var n := if scanNumber <= 0 then 1 else scanNumber;
      if eoiReached && n > inputScan {
        n := inputScan;
      }
      outputScan, outputIMCURow := n, 0;
      shown := {};
    }

    // The loop of jpeg_finish_output: read up to the next scan, or EOI.
    method FinishOutput() returns (done: bool)
      requires Valid()
      modifies `arrived, `inputScan, `inputIMCURow, `mcuCtr, `mcuVertOffset, `mcuRowsPerIMCURow, `consumingData,
          `decoded,
               `stored, `eoiReached, `outputScan
      ensures Valid() && old(stored) <= stored
      ensures done ==> inputScan > outputScan || eoiReached
      ensures !done ==> Blocked() || (!hasMultipleScans && inputScan < |scans|)
    {
      hide Decompressor.Valid;
      Standing();
      while inputScan <= outputScan && !eoiReached
        invariant Valid() && old(stored) <= stored && 1 <= inputScan <= |scans|
        decreases |scans| - inputScan, if eoiReached then 0 else 1, RowsToRead()
      {
        var r := ConsumeInput();
        Standing();
        if r == Suspended || r == EOIExpected {
          return false;
        }
      }
      return true;
    }

    // The loop of jpeg_start_decompress that absorbs a whole multiple-scan file.
    method Preload() returns (done: bool)
      requires Valid()
      modifies `arrived, `inputScan, `inputIMCURow, `mcuCtr, `mcuVertOffset, `mcuRowsPerIMCURow, `consumingData,
          `decoded,
               `stored, `eoiReached, `outputScan
      ensures Valid() && old(stored) <= stored
      ensures done ==> eoiReached && outputScan == inputScan == |scans| && ScansIn(stored, |scans|)
      ensures !done ==> Blocked() || (!hasMultipleScans && inputScan < |scans|)
    {
      hide Decompressor.Valid, Decompressor.ScansIn;
      Standing();
      var r := RowCompleted;
      while r != ReachedEOI
        invariant Valid() && old(stored) <= stored && 1 <= inputScan <= |scans| && (r == ReachedEOI ==> eoiReached)
        decreases r != ReachedEOI, |scans| - inputScan, if eoiReached then 0 else 1, RowsToRead()
      {
        r := ConsumeInput();
        Standing();
        if r == Suspended || r == EOIExpected {
          return false;
        }
      }
      Standing();
      SetOutputScan();
      return true;
    }

    method SetOutputScan()
      requires Valid()
      modifies `outputScan
      ensures Valid() && outputScan == inputScan
    {
      outputScan := inputScan;
    }

    // More input arrives.
    method Arrive(n: nat)
      requires Valid()
      modifies `arrived
      ensures Valid() && arrived == old(arrived) + n
    {
      arrived := arrived + n;
    }

    // Any run of the buffered-image interface: no row of a scan is ever put out before the input
    // side has passed it.
    method Run(commands: seq<Command>)
      requires Valid()
      modifies this
      ensures Valid() && old(history) <= history
      ensures forall e | e in history :: e.NotOvertaken()
    {
      hide Decompressor.Valid;
      var k := 0;
      while k < |commands|
        invariant k <= |commands| && Valid() && old(history) <= history
      {
        Obey(commands[k]);
        k := k + 1;
      }
      Standing();
    }

    method Obey(command: Command)
      requires Valid()
      modifies this
      ensures Valid() && old(history) <= history
    {
      hide Decompressor.Valid;
      match command
      case Arrive(n) =>
        Arrive(n);
      case Consume =>
        var _ := ConsumeInput();
      case Start(n) =>
        StartOutput(n);
      case Show =>
        if outputIMCURow < total {
          var _ := DecompressData();
        }
      case Finish =>
        var _ := FinishOutput();
    }

    // Where the input stands.
    lemma Standing()
      requires Valid()
      ensures StreamOk() && 1 <= inputScan <= |scans| && outputScan >= 1
      ensures eoiReached ==>
          inputScan == |scans| && inputIMCURow == total && outputScan <= inputScan && ScansIn(stored, |scans|)
      ensures forall e | e in history :: e.NotOvertaken()
    {}
  }

  // Calls of an application: feed the source, consume ahead of need, and drive output passes.
  datatype Command = Arrive(n: nat) | Consume | Start(scan: int) | Show | Finish

  lemma RowStays(s: Scan, num: nat, stored: set<Stored>, more: set<Stored>, r: nat)
    requires s.Valid() && RowStored(s, num, stored, r) && stored <= more
    ensures RowStored(s, num, more, r)
  {}

  lemma RowStarted(s: Scan, row: nat, yoffset: nat, col: nat)
    ensures s.McuOf(row, 0) <= s.McuOf(row + yoffset, col)
  {
    ProductMonotone(s.mcusPerRow, row, row + yoffset);
  }

  lemma StoredLess(s: Scan, num: nat, stored: set<Stored>, n: nat, n': nat)
    requires s.Valid() && StoredUpTo(s, num, stored, n) && n' <= n
    ensures StoredUpTo(s, num, stored, n')
  {}
}
