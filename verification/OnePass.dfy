/**
  The coefficient controller in single-pass mode (decompress_onepass of jdcoefct.c): every
  decoded MCU is cut into blocks, and each block that is not a dummy goes through the inverse
  DCT to its place in the output planes.

  How many MCUs the entropy decoder can deliver before input runs out is a parameter of each
  call, so a sequence of calls covers every suspension pattern.  The inverse DCT is recorded by
  where its input block comes from and where its output goes, in the ghost field `sent`.
  */
module OnePass {
  import opened Arithmetic
  import opened McuGeometry

  // One call of the inverse DCT: the component's plane, the iMCU row whose output buffer is
  // filled, the sample row and column in it, and the block of the data stream that is put there.
  datatype Sent = Sent(plane: nat, imcuRow: nat, outRow: nat, outCol: nat, mcu: nat, blkn: nat)

  lemma QuotientSign(x: nat, n: nat)
    requires n > 0
    ensures x / n >= 0 && x % n >= 0
  {}

  lemma PositiveParts(c: Component, interleaved: bool, mcusPerRow: nat, totalIMCURows: nat)
    requires c.Fits(interleaved, mcusPerRow, totalIMCURows)
    ensures c.v > 0 && c.mcuHeight > 0 && c.mcuWidth > 0
  {}

  // A scan as per_scan_setup leaves it.
  datatype Scan = Scan(comps: seq<Component>, cur: seq<nat>, mcusPerRow: nat, totalIMCURows: nat) {
    predicate Indexed() {
      |cur| > 0 && forall i | 0 <= i < |cur| :: cur[i] < |comps|
    }

    predicate Interleaved() {
      |cur| != 1
    }

    predicate Valid() {
      && Indexed() && mcusPerRow >= 1 && totalIMCURows >= 1
      && (forall i | 0 <= i < |cur| :: comps[cur[i]].Fits(Interleaved(), mcusPerRow, totalIMCURows))
    }

    // A legal scan header names no component twice; the decoder does not check this.
    predicate NamesOnce() {
      forall i, j | 0 <= i < j < |cur| :: cur[i] != cur[j]
    }

    function Comp(i: nat): Component
      requires Indexed() && i < |cur|
    {
      comps[cur[i]]
    }

    // Number of an MCU's block where those of component i begin.
    function Offset(i: nat): nat
      requires Indexed() && i <= |cur|
    {
      if i == 0 then 0 else Offset(i - 1) + Comp(i - 1).mcuBlocks
    }

    // Block (row, col) of component i of the scan is part of the image.
    predicate Real(i: nat, row: nat, col: nat)
      requires Indexed()
    {
      i < |cur| && row < Comp(i).heightInBlocks && col < Comp(i).widthInBlocks
    }

    // The output side wants the block.
    predicate Wanted(i: nat, row: nat, col: nat)
      requires Indexed()
    {
      Real(i, row, col) && Comp(i).needed
    }

    lemma PartsPositive(i: nat, row: nat, col: nat)
      requires Valid() && i < |cur|
      ensures var c := Comp(i);
              && c.v > 0 && c.mcuHeight > 0 && c.mcuWidth > 0 && row / c.v >= 0 && row % c.v >= 0
              && row / c.mcuHeight >= 0 && row % c.mcuHeight >= 0 && col / c.mcuWidth >= 0 && col % c.mcuWidth >= 0
    {
      var c := Comp(i);
      assert c.Fits(Interleaved(), mcusPerRow, totalIMCURows);
      PositiveParts(c, Interleaved(), mcusPerRow, totalIMCURows);
      hide Valid, Component.Fits;
      QuotientSign(row, c.v);
      QuotientSign(row, c.mcuHeight);
      QuotientSign(col, c.mcuWidth);
    }

    // Where a block belongs, and which block of the data stream it is: MCUs go left to right and
    // top to bottom, blocks within an MCU component by component, each left to right and top to
    // bottom (section A.2 of ITU-T T.81).
    function Place(i: nat, row: nat, col: nat): Sent
      requires Valid() && i < |cur|
    {
      PartsPositive(i, row, col);
      var c := Comp(i);
      Sent(cur[i], row / c.v, DCTSIZE * (row % c.v), DCTSIZE * col,
           McuOf(row / c.mcuHeight, col / c.mcuWidth), BlockOf(i, row % c.mcuHeight, col % c.mcuWidth))
    }

    function McuOf(mcuRow: nat, mcuCol: nat): nat {
      mcuRow * mcusPerRow + mcuCol
    }

    function BlockOf(i: nat, y: nat, x: nat): nat
      requires Indexed() && i < |cur|
    {
      Offset(i) + y * Comp(i).mcuWidth + x
    }

    ghost predicate Legit(e: Sent)
      requires Valid()
    {
      exists i: nat, row: nat, col: nat :: Wanted(i, row, col) && e == Place(i, row, col)
    }

    // MCU rows of an iMCU row.
    function RowsIn(imcuRow: nat): nat
      requires Valid()
    {
      if |cur| > 1 then 1 else if imcuRow < totalIMCURows - 1 then Comp(0).v else Comp(0).lastRowHeight
    }

    // MCU_rows_in_scan.
    function McuRows(): nat
      requires Valid()
    {
      if |cur| > 1 then totalIMCURows else Comp(0).heightInBlocks
    }

    // The MCU row at an offset in an iMCU row, from the top of the image.
    function McuRow(imcuRow: nat, yoffset: nat): nat
      requires Valid()
    {
      if |cur| > 1 then imcuRow else imcuRow * Comp(0).v + yoffset
    }
  }

  // per_scan_setup provides what the loops below take for granted, whichever components the
  // output side wants.
  lemma ScanFromSetup(ic: InputController)
    requires ic.ScanReady()
    ensures var s := Scan(ic.comps, ic.cur, ic.mcusPerRow, ic.totalIMCURows);
            s.Valid() && s.McuRows() == ic.mcuRowsInScan
  {
    assert ic.comps[ic.cur[0]].Fits(ic.Interleaved(), ic.mcusPerRow, ic.totalIMCURows);
  }

  // The first n MCUs and the first b blocks of the next have gone to their places, each once.
  ghost predicate SentUpTo(s: Scan, sent: multiset<Sent>, n: nat, b: nat)
    requires s.Valid()
  {
    forall e: Sent :: sent[e] == if s.Legit(e) && Before(e, n, b) then 1 else 0
  }

  predicate Before(e: Sent, n: nat, b: nat) {
    e.mcu < n || (e.mcu == n && e.blkn < b)
  }

  // A place in the loops of decompress_onepass.
  predicate Inside(s: Scan, i: nat, imcuRow: nat, yoffset: nat, col: nat, y: nat, x: nat) {
    && s.Valid() && i < |s.cur| && imcuRow < s.totalIMCURows && yoffset < s.RowsIn(imcuRow)
    && col < s.mcusPerRow && y < s.Comp(i).mcuHeight && x < s.Comp(i).mcuWidth
  }

  lemma OffsetMonotone(s: Scan, i: nat, j: nat)
    requires s.Indexed() && i <= j <= |s.cur|
    ensures s.Offset(i) <= s.Offset(j)
    decreases j
  {
    if i < j {
      OffsetMonotone(s, i, j - 1);
    }
  }

  // Place `offset` of part k, where all parts but the last have n places.
  lemma PartSplit(n: nat, parts: nat, last: nat, total: nat, k: nat, offset: nat, idx: nat)
    requires offset < n && k < parts && 1 <= last <= n && (parts - 1) * n + last == total
    requires idx == k * n + offset
    ensures idx / n == k && idx % n == offset
    ensures idx < total <==> k < parts - 1 || offset < last
  {
    QuotientIs(idx, n, k);
    if k < parts - 1 {
      ProductMonotone(n, k + 1, parts - 1);
    }
  }

  // The block row the loops are at.
  lemma RowIs(s: Scan, i: nat, imcuRow: nat, yoffset: nat, y: nat, row: nat)
    requires s.Valid() && i < |s.cur| && imcuRow < s.totalIMCURows && yoffset < s.RowsIn(imcuRow)
        && y < s.Comp(i).mcuHeight
    requires row == imcuRow * s.Comp(i).v + (yoffset + y)
    ensures row / s.Comp(i).v == imcuRow && row % s.Comp(i).v == yoffset + y
    ensures row / s.Comp(i).mcuHeight == s.McuRow(imcuRow, yoffset) && row % s.Comp(i).mcuHeight == y
    ensures row < s.Comp(i).heightInBlocks <==> imcuRow < s.totalIMCURows - 1 || yoffset + y < s.Comp(i).lastRowHeight
  {
    var c := s.Comp(i);
    assert c.Fits(s.Interleaved(), s.mcusPerRow, s.totalIMCURows);
    PartSplit(c.v, s.totalIMCURows, c.lastRowHeight, c.heightInBlocks, imcuRow, yoffset + y, row);
  }

  // The block column the loops are at.
  lemma ColumnIs(s: Scan, i: nat, mcuCol: nat, x: nat, col: nat)
    requires s.Valid() && i < |s.cur| && mcuCol < s.mcusPerRow && x < s.Comp(i).mcuWidth
    requires col == mcuCol * s.Comp(i).mcuWidth + x
    ensures col / s.Comp(i).mcuWidth == mcuCol && col % s.Comp(i).mcuWidth == x
    ensures col < s.Comp(i).widthInBlocks <==> mcuCol < s.mcusPerRow - 1 || x < s.Comp(i).lastColWidth
  {
    var c := s.Comp(i);
    assert c.Fits(s.Interleaved(), s.mcusPerRow, s.totalIMCURows);
    PartSplit(c.mcuWidth, s.mcusPerRow, c.lastColWidth, c.widthInBlocks, mcuCol, x, col);
  }

  // Positions of an array of h rows of w are numbered below w * h.
  lemma PositionInside(w: nat, h: nat, y: nat, x: nat)
    requires y < h && x < w
    ensures y * w + x < w * h
  {
    ProductMonotone(w, y + 1, h);
  }

  lemma IndexedOf(s: Scan)
    requires s.Valid()
    ensures s.Indexed()
  {}

  // The blocks of component i in an MCU are numbered from its offset up to the next.
  lemma BlockRange(s: Scan, i: nat, y: nat, x: nat)
    requires s.Valid() && i < |s.cur| && y < s.Comp(i).mcuHeight && x < s.Comp(i).mcuWidth
    ensures s.Offset(i) <= s.BlockOf(i, y, x) < s.Offset(i + 1) <= s.Offset(|s.cur|)
  {
    hide Scan.Valid, Scan.Offset;
    IndexedOf(s);
    PartShape(s, i, 0);
    PositionInside(s.Comp(i).mcuWidth, s.Comp(i).mcuHeight, y, x);
    OffsetMonotone(s, i + 1, |s.cur|);
  }

  // Every index lies in one of the parts.
  lemma PartOf(n: nat, parts: nat, last: nat, total: nat, idx: nat)
    requires 1 <= last <= n && parts >= 1 && (parts - 1) * n + last == total && idx < total
    ensures idx / n < parts
  {
    DivMod(idx, n);
    if idx / n >= parts {
      ProductMonotone(n, parts, idx / n);
    }
  }

  // A block of the image lies in an MCU column of the scan.
  lemma InsideMcu(s: Scan, i: nat, row: nat, col: nat)
    requires s.Valid() && s.Real(i, row, col)
    ensures s.Comp(i).mcuWidth > 0 && s.Comp(i).mcuHeight > 0 && s.Comp(i).v > 0
    ensures col / s.Comp(i).mcuWidth < s.mcusPerRow && row / s.Comp(i).v < s.totalIMCURows
  {
    var c := s.Comp(i);
    assert c.Fits(s.Interleaved(), s.mcusPerRow, s.totalIMCURows);
    PartOf(c.mcuWidth, s.mcusPerRow, c.lastColWidth, c.widthInBlocks, col);
    PartOf(c.v, s.totalIMCURows, c.lastRowHeight, c.heightInBlocks, row);
  }

  // An index is known from its part and its place in the part.
  lemma Recover(n: nat, a: nat, b: nat)
    requires n > 0 && a / n == b / n && a % n == b % n
    ensures a == b
  {
    DivMod(a, n);
    DivMod(b, n);
  }

  // Different blocks come from different places of the data stream.
  lemma OneSource(s: Scan, i: nat, row: nat, col: nat, j: nat, row': nat, col': nat)
    requires s.Valid() && s.Wanted(i, row, col) && j < |s.cur| && col' / s.Comp(j).mcuWidth < s.mcusPerRow
    requires s.Place(i, row, col).mcu == s.Place(j, row', col').mcu
    requires s.Place(i, row, col).blkn == s.Place(j, row', col').blkn
    ensures i == j && row == row' && col == col'
  {
    hide Scan.Offset, Component.Fits, Scan.BlockOf, Scan.McuOf;
    InsideMcu(s, i, row, col);
    SameComponent(s, i, row, col, j, row', col');
    var c := s.Comp(i);
    McuSplits(s, row / c.mcuHeight, col / c.mcuWidth, row' / c.mcuHeight, col' / c.mcuWidth);
    BlockSplits(s, i, row % c.mcuHeight, col % c.mcuWidth, row' % c.mcuHeight, col' % c.mcuWidth);
    Recover(c.mcuHeight, row, row');
    Recover(c.mcuWidth, col, col');
  }

  lemma SameComponent(s: Scan, i: nat, row: nat, col: nat, j: nat, row': nat, col': nat)
    requires s.Valid() && i < |s.cur| && j < |s.cur|
    requires s.Place(i, row, col).blkn == s.Place(j, row', col').blkn
    ensures i == j
  {
    hide Scan.Offset, Scan.BlockOf;
    var c, d := s.Comp(i), s.Comp(j);
    assert c.Fits(s.Interleaved(), s.mcusPerRow, s.totalIMCURows);
    assert d.Fits(s.Interleaved(), s.mcusPerRow, s.totalIMCURows);
    BlockRange(s, i, row % c.mcuHeight, col % c.mcuWidth);
    BlockRange(s, j, row' % d.mcuHeight, col' % d.mcuWidth);
    if i < j {
      OffsetMonotone(s, i + 1, j);
    } else if j < i {
      OffsetMonotone(s, j + 1, i);
    }
  }

  lemma McuSplits(s: Scan, r: nat, c: nat, r': nat, c': nat)
    requires c < s.mcusPerRow && c' < s.mcusPerRow && s.McuOf(r, c) == s.McuOf(r', c')
    ensures r == r' && c == c'
  {
    QuotientUnique(s.mcusPerRow, r, c, r', c');
  }

  lemma BlockSplits(s: Scan, i: nat, y: nat, x: nat, y': nat, x': nat)
    requires s.Indexed() && i < |s.cur| && x < s.Comp(i).mcuWidth && x' < s.Comp(i).mcuWidth
    requires s.BlockOf(i, y, x) == s.BlockOf(i, y', x')
    ensures y == y' && x == x'
  {
    QuotientUnique(s.Comp(i).mcuWidth, y, x, y', x');
  }

  // No wanted block is block b of MCU n.
  ghost predicate NoneAt(s: Scan, n: nat, b: nat)
    requires s.Valid()
  {
    forall i: nat, row: nat, col: nat | s.Wanted(i, row, col) ::
      s.Place(i, row, col).mcu != n || s.Place(i, row, col).blkn != b
  }

  lemma LegitSource(s: Scan, e: Sent)
    requires s.Valid() && s.Legit(e)
    ensures !NoneAt(s, e.mcu, e.blkn)
  {
    hide Scan.Place;
    var i: nat, row: nat, col: nat :| s.Wanted(i, row, col) && e == s.Place(i, row, col);
  }

  lemma SkipBlocks(s: Scan, sent: multiset<Sent>, n: nat, b: nat, b': nat)
    requires s.Valid() && SentUpTo(s, sent, n, b) && b <= b'
    requires forall k | b <= k < b' :: NoneAt(s, n, k)
    ensures SentUpTo(s, sent, n, b')
  {
    forall e: Sent
      ensures sent[e] == if s.Legit(e) && Before(e, n, b') then 1 else 0
    {
      if s.Legit(e) {
        LegitSource(s, e);
      }
    }
  }

  // All blocks of an MCU have been dealt with.
  lemma McuComplete(s: Scan, sent: multiset<Sent>, n: nat)
    requires s.Valid() && SentUpTo(s, sent, n, s.Offset(|s.cur|))
    ensures SentUpTo(s, sent, n + 1, 0)
  {
    forall e: Sent
      ensures sent[e] == if s.Legit(e) && Before(e, n + 1, 0) then 1 else 0
    {
      if s.Legit(e) && e.mcu == n {
        var i: nat, row: nat, col: nat :| s.Wanted(i, row, col) && e == s.Place(i, row, col);
        var c := s.Comp(i);
        assert c.Fits(s.Interleaved(), s.mcusPerRow, s.totalIMCURows);
        BlockRange(s, i, row % c.mcuHeight, col % c.mcuWidth);
      }
    }
  }

  lemma SendBlock(s: Scan, sent: multiset<Sent>, i: nat, row: nat, col: nat)
    requires s.Valid() && s.Wanted(i, row, col)
    requires var e := s.Place(i, row, col); SentUpTo(s, sent, e.mcu, e.blkn)
    ensures var e := s.Place(i, row, col); SentUpTo(s, sent + multiset{e}, e.mcu, e.blkn + 1)
  {
    hide Scan.Place;
    var p := s.Place(i, row, col);
    assert s.Legit(p);
    forall e: Sent
      ensures (sent + multiset{p})[e] == if s.Legit(e) && Before(e, p.mcu, p.blkn + 1) then 1 else 0
    {
      if s.Legit(e) && e.mcu == p.mcu && e.blkn == p.blkn {
        var j: nat, row': nat, col': nat :| s.Wanted(j, row', col') && e == s.Place(j, row', col');
        InsideMcu(s, i, row, col);
        OneSource(s, j, row', col', i, row, col);
      }
    }
  }

  // Where the loops of decompress_onepass are when they reach block (row, col).
  lemma PlaceIs(s: Scan, i: nat, imcuRow: nat, yoffset: nat, mcuCol: nat, y: nat, x: nat, row: nat, col: nat)
    requires Inside(s, i, imcuRow, yoffset, mcuCol, y, x)
    requires row == imcuRow * s.Comp(i).v + (yoffset + y) && col == mcuCol * s.Comp(i).mcuWidth + x
    ensures s.Place(i, row, col) == Sent(s.cur[i], imcuRow, DCTSIZE * (yoffset + y), DCTSIZE * col,
                                         s.McuOf(s.McuRow(imcuRow, yoffset), mcuCol), s.BlockOf(i, y, x))
    ensures s.Wanted(i, row, col) <==>
      && s.Comp(i).needed
      && (imcuRow < s.totalIMCURows - 1 || yoffset + y < s.Comp(i).lastRowHeight)
      && (mcuCol < s.mcusPerRow - 1 || x < s.Comp(i).lastColWidth)
    ensures col / s.Comp(i).mcuWidth < s.mcusPerRow
  {
    hide Scan.Valid, Scan.McuOf, Scan.BlockOf, Scan.McuRow, Scan.RowsIn;
    RowIs(s, i, imcuRow, yoffset, y, row);
    ColumnIs(s, i, mcuCol, x, col);
  }

  // A dummy block: beyond the right or bottom edge.
  lemma DummyBlock(s: Scan, i: nat, imcuRow: nat, yoffset: nat, mcuCol: nat, y: nat, x: nat)
    requires Inside(s, i, imcuRow, yoffset, mcuCol, y, x)
    requires (imcuRow >= s.totalIMCURows - 1 && yoffset + y >= s.Comp(i).lastRowHeight)
          || (mcuCol >= s.mcusPerRow - 1 && x >= s.Comp(i).lastColWidth)
    ensures NoneAt(s, s.McuOf(s.McuRow(imcuRow, yoffset), mcuCol), s.BlockOf(i, y, x))
  {
    hide Scan.Place, Component.Fits, Scan.Offset, Scan.McuOf, Scan.BlockOf, Scan.McuRow, Scan.RowsIn;
    var row, col := imcuRow * s.Comp(i).v + (yoffset + y), mcuCol * s.Comp(i).mcuWidth + x;
    PlaceIs(s, i, imcuRow, yoffset, mcuCol, y, x, row, col);
    forall j: nat, row': nat, col': nat | s.Wanted(j, row', col')
      ensures s.Place(j, row', col').mcu != s.Place(i, row, col).mcu
          || s.Place(j, row', col').blkn != s.Place(i, row, col).blkn
    {
      if s.Place(j, row', col').mcu == s.Place(i, row, col).mcu
        && s.Place(j, row', col').blkn == s.Place(i, row, col).blkn {
        OneSource(s, j, row', col', i, row, col);
        assert false;
      }
    }
  }

  // A component nobody asked for.
  lemma UnwantedComponent(s: Scan, i: nat, n: nat, b: nat)
    requires s.Valid() && i < |s.cur| && !s.Comp(i).needed && s.Offset(i) <= b < s.Offset(i + 1)
    ensures NoneAt(s, n, b)
  {
    forall j: nat, row: nat, col: nat | s.Wanted(j, row, col)
      ensures s.Place(j, row, col).blkn != b
    {
      var d := s.Comp(j);
      assert d.Fits(s.Interleaved(), s.mcusPerRow, s.totalIMCURows);
      BlockRange(s, j, row % d.mcuHeight, col % d.mcuWidth);
      if i < j {
        OffsetMonotone(s, i + 1, j);
      } else if j < i {
        OffsetMonotone(s, j + 1, i);
      }
    }
  }

  // An MCU row ends where the next begins.
  lemma NextMcuRow(s: Scan, row: nat)
    ensures s.McuOf(row, s.mcusPerRow) == s.McuOf(row + 1, 0)
  {}

  // After the MCU rows of an iMCU row come those of the next.
  lemma NextIMCURow(s: Scan, imcuRow: nat)
    requires s.Valid() && imcuRow < s.totalIMCURows
    ensures imcuRow + 1 < s.totalIMCURows ==> s.McuRow(imcuRow, 0) + s.RowsIn(imcuRow) == s.McuRow(imcuRow + 1, 0)
    ensures imcuRow + 1 == s.totalIMCURows ==> s.McuRow(imcuRow, 0) + s.RowsIn(imcuRow) == s.McuRows()
    ensures s.RowsIn(imcuRow) >= 1
    ensures forall y | 0 <= y < s.RowsIn(imcuRow) :: s.McuRow(imcuRow, y) == s.McuRow(imcuRow, 0) + y
  {
    assert s.Comp(0).Fits(s.Interleaved(), s.mcusPerRow, s.totalIMCURows);
  }

  lemma McuRowInside(s: Scan, i: nat, row: nat, col: nat)
    requires s.Valid() && s.Real(i, row, col)
    ensures s.Comp(i).mcuHeight > 0 && row / s.Comp(i).mcuHeight < s.McuRows()
  {
    var c := s.Comp(i);
    assert c.McuShape(s.Interleaved());
    InsideMcu(s, i, row, col);
  }

  // The last MCU row holds the last block row.
  lemma McuRowsEnough(s: Scan, i: nat, row: nat, col: nat)
    requires s.Valid() && s.Real(i, row, col)
    ensures s.Place(i, row, col).mcu < s.McuOf(s.McuRows(), 0)
  {
    hide Component.Fits, Scan.McuRows, Component.McuShape;
    var c := s.Comp(i);
    InsideMcu(s, i, row, col);
    McuRowInside(s, i, row, col);
    PositionInside(s.mcusPerRow, s.McuRows(), row / c.mcuHeight, col / c.mcuWidth);
  }

  // Every wanted block has gone to its place once, and nothing else has been written.
  ghost predicate AllSent(s: Scan, sent: multiset<Sent>)
    requires s.Valid()
  {
    && (forall i: nat, row: nat, col: nat | s.Wanted(i, row, col) :: sent[s.Place(i, row, col)] == 1)
    && (forall e | e in sent :: s.Legit(e))
  }

  lemma EverythingSent(s: Scan, sent: multiset<Sent>)
    requires s.Valid() && SentUpTo(s, sent, s.McuOf(s.McuRows(), 0), 0)
    ensures AllSent(s, sent)
  {
    hide Scan.Place;
    forall i: nat, row: nat, col: nat | s.Wanted(i, row, col)
      ensures sent[s.Place(i, row, col)] == 1
    {
      McuRowsEnough(s, i, row, col);
      assert s.Legit(s.Place(i, row, col));
    }
  }

  // Two wanted blocks go to the same samples only if the scan names their component twice.
  lemma OneDestination(s: Scan, i: nat, row: nat, col: nat, j: nat, row': nat, col': nat)
    requires s.Valid() && s.Wanted(i, row, col) && s.Wanted(j, row', col')
    ensures SameSamples(s.Place(i, row, col), s.Place(j, row', col')) <==>
              s.cur[i] == s.cur[j] && row == row' && col == col'
    ensures s.NamesOnce() && SameSamples(s.Place(i, row, col), s.Place(j, row', col')) ==> i == j
  {
    InsideMcu(s, i, row, col);
    var e, f := s.Place(i, row, col), s.Place(j, row', col');
    if SameSamples(e, f) {
      Recover(s.Comp(i).v, row, row');
    }
  }

  predicate SameSamples(e: Sent, f: Sent) {
    e.plane == f.plane && e.imcuRow == f.imcuRow && e.outRow == f.outRow && e.outCol == f.outCol
  }

  // The sample row, counted from the top of the plane, is eight times the block row.
  lemma SampleRow(s: Scan, i: nat, row: nat, col: nat)
    requires s.Valid() && s.Wanted(i, row, col)
    ensures s.Place(i, row, col).imcuRow * (s.Comp(i).v * DCTSIZE) + s.Place(i, row, col).outRow == DCTSIZE * row
    ensures s.Place(i, row, col).outCol == DCTSIZE * col
  {
    hide Scan.McuOf, Scan.BlockOf, Component.Fits;
    InsideMcu(s, i, row, col);
    EightTimes(row, s.Comp(i).v);
  }

  lemma EightTimes(row: nat, v: nat)
    requires v > 0
    ensures (row / v) * (v * DCTSIZE) + DCTSIZE * (row % v) == DCTSIZE * row
  {
    DivMod(row, v);
  }

  // Block rows from `row` down and columns from `col` right are dummies in this MCU; these are
  // the guards of decompress_onepass.
  predicate RealRow(s: Scan, i: nat, imcuRow: nat, yoffset: nat, y: nat)
    requires s.Valid() && i < |s.cur|
  {
    imcuRow < s.totalIMCURows - 1 || yoffset + y < s.Comp(i).lastRowHeight
  }

  function UsefulWidth(s: Scan, i: nat, mcuCol: nat): nat
    requires s.Valid() && i < |s.cur|
  {
    if mcuCol < s.mcusPerRow - 1 then s.Comp(i).mcuWidth else s.Comp(i).lastColWidth
  }

  lemma SendAt(s: Scan, sent: multiset<Sent>, i: nat, imcuRow: nat, yoffset: nat, mcuCol: nat, y: nat, x: nat, mcu: nat,
               blkn: nat, outCol: nat)
    requires Inside(s, i, imcuRow, yoffset, mcuCol, y, x) && s.Comp(i).needed
    requires RealRow(s, i, imcuRow, yoffset, y) && x < UsefulWidth(s, i, mcuCol)
    requires mcu == s.McuOf(s.McuRow(imcuRow, yoffset), mcuCol) && blkn == s.BlockOf(i, y, 0) + x
    requires outCol == mcuCol * s.Comp(i).mcuWidth * DCTSIZE + x * DCTSIZE
    requires SentUpTo(s, sent, mcu, blkn)
    ensures SentUpTo(s, sent + multiset{Sent(s.cur[i], imcuRow, DCTSIZE * (yoffset + y), outCol, mcu, blkn)}, mcu,
        blkn + 1)
  {
    hide Scan.McuOf, Scan.McuRow, Scan.RowsIn, Component.Fits, SentUpTo;
    var row, col := imcuRow * s.Comp(i).v + (yoffset + y), mcuCol * s.Comp(i).mcuWidth + x;
    PlaceIs(s, i, imcuRow, yoffset, mcuCol, y, x, row, col);
    SendBlock(s, sent, i, row, col);
  }

  lemma SkipColumns(s: Scan, sent: multiset<Sent>, i: nat, imcuRow: nat, yoffset: nat, mcuCol: nat, y: nat, from: nat,
                    mcu: nat,
                    blkn: nat)
    requires Inside(s, i, imcuRow, yoffset, mcuCol, y, 0) && from <= s.Comp(i).mcuWidth
    requires !RealRow(s, i, imcuRow, yoffset, y) || from >= UsefulWidth(s, i, mcuCol)
    requires mcu == s.McuOf(s.McuRow(imcuRow, yoffset), mcuCol) && blkn == s.BlockOf(i, y, 0)
    requires SentUpTo(s, sent, mcu, blkn + from)
    ensures SentUpTo(s, sent, mcu, blkn + s.Comp(i).mcuWidth)
  {
    hide Scan.McuOf, Scan.McuRow, Scan.RowsIn, Component.Fits, SentUpTo, NoneAt;
    forall b | blkn + from <= b < blkn + s.Comp(i).mcuWidth
      ensures NoneAt(s, mcu, b)
    {
      DummyBlock(s, i, imcuRow, yoffset, mcuCol, y, b - blkn);
    }
    SkipBlocks(s, sent, mcu, blkn + from, blkn + s.Comp(i).mcuWidth);
  }

  lemma SkipComponent(s: Scan, sent: multiset<Sent>, i: nat, mcu: nat)
    requires s.Valid() && i < |s.cur| && !s.Comp(i).needed && SentUpTo(s, sent, mcu, s.Offset(i))
    ensures SentUpTo(s, sent, mcu, s.Offset(i + 1))
  {
    forall b | s.Offset(i) <= b < s.Offset(i + 1)
      ensures NoneAt(s, mcu, b)
    {
      UnwantedComponent(s, i, mcu, b);
    }
    SkipBlocks(s, sent, mcu, s.Offset(i), s.Offset(i + 1));
  }

  // What per_scan_setup provides for the loops over one component's blocks.
  lemma PartShape(s: Scan, i: nat, mcuCol: nat)
    requires s.Valid() && i < |s.cur|
    ensures s.Comp(i).mcuWidth > 0 && UsefulWidth(s, i, mcuCol) <= s.Comp(i).mcuWidth
    ensures mcuCol * s.Comp(i).mcuSampleWidth == mcuCol * s.Comp(i).mcuWidth * DCTSIZE
    ensures s.Offset(i + 1) == s.Offset(i) + s.Comp(i).mcuHeight * s.Comp(i).mcuWidth
  {
    hide Component.RowsFit;
    var c := s.Comp(i);
    assert c.Fits(s.Interleaved(), s.mcusPerRow, s.totalIMCURows);
    SampleWidth(c, s.Interleaved(), mcuCol);
  }

  lemma SampleWidth(c: Component, interleaved: bool, mcuCol: nat)
    requires c.McuShape(interleaved)
    ensures mcuCol * c.mcuSampleWidth == mcuCol * c.mcuWidth * DCTSIZE && c.mcuBlocks == c.mcuHeight * c.mcuWidth
  {
    ProductAssoc(mcuCol, c.mcuWidth, DCTSIZE);
  }

  lemma NextOffset(s: Scan, i: nat)
    requires s.Indexed() && i < |s.cur|
    ensures s.Offset(i + 1) == s.Offset(i) + s.Comp(i).mcuBlocks
  {}

  lemma NextMcu(s: Scan, row: nat, col: nat)
    ensures s.McuOf(row, col) + 1 == s.McuOf(row, col + 1)
  {}

  function Total(batches: seq<nat>): nat {
    if |batches| == 0 then 0 else Total(batches[..|batches| - 1]) + batches[|batches| - 1]
  }

  lemma TotalSplits(batches: seq<nat>, k: nat)
    requires k < |batches|
    ensures Total(batches[..k + 1]) == Total(batches[..k]) + batches[k]
  {
    assert batches[..k + 1][..k] == batches[..k];
  }

  lemma TotalMonotone(batches: seq<nat>, k: nat)
    requires k <= |batches|
    ensures Total(batches[..k]) <= Total(batches)
    decreases |batches| - k
  {
    if k < |batches| {
      TotalSplits(batches, k);
      TotalMonotone(batches, k + 1);
    } else {
      assert batches[..k] == batches;
    }
  }

  // Short of the last MCU row the scan is not complete.
  lemma NotLastMcu(s: Scan, imcuRow: nat, yoffset: nat, mcuCol: nat)
    requires s.Valid() && imcuRow < s.totalIMCURows && yoffset < s.RowsIn(imcuRow) && mcuCol < s.mcusPerRow
    ensures s.McuOf(s.McuRow(imcuRow, 0) + yoffset, mcuCol) < s.McuOf(s.McuRows(), 0)
  {
    assert s.Comp(0).Fits(s.Interleaved(), s.mcusPerRow, s.totalIMCURows);
    if |s.cur| == 1 {
      var c := s.Comp(0);
      PartSplit(c.v, s.totalIMCURows, c.lastRowHeight, c.heightInBlocks, imcuRow, yoffset, imcuRow * c.v + yoffset);
    }
    PositionInside(s.mcusPerRow, s.McuRows(), s.McuRow(imcuRow, 0) + yoffset, mcuCol);
  }

  // Return codes of the decompressor's input and output steps; EOIExpected is the error of a
  // second scan in a file that announced only one.
  datatype Status = Suspended | RowCompleted | ScanCompleted | ReachedSOS | ReachedEOI | EOIExpected

  class CoefController {
    const s: Scan
    var mcuCtr: nat
    var mcuVertOffset: nat
    var mcuRowsPerIMCURow: nat
    var inputIMCURow: nat
    var outputIMCURow: nat
    // MCUs the entropy decoder has delivered in this scan.
    var decoded: nat
    var finished: bool
    ghost var sent: multiset<Sent>

    // The loops are about to decode MCU `col` of MCU row `yoffset` of the current iMCU row.
    ghost predicate At(yoffset: nat, col: nat)
      reads `inputIMCURow, `outputIMCURow, `mcuRowsPerIMCURow, `decoded, `sent
    {
      && s.Valid() && inputIMCURow == outputIMCURow < s.totalIMCURows
      && mcuRowsPerIMCURow == s.RowsIn(inputIMCURow)
      && decoded == s.McuOf(s.McuRow(inputIMCURow, 0) + yoffset, col)
      && SentUpTo(s, sent, decoded, 0)
    }

    ghost predicate Valid()
      reads this
    {
      && s.Valid()
      && (!finished ==> At(mcuVertOffset, mcuCtr) && mcuVertOffset < mcuRowsPerIMCURow && mcuCtr < s.mcusPerRow)
      && (finished ==> inputIMCURow == outputIMCURow == s.totalIMCURows && decoded == s.McuOf(s.McuRows(), 0)
                       && AllSent(s, sent))
    }

    // start_input_pass and start_output_pass.
    constructor (scan: Scan)
      requires scan.Valid()
      ensures Valid() && s == scan && decoded == 0 && sent == multiset{} && !finished
    {
      s := scan;
      inputIMCURow, outputIMCURow := 0, 0;
      mcuCtr, mcuVertOffset := 0, 0;
      mcuRowsPerIMCURow := scan.RowsIn(0);
      decoded, finished, sent := 0, false, multiset{};
      NextIMCURow(scan, 0);
    }

    method StartIMCURow()
      requires s.Valid() && inputIMCURow < s.totalIMCURows
      modifies `mcuCtr, `mcuVertOffset, `mcuRowsPerIMCURow
      ensures mcuCtr == mcuVertOffset == 0 && mcuRowsPerIMCURow == s.RowsIn(inputIMCURow)
    {
      if |s.cur| > 1 {
        mcuRowsPerIMCURow := 1;
      } else {
        if inputIMCURow < s.totalIMCURows - 1 {
          mcuRowsPerIMCURow := s.Comp(0).v;
        } else {
          mcuRowsPerIMCURow := s.Comp(0).lastRowHeight;
        }
      }
      mcuCtr, mcuVertOffset := 0, 0;
    }

    method InverseDCT(plane: nat, outRow: nat, outCol: nat, mcu: nat, blkn: nat)
      modifies `sent
      ensures sent == old(sent) + multiset{Sent(plane, outputIMCURow, outRow, outCol, mcu, blkn)}
    {
      sent := sent + multiset{Sent(plane, outputIMCURow, outRow, outCol, mcu, blkn)};
    }

    // The innermost loop: the useful blocks of one block row of an MCU.
    method SendRow(i: nat, yoffset: nat, mcuCol: nat, y: nat, outRow: nat, startCol: nat, usefulWidth: nat, mcu: nat,
                   blkn: nat)
      requires Inside(s, i, inputIMCURow, yoffset, mcuCol, y, 0) && s.Comp(i).needed && inputIMCURow == outputIMCURow
      requires RealRow(s, i, inputIMCURow, yoffset, y) && usefulWidth == UsefulWidth(s, i, mcuCol) <= s.Comp(i).mcuWidth
      requires mcu == s.McuOf(s.McuRow(inputIMCURow, yoffset), mcuCol) && blkn == s.BlockOf(i, y, 0)
      requires outRow == DCTSIZE * (yoffset + y) && startCol == mcuCol * s.Comp(i).mcuWidth * DCTSIZE
      requires SentUpTo(s, sent, mcu, blkn)
      modifies `sent
      ensures SentUpTo(s, sent, mcu, blkn + s.Comp(i).mcuWidth)
    {
      hide Scan.McuOf, Scan.McuRow, Scan.RowsIn, Component.Fits, SentUpTo, Scan.BlockOf, Scan.Valid, RealRow,
           UsefulWidth;
      var outCol := startCol;
      var x := 0;
      while x < usefulWidth
        invariant x <= usefulWidth && outCol == startCol + x * DCTSIZE
        invariant SentUpTo(s, sent, mcu, blkn + x)
      {
        SendAt(s, sent, i, inputIMCURow, yoffset, mcuCol, y, x, mcu, blkn + x, outCol);
        InverseDCT(s.cur[i], outRow, outCol, mcu, blkn + x);
        outCol := outCol + DCTSIZE;
        x := x + 1;
      }
      SkipColumns(s, sent, i, inputIMCURow, yoffset, mcuCol, y, x, mcu, blkn);
    }

    // One block row of an MCU, unless it lies below the image.
    method SendOrSkip(i: nat, yoffset: nat, mcuCol: nat, y: nat, outRow: nat, startCol: nat, usefulWidth: nat, mcu: nat,
                      blkn: nat)
      requires Inside(s, i, inputIMCURow, yoffset, mcuCol, y, 0) && s.Comp(i).needed && inputIMCURow == outputIMCURow
      requires usefulWidth == UsefulWidth(s, i, mcuCol) <= s.Comp(i).mcuWidth
      requires mcu == s.McuOf(s.McuRow(inputIMCURow, yoffset), mcuCol) && blkn == s.BlockOf(i, y, 0)
      requires outRow == DCTSIZE * (yoffset + y) && startCol == mcuCol * s.Comp(i).mcuWidth * DCTSIZE
      requires SentUpTo(s, sent, mcu, blkn)
      modifies `sent
      ensures SentUpTo(s, sent, mcu, blkn + s.Comp(i).mcuWidth)
    {
      hide Scan.McuOf, Scan.McuRow, Scan.RowsIn, Component.Fits, SentUpTo, Scan.BlockOf, UsefulWidth;
      if inputIMCURow < s.totalIMCURows - 1 || yoffset + y < s.Comp(i).lastRowHeight {
        SendRow(i, yoffset, mcuCol, y, outRow, startCol, usefulWidth, mcu, blkn);
      } else {
        SkipColumns(s, sent, i, inputIMCURow, yoffset, mcuCol, y, 0, mcu, blkn);
      }
    }

    // One component's part of an MCU; returns the number of the block after it.
    method SendComponent(i: nat, yoffset: nat, mcuCol: nat, mcu: nat, first: nat) returns (blkn: nat)
      requires s.Valid() && i < |s.cur| && inputIMCURow == outputIMCURow < s.totalIMCURows
      requires yoffset < s.RowsIn(inputIMCURow) && mcuCol < s.mcusPerRow
      requires mcu == s.McuOf(s.McuRow(inputIMCURow, yoffset), mcuCol) && first == s.Offset(i)
      requires SentUpTo(s, sent, mcu, first)
      modifies `sent
      ensures blkn == s.Offset(i + 1) && SentUpTo(s, sent, mcu, blkn)
    {
      hide Scan.McuOf, Scan.McuRow, Scan.RowsIn, SentUpTo, RealRow, Component.Fits, Scan.Offset;
      PartShape(s, i, mcuCol);
      var c := s.Comp(i);
      blkn := first;
      if !c.needed {
        SkipComponent(s, sent, i, mcu);
        blkn := blkn + c.mcuBlocks;
        NextOffset(s, i);
        return;
      }
      var usefulWidth := if mcuCol < s.mcusPerRow - 1 then c.mcuWidth else c.lastColWidth;
      var outRow := yoffset * DCTSIZE;
      var startCol := mcuCol * c.mcuSampleWidth;
      var y := 0;
      while y < c.mcuHeight
        invariant y <= c.mcuHeight && outRow == DCTSIZE * (yoffset + y)
        invariant blkn == s.Offset(i) + y * c.mcuWidth
        invariant SentUpTo(s, sent, mcu, blkn)
      {
        SendOrSkip(i, yoffset, mcuCol, y, outRow, startCol, usefulWidth, mcu, blkn);
        blkn := blkn + c.mcuWidth;
        outRow := outRow + DCTSIZE;
        y := y + 1;
      }
    }

    // The blocks of one decoded MCU.
    method SendMcu(yoffset: nat, mcuCol: nat, mcu: nat)
      requires s.Valid() && inputIMCURow == outputIMCURow < s.totalIMCURows
      requires yoffset < s.RowsIn(inputIMCURow) && mcuCol < s.mcusPerRow
      requires mcu == s.McuOf(s.McuRow(inputIMCURow, yoffset), mcuCol)
      requires SentUpTo(s, sent, mcu, 0)
      modifies `sent
      ensures SentUpTo(s, sent, mcu + 1, 0)
    {
      hide Scan.McuOf, Scan.McuRow, Scan.RowsIn, SentUpTo, Component.Fits;
      var blkn := 0;
      var ci := 0;
      while ci < |s.cur|
        invariant ci <= |s.cur| && blkn == s.Offset(ci) && SentUpTo(s, sent, mcu, blkn)
      {
        blkn := SendComponent(ci, yoffset, mcuCol, mcu, blkn);
        ci := ci + 1;
      }
      McuComplete(s, sent, mcu);
    }

    // The MCUs of one MCU row, from mcuCtr on; `budget` MCUs can still be decoded.
    method DecodeRow(yoffset: nat, budget: nat) returns (left: nat, suspended: bool)
      requires At(yoffset, mcuCtr) && yoffset < mcuRowsPerIMCURow && mcuCtr < s.mcusPerRow
      modifies `mcuCtr, `mcuVertOffset, `decoded, `sent
      ensures old(decoded) <= decoded && left == budget - (decoded - old(decoded))
      ensures suspended ==> left == 0 && mcuVertOffset == yoffset && mcuCtr < s.mcusPerRow && At(yoffset, mcuCtr)
      ensures !suspended ==> mcuCtr == 0 && At(yoffset + 1, 0)
    {
      hide Scan.McuOf, Scan.McuRow, Scan.RowsIn, SentUpTo, Scan.Valid;
      left := budget;
      var mcuCol := mcuCtr;
      while mcuCol < s.mcusPerRow
        invariant mcuCol <= s.mcusPerRow && At(yoffset, mcuCol)
        invariant old(decoded) <= decoded && left == budget - (decoded - old(decoded))
      {
        if left == 0 {
          mcuVertOffset := yoffset;
          mcuCtr := mcuCol;
          return left, true;
        }
        NextIMCURow(s, inputIMCURow);
        SendMcu(yoffset, mcuCol, decoded);
        NextMcu(s, s.McuRow(inputIMCURow, 0) + yoffset, mcuCol);
        left := left - 1;
        decoded := decoded + 1;
        mcuCol := mcuCol + 1;
      }
      mcuCtr := 0;
      NextMcuRow(s, s.McuRow(inputIMCURow, 0) + yoffset);
      suspended := false;
    }

    // One call of the controller while the entropy decoder can deliver `budget` MCUs.
    method DecompressOnepass(budget: nat) returns (status: Status, left: nat)
      requires Valid() && !finished
      modifies this
      ensures Valid() && left == budget - (decoded - old(decoded)) && old(decoded) <= decoded
      ensures status == Suspended || status == RowCompleted || status == ScanCompleted
      ensures status == Suspended ==> left == 0 && !finished && inputIMCURow == old(inputIMCURow)
      ensures status == RowCompleted ==>
          !finished && inputIMCURow == old(inputIMCURow) + 1 && mcuCtr == mcuVertOffset == 0
      ensures (status == ScanCompleted) == finished
      ensures finished ==> AllSent(s, sent)
      ensures status != Suspended ==>
          SentUpTo(s, sent, if finished then s.McuOf(s.McuRows(), 0) else s.McuOf(s.McuRow(inputIMCURow, 0), 0), 0)
    {
      hide Scan.McuOf, Scan.McuRow, Scan.RowsIn, SentUpTo, Scan.Valid, AllSent, Scan.McuRows;
      NextIMCURow(s, inputIMCURow);
      left := budget;
      var yoffset: nat := mcuVertOffset;
      while yoffset < mcuRowsPerIMCURow
        invariant yoffset <= mcuRowsPerIMCURow == s.RowsIn(inputIMCURow) && At(yoffset, mcuCtr) && !finished
        invariant mcuCtr < s.mcusPerRow && (yoffset == mcuRowsPerIMCURow ==> mcuCtr == 0)
        invariant inputIMCURow == old(inputIMCURow)
        invariant old(decoded) <= decoded && left == budget - (decoded - old(decoded))
      {
        var suspended;
        left, suspended := DecodeRow(yoffset, left);
        if suspended {
          return Suspended, left;
        }
        yoffset := yoffset + 1;
      }
      outputIMCURow := outputIMCURow + 1;
      inputIMCURow := inputIMCURow + 1;
      if inputIMCURow < s.totalIMCURows {
        StartIMCURow();
        NextIMCURow(s, inputIMCURow);
        return RowCompleted, left;
      }
      EverythingSent(s, sent);
      finished := true;
      return ScanCompleted, left;
    }

    // Any sequence of calls: input arrives `batches[k]` MCUs at a time, and the controller is
    // called again until it runs out of them.
    method Run(batches: seq<nat>)
      requires Valid() && !finished && decoded == 0
      modifies this
      ensures Valid()
      ensures finished <==> Total(batches) >= s.McuOf(s.McuRows(), 0)
      ensures finished ==> AllSent(s, sent)
      ensures !finished ==> decoded == Total(batches)
    {
      hide Scan.McuOf, Scan.McuRow, Scan.RowsIn, SentUpTo, Scan.Valid, AllSent, Scan.McuRows;
      var k := 0;
      assert batches[..|batches|] == batches;
      while k < |batches| && !finished
        invariant k <= |batches| && Valid()
        invariant !finished ==> decoded == Total(batches[..k])
        invariant finished ==> s.McuOf(s.McuRows(), 0) <= Total(batches[..k])
      {
        var left := batches[k];
        TotalSplits(batches, k);
        while !finished && left > 0
          invariant Valid() && decoded + left == Total(batches[..k + 1])
          decreases left, s.totalIMCURows - inputIMCURow
        {
          var status;
          status, left := DecompressOnepass(left);
        }
        k := k + 1;
      }
      TotalMonotone(batches, k);
      if !finished {
        NotLastMcu(s, inputIMCURow, mcuVertOffset, mcuCtr);
      }
    }
  }
}
