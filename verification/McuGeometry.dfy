/**
  Image geometry of the input controller (initial_setup and per_scan_setup of jdinput.c):
  sizes in blocks and in MCUs, and how full the last MCU column and row are.
  */
module McuGeometry {
  import opened Arithmetic
  import ContextRows
  import MainController

  const DCTSIZE := 8
  const MAX_SAMP_FACTOR := 4
  const MAX_BLOCKS_IN_MCU := 10
  const MAX_COMPS_IN_SCAN := 4
  const MAX_COMPONENTS := 4
  const MAX_DIMENSION := 65500

  // jdiv_round_up
  function RoundUp(a: nat, b: nat): nat
    requires b > 0
  {
    (a + b - 1) / b
  }

  lemma RoundUpBounds(a: nat, b: nat)
    requires b > 0
    ensures b * RoundUp(a, b) - b < a <= b * RoundUp(a, b)
  {
    DivMod(a + b - 1, b);
  }

  lemma RoundUpIs(a: nat, b: nat, q: nat)
    requires b > 0 && b * q - b < a <= b * q
    ensures RoundUp(a, b) == q
  {
    QuotientIs(a + b - 1, b, q);
  }

  // Rounding up a size that has been scaled by n and rounded up itself gives what rounding
  // up the size gives.
  lemma NestedRoundUp(size: nat, d: nat, n: nat)
    requires d > 0 && n > 0
    ensures RoundUp(RoundUp(size * n, d), n) == RoundUp(size, d)
  {
    var whole, part := RoundUp(size, d), RoundUp(size * n, d);
    RoundUpBounds(size, d);
    RoundUpBounds(size * n, d);
    ScaledBounds(size, d, n, whole, part);
    RoundUpIs(part, n, whole);
  }

  lemma ScaledBounds(size: nat, d: nat, n: nat, whole: nat, part: nat)
    requires d > 0 && n > 0
    requires d * whole - d < size <= d * whole && d * part - d < size * n <= d * part
    ensures n * whole - n < part <= n * whole
  {
    ProductAssoc(n, d, whole);
    ProductAssoc(n, d, whole - 1);
    ProductMonotone(n, size, d * whole);
    ProductMonotone(n, d * (whole - 1) + 1, size);
    NotAbove(d, part, n * whole, n * size);
    NotBelow(d, part, n * (whole - 1), n * size);
  }

  lemma NotAbove(d: nat, part: int, bound: int, x: int)
    requires d * part - d < x <= d * bound
    ensures part <= bound
  {
    if part > bound {
      ProductMonotone(d, bound + 1, part);
    }
  }

  lemma NotBelow(d: nat, part: int, bound: int, x: int)
    requires d * bound < x <= d * part
    ensures bound < part
  {
    if part <= bound {
      ProductMonotone(d, part, bound);
    }
  }

  // Rounding up in two steps.
  lemma RoundUpTwice(size: nat, a: nat, b: nat)
    requires a > 0 && b > 0
    ensures a * b > 0 && RoundUp(RoundUp(size, a), b) == RoundUp(size, a * b)
  {
    ProductAtLeast(a, b);
    var inner: int := RoundUp(size, a);
    var outer: int := RoundUp(inner, b);
    RoundUpBounds(size, a);
    RoundUpBounds(inner, b);
    ProductMonotone(a, inner, b * outer);
    ProductMonotone(a, b * (outer - 1) + 1, inner);
    ProductAssoc(a, b, outer);
    ProductAssoc(a, b, outer - 1);
    RoundUpIs(size, a * b, outer);
  }

  // What is left for the last of `parts` parts of n.
  function LastPart(total: nat, n: nat): (r: nat)
    requires n > 0
    ensures 1 <= r <= n
  {
    if total % n == 0 then n else total % n
  }

  lemma LastPartFits(total: nat, n: nat)
    requires n > 0 && total > 0
    ensures RoundUp(total, n) >= 1
    ensures (RoundUp(total, n) - 1) * n + LastPart(total, n) == total
  {
    var q := RoundUp(total, n);
    RoundUpBounds(total, n);
    var r := total - n * (q - 1);
    if r == n {
      QuotientIs(total, n, q);
    } else {
      QuotientIs(total, n, q - 1);
    }
  }

  // One component: sampling factors from the frame header, sizes from initial_setup, MCU
  // shape in the current scan from per_scan_setup.
  datatype Component = Component(h: nat, v: nat, needed: bool,
                                 widthInBlocks: nat, heightInBlocks: nat,
                                 downsampledWidth: nat, downsampledHeight: nat,
                                 mcuWidth: nat, mcuHeight: nat, mcuBlocks: nat, mcuSampleWidth: nat,
                                 lastColWidth: nat, lastRowHeight: nat)
  {
    predicate Legal() {
      1 <= h <= MAX_SAMP_FACTOR && 1 <= v <= MAX_SAMP_FACTOR
    }

    // What initial_setup leaves in a component of an image of that size.
    predicate Sized(width: nat, height: nat, maxH: nat, maxV: nat)
      requires maxH > 0 && maxV > 0
    {
      && widthInBlocks == RoundUp(width * h, maxH * DCTSIZE)
      && heightInBlocks == RoundUp(height * v, maxV * DCTSIZE)
      && downsampledWidth == RoundUp(width * h, maxH)
      && downsampledHeight == RoundUp(height * v, maxV)
      && needed
    }

    // The block rows are cut into iMCU rows of v rows each, the last one partly filled.
    predicate RowsFit(totalIMCURows: nat) {
      && totalIMCURows >= 1 && 1 <= lastRowHeight <= v
      && (totalIMCURows - 1) * v + lastRowHeight == heightInBlocks
    }

    // The block columns are cut into MCUs, the last one partly filled.
    predicate ColumnsFit(mcusPerRow: nat) {
      && mcusPerRow >= 1 && 1 <= lastColWidth <= mcuWidth
      && (mcusPerRow - 1) * mcuWidth + lastColWidth == widthInBlocks
    }

    predicate McuShape(interleaved: bool) {
      && mcuBlocks == mcuWidth * mcuHeight && mcuSampleWidth == mcuWidth * DCTSIZE
      && (if interleaved then mcuWidth == h && mcuHeight == v else mcuWidth == mcuHeight == 1)
    }

    // Every block of the component lies in exactly one MCU of the scan, at a place inside it.
    predicate Fits(interleaved: bool, mcusPerRow: nat, totalIMCURows: nat) {
      McuShape(interleaved) && ColumnsFit(mcusPerRow) && RowsFit(totalIMCURows)
    }
  }

  // The blocks exactly cover the samples of a component.
  lemma BlocksCoverSamples(c: Component, width: nat, height: nat, maxH: nat, maxV: nat)
    requires maxH > 0 && maxV > 0 && c.Sized(width, height, maxH, maxV)
    ensures c.widthInBlocks == RoundUp(c.downsampledWidth, DCTSIZE)
    ensures c.heightInBlocks == RoundUp(c.downsampledHeight, DCTSIZE)
  {
    RoundUpTwice(width * c.h, maxH, DCTSIZE);
    RoundUpTwice(height * c.v, maxV, DCTSIZE);
  }

  // A component is as many parts of n blocks long as the image is parts of n times the
  // largest sampling factor, and what the last part holds completes it.
  lemma PartsFit(size: nat, factor: nat, max: nat, blocks: nat, parts: nat)
    requires size > 0 && factor > 0 && max > 0
    requires blocks == RoundUp(size * factor, max * DCTSIZE) && parts == RoundUp(size, max * DCTSIZE)
    ensures blocks >= 1 && parts >= 1
    ensures (parts - 1) * factor + LastPart(blocks, factor) == blocks
  {
    ProductAtLeast(size, factor);
    RoundUpBounds(size * factor, max * DCTSIZE);
    NestedRoundUp(size, max * DCTSIZE, factor);
    LastPartFits(blocks, factor);
  }

  // Every component of an image has as many row groups as every other, and as many iMCU rows
  // of them: what the main controller takes for granted.
  lemma RowGroupsAgree(c: Component, width: nat, height: nat, maxH: nat, maxV: nat)
    requires height > 0 && maxH > 0 && maxV > 0 && c.Legal() && c.Sized(width, height, maxH, maxV)
    ensures var im := MainController.Image(DCTSIZE, RoundUp(height, maxV * DCTSIZE), RoundUp(height, maxV));
            im.Valid() && im.Fits(ContextRows.Shape(c.v, c.v * DCTSIZE, c.downsampledHeight))
  {
    hide RoundUp;
    GroupsOfComponent(height, maxV, c.v);
    GroupsOfImage(height, maxV);
  }

  lemma GroupsOfComponent(height: nat, maxV: nat, v: nat)
    requires height > 0 && maxV > 0 && v > 0
    ensures RoundUp(height * v, maxV) > 0
    ensures v * (RoundUp(height, maxV) - 1) < RoundUp(height * v, maxV) <= v * RoundUp(height, maxV)
  {
    hide RoundUp;
    NestedRoundUp(height, maxV, v);
    ProductAtLeast(height, v);
    RoundUpBounds(height * v, maxV);
    RoundUpBounds(RoundUp(height * v, maxV), v);
  }

  lemma GroupsOfImage(height: nat, maxV: nat)
    requires height > 0 && maxV > 0
    ensures RoundUp(height, maxV * DCTSIZE) >= 1
    ensures (RoundUp(height, maxV * DCTSIZE) - 1) * DCTSIZE < RoundUp(height, maxV)
         <= RoundUp(height, maxV * DCTSIZE) * DCTSIZE
  {
    hide RoundUp;
    RoundUpTwice(height, maxV, DCTSIZE);
    RoundUpBounds(height, maxV);
    RoundUpBounds(RoundUp(height, maxV), DCTSIZE);
  }

  // Blocks in the MCU before its part for component ci, given the blocks of each part.
  function BlocksBefore(blocks: seq<nat>, ci: nat): nat
    requires ci <= |blocks|
  {
    if ci == 0 then 0 else BlocksBefore(blocks, ci - 1) + blocks[ci - 1]
  }

  // The blocks of an MCU are listed with the component each belongs to.
  predicate MembersListed(members: seq<nat>, parts: seq<nat>, n: nat)
    requires n <= |parts|
  {
    && |members| == BlocksBefore(parts, n)
    && forall ci | 0 <= ci < n ::
         forall b | BlocksBefore(parts, ci) <= b < BlocksBefore(parts, ci + 1) && b < |members| :: members[b] == ci
  }

  lemma BlocksBeforeMonotone(parts: seq<nat>, i: nat, j: nat)
    requires i <= j <= |parts|
    ensures BlocksBefore(parts, i) <= BlocksBefore(parts, j)
    decreases j
  {
    if i < j {
      BlocksBeforeMonotone(parts, i, j - 1);
    }
  }

  lemma ListedLength(members: seq<nat>, parts: seq<nat>, n: nat)
    requires n <= |parts| && MembersListed(members, parts, n)
    ensures |members| == BlocksBefore(parts, n)
  {}

  lemma NoneListed(parts: seq<nat>)
    ensures MembersListed([], parts, 0)
  {}

  lemma ListOneMore(members: seq<nat>, parts: seq<nat>, n: nat, more: seq<nat>)
    requires n < |parts| && MembersListed(members, parts, n)
    requires |more| == parts[n] && forall k | 0 <= k < |more| :: more[k] == n
    ensures MembersListed(members + more, parts, n + 1)
  {
    forall ci | 0 <= ci < n + 1
      ensures forall b | BlocksBefore(parts, ci) <= b < BlocksBefore(parts, ci + 1) && b < |members + more| ::
          (members + more)[b] == ci
    {
      if ci < n {
        BlocksBeforeMonotone(parts, ci + 1, n);
      }
    }
  }

  // Blocks of a component in one MCU of an interleaved scan.
  function Area(c: Component): nat {
    c.h * c.v
  }

  function Areas(comps: seq<Component>, cur: seq<nat>): (r: seq<nat>)
    requires forall i | 0 <= i < |cur| :: cur[i] < |comps|
    ensures |r| == |cur| && forall i | 0 <= i < |cur| :: r[i] == Area(comps[cur[i]])
  {
    seq(|cur|, i requires 0 <= i < |cur| => Area(comps[cur[i]]))
  }

  // Members are the same, sampling factors are the same.
  predicate SameFactors(a: seq<Component>, b: seq<Component>) {
    |a| == |b| && forall i | 0 <= i < |a| :: a[i].h == b[i].h && a[i].v == b[i].v
  }

  lemma SameAreas(a: seq<Component>, b: seq<Component>, cur: seq<nat>)
    requires SameFactors(a, b) && forall i | 0 <= i < |cur| :: cur[i] < |a|
    ensures Areas(a, cur) == Areas(b, cur)
  {}

  lemma SameAsSelf(a: seq<Component>)
    ensures SameFactors(a, a)
  {}

  lemma FactorsChain(a: seq<Component>, b: seq<Component>, c: seq<Component>)
    requires SameFactors(a, b) && SameFactors(b, c)
    ensures SameFactors(a, c)
  {}

  datatype SetupResult = Done | ImageTooBig | BadPrecision | ComponentCount | BadSampling | BadMcuSize

  // The sizes of one component.
  method Measure(comp: Component, width: nat, height: nat, maxH: nat, maxV: nat) returns (c: Component)
    requires maxH > 0 && maxV > 0
    ensures c.Sized(width, height, maxH, maxV) && c.h == comp.h && c.v == comp.v
  {
    c := comp.(widthInBlocks := RoundUp(width * comp.h, maxH * DCTSIZE),
               heightInBlocks := RoundUp(height * comp.v, maxV * DCTSIZE),
               downsampledWidth := RoundUp(width * comp.h, maxH),
               downsampledHeight := RoundUp(height * comp.v, maxV),
               needed := true);
  }

  // The shape of a component's part of an MCU in an interleaved scan.
  method ShapeInterleaved(comp: Component, ghost width: nat, ghost height: nat, ghost maxH: nat, ghost maxV: nat,
                          ghost mcusPerRow: nat, ghost totalIMCURows: nat) returns (c: Component)
    requires width > 0 && height > 0 && maxH > 0 && maxV > 0
    requires comp.Legal() && comp.Sized(width, height, maxH, maxV)
    requires mcusPerRow == RoundUp(width, maxH * DCTSIZE) && totalIMCURows == RoundUp(height, maxV * DCTSIZE)
    ensures c.h == comp.h && c.v == comp.v && c.Legal() && c.Sized(width, height, maxH, maxV)
    ensures c.Fits(true, mcusPerRow, totalIMCURows) && c.mcuBlocks == Area(c)
  {
    hide RoundUp;
    c := comp.(mcuWidth := comp.h, mcuHeight := comp.v);
    c := c.(mcuBlocks := c.mcuWidth * c.mcuHeight);
    c := c.(mcuSampleWidth := c.mcuWidth * DCTSIZE);
    var tmp := c.widthInBlocks % c.mcuWidth;
    if tmp == 0 { tmp := c.mcuWidth; }
    c := c.(lastColWidth := tmp);
    tmp := c.heightInBlocks % c.mcuHeight;
    if tmp == 0 { tmp := c.mcuHeight; }
    c := c.(lastRowHeight := tmp);
    PartsFit(width, c.h, maxH, c.widthInBlocks, mcusPerRow);
    PartsFit(height, c.v, maxV, c.heightInBlocks, totalIMCURows);
  }

  // The same for the one component of a noninterleaved scan.
  method ShapeSingle(comp: Component, ghost width: nat, ghost height: nat, ghost maxH: nat, ghost maxV: nat,
                     ghost totalIMCURows: nat) returns (c: Component)
    requires width > 0 && height > 0 && maxH > 0 && maxV > 0
    requires comp.Legal() && comp.Sized(width, height, maxH, maxV)
    requires totalIMCURows == RoundUp(height, maxV * DCTSIZE)
    ensures c.h == comp.h && c.v == comp.v && c.Legal() && c.Sized(width, height, maxH, maxV)
    ensures c.widthInBlocks == comp.widthInBlocks && c.heightInBlocks == comp.heightInBlocks
    ensures c.Fits(false, comp.widthInBlocks, totalIMCURows) && c.mcuBlocks == 1
  {
    hide RoundUp;
    c := comp.(mcuWidth := 1, mcuHeight := 1, mcuBlocks := 1, mcuSampleWidth := DCTSIZE, lastColWidth := 1);
    var tmp := c.heightInBlocks % c.v;
    if tmp == 0 { tmp := c.v; }
    c := c.(lastRowHeight := tmp);
    PartsFit(width, c.h, maxH, c.widthInBlocks, RoundUp(width, maxH * DCTSIZE));
    PartsFit(height, c.v, maxV, c.heightInBlocks, totalIMCURows);
  }

  class InputController {
    // From the frame header.
    var imageWidth: nat
    var imageHeight: nat
    var dataPrecision: nat
    var progressive: bool
    var comps: seq<Component>
    // From initial_setup.
    var maxH: nat
    var maxV: nat
    var totalIMCURows: nat
    var hasMultipleScans: bool
    // The components of the current scan, from its header.
    var cur: seq<nat>
    // From per_scan_setup.
    var mcusPerRow: nat
    var mcuRowsInScan: nat
    var membership: seq<nat>

    predicate HeaderRead()
      reads `imageWidth, `imageHeight, `comps
    {
      imageWidth > 0 && imageHeight > 0 && |comps| > 0
    }

    predicate ScanHeaderRead()
      reads `cur, `comps
    {
      |cur| > 0 && forall i | 0 <= i < |cur| :: cur[i] < |comps|
    }

    predicate AllLegal()
      reads `comps
    {
      forall i | 0 <= i < |comps| :: comps[i].Legal()
    }

    // The largest sampling factors are known.
    predicate MaximaKnown()
      reads `comps, `maxH, `maxV
    {
      && maxH > 0 && maxV > 0 && AllLegal()
      && (forall i | 0 <= i < |comps| :: comps[i].h <= maxH && comps[i].v <= maxV)
      && (exists i :: 0 <= i < |comps| && comps[i].h == maxH)
      && (exists i :: 0 <= i < |comps| && comps[i].v == maxV)
    }

    // What holds once initial_setup has succeeded.
    predicate Measured()
      reads `imageWidth, `imageHeight, `comps, `maxH, `maxV, `totalIMCURows
    {
      && HeaderRead() && MaximaKnown()
      && totalIMCURows == RoundUp(imageHeight, maxV * DCTSIZE)
      && (forall i | 0 <= i < |comps| :: comps[i].Sized(imageWidth, imageHeight, maxH, maxV))
    }

    predicate Interleaved()
      reads `cur
    {
      |cur| != 1
    }

    // What holds once per_scan_setup has succeeded.
    predicate ScanReady()
      reads this
    {
      && Measured() && ScanHeaderRead()
      && (forall i | 0 <= i < |cur| :: comps[cur[i]].Fits(Interleaved(), mcusPerRow, totalIMCURows))
      && mcuRowsInScan == (if Interleaved() then totalIMCURows else comps[cur[0]].heightInBlocks)
      && MembersListed(membership, Parts(), |cur|) && |membership| <= MAX_BLOCKS_IN_MCU
    }

    // Blocks of an MCU, component by component.
    function Parts(): (r: seq<nat>)
      requires ScanHeaderRead()
      reads `cur, `comps
      ensures |r| == |cur|
    {
      if Interleaved() then Areas(comps, cur) else [1]
    }

    // The first loop of initial_setup.
    method FindMaxima() returns (ok: bool)
      requires HeaderRead()
      modifies `maxH, `maxV
      ensures ok == AllLegal()
      ensures ok ==> MaximaKnown()
    {
      maxH, maxV := 1, 1;
      var ci := 0;
      while ci < |comps|
        invariant ci <= |comps| && 1 <= maxH && 1 <= maxV
        invariant forall i | 0 <= i < ci :: comps[i].Legal() && comps[i].h <= maxH && comps[i].v <= maxV
        invariant maxH == 1 || exists i :: 0 <= i < ci && comps[i].h == maxH
        invariant maxV == 1 || exists i :: 0 <= i < ci && comps[i].v == maxV
      {
        if comps[ci].h <= 0 || comps[ci].h > MAX_SAMP_FACTOR || comps[ci].v <= 0 || comps[ci].v > MAX_SAMP_FACTOR {
          return false;
        }
        if maxH < comps[ci].h { maxH := comps[ci].h; }
        if maxV < comps[ci].v { maxV := comps[ci].v; }
        ci := ci + 1;
      }
      assert comps[0].h <= maxH && comps[0].v <= maxV;
      return true;
    }

    // The second loop of initial_setup.
    method MeasureComponents()
      requires MaximaKnown()
      modifies `comps
      ensures |comps| == |old(comps)|
      ensures forall i | 0 <= i < |comps| ::
          comps[i].Sized(imageWidth, imageHeight, maxH, maxV) && comps[i].h == old(comps)[i].h
            && comps[i].v == old(comps)[i].v
    {
      hide Component.Sized;
      var ci := 0;
      while ci < |comps|
        invariant ci <= |comps| == |old(comps)|
        invariant forall i | 0 <= i < ci ::
            comps[i].Sized(imageWidth, imageHeight, maxH, maxV) && comps[i].h == old(comps)[i].h
              && comps[i].v == old(comps)[i].v
        invariant forall i | ci <= i < |comps| :: comps[i] == old(comps)[i]
      {
        var c := Measure(comps[ci], imageWidth, imageHeight, maxH, maxV);
        comps := comps[ci := c];
        ci := ci + 1;
      }
    }

    method InitialSetup() returns (r: SetupResult)
      requires HeaderRead()
      modifies `comps, `maxH, `maxV, `totalIMCURows, `hasMultipleScans
      ensures r == ImageTooBig <==> imageHeight > MAX_DIMENSION || imageWidth > MAX_DIMENSION
      ensures r == BadPrecision <==> imageHeight <= MAX_DIMENSION && imageWidth <= MAX_DIMENSION && dataPrecision != 8
      ensures r == ComponentCount <==>
        && imageHeight <= MAX_DIMENSION && imageWidth <= MAX_DIMENSION && dataPrecision == 8
        && |old(comps)| > MAX_COMPONENTS
      ensures r == BadSampling <==>
        && imageHeight <= MAX_DIMENSION && imageWidth <= MAX_DIMENSION && dataPrecision == 8
        && |old(comps)| <= MAX_COMPONENTS && !old(AllLegal())
      ensures r == Done <==>
        && imageHeight <= MAX_DIMENSION && imageWidth <= MAX_DIMENSION && dataPrecision == 8
        && |old(comps)| <= MAX_COMPONENTS && old(AllLegal())
      ensures r == Done ==> Measured() && |comps| == |old(comps)|
      ensures r == Done ==> (hasMultipleScans <==> |cur| < |comps| || progressive)
      ensures r == Done ==>
        forall i | 0 <= i < |comps| :: comps[i].h == old(comps)[i].h && comps[i].v == old(comps)[i].v
    {
      hide Component.Sized, InputController.Measured, InputController.MaximaKnown;
      if imageHeight > MAX_DIMENSION || imageWidth > MAX_DIMENSION {
        return ImageTooBig;
      }
      if dataPrecision != 8 {
        return BadPrecision;
      }
      if |comps| > MAX_COMPONENTS {
        return ComponentCount;
      }
      var ok := FindMaxima();
      if !ok {
        return BadSampling;
      }
      MeasureImage();
      hasMultipleScans := |cur| < |comps| || progressive;
      return Done;
    }

    // The rest of initial_setup once the sampling factors are known to be legal.
    method MeasureImage()
      requires HeaderRead() && MaximaKnown()
      modifies `comps, `totalIMCURows
      ensures Measured() && SameFactors(comps, old(comps))
    {
      hide Component.Sized;
      MeasureComponents();
      forall i | 0 <= i < |comps|
        ensures comps[i].Legal() && comps[i].h <= maxH && comps[i].v <= maxV
      {
        assert old(comps)[i].Legal();
      }
      ghost var i :| 0 <= i < |old(comps)| && old(comps)[i].h == maxH;
      ghost var j :| 0 <= j < |old(comps)| && old(comps)[j].v == maxV;
      assert comps[i].h == maxH && comps[j].v == maxV;
      totalIMCURows := RoundUp(imageHeight, maxV * DCTSIZE);
    }

    // The sizes per_scan_setup gives one component of an interleaved scan.
    method PlaceComponent(ci: nat)
      requires Measured() && ScanHeaderRead() && Interleaved() && ci < |cur|
      requires mcusPerRow == RoundUp(imageWidth, maxH * DCTSIZE)
      modifies `comps
      ensures Measured() && SameFactors(comps, old(comps))
      ensures comps[cur[ci]].Fits(true, mcusPerRow, totalIMCURows)
          && comps[cur[ci]].mcuBlocks == Area(old(comps)[cur[ci]])
      ensures forall i | 0 <= i < |comps| && i != cur[ci] :: comps[i] == old(comps)[i]
    {
      hide Component.Sized, Component.Fits, InputController.MaximaKnown;
      assert maxH > 0 && maxV > 0 && comps[cur[ci]].Legal() by { OneLegal(cur[ci]); }
      var c := ShapeInterleaved(comps[cur[ci]], imageWidth, imageHeight, maxH, maxV, mcusPerRow, totalIMCURows);
      AllOf();
      comps := comps[cur[ci] := c];
      StillMeasured(old(comps), ci);
    }

    lemma OneLegal(i: nat)
      requires Measured() && i < |comps|
      ensures maxH > 0 && maxV > 0 && comps[i].Legal() && comps[i].Sized(imageWidth, imageHeight, maxH, maxV)
    {}

    lemma AllOf()
      requires Measured()
      ensures HeaderRead() && maxH > 0 && maxV > 0 && totalIMCURows == RoundUp(imageHeight, maxV * DCTSIZE)
      ensures forall i | 0 <= i < |comps| ::
          comps[i].Legal() && comps[i].h <= maxH && comps[i].v <= maxV
            && comps[i].Sized(imageWidth, imageHeight, maxH, maxV)
      ensures exists i :: 0 <= i < |comps| && comps[i].h == maxH
      ensures exists i :: 0 <= i < |comps| && comps[i].v == maxV
    {}

    lemma StillMeasured(before: seq<Component>, ci: nat)
      requires HeaderRead() && SameFactors(comps, before) && |comps| == |before| && ScanHeaderRead() && ci < |cur|
      requires forall i | 0 <= i < |comps| && i != cur[ci] :: comps[i] == before[i]
      requires maxH > 0 && maxV > 0 && comps[cur[ci]].Sized(imageWidth, imageHeight, maxH, maxV)
      requires totalIMCURows == RoundUp(imageHeight, maxV * DCTSIZE)
      requires forall i | 0 <= i < |before| ::
          before[i].Legal() && before[i].h <= maxH && before[i].v <= maxV
            && before[i].Sized(imageWidth, imageHeight, maxH, maxV)
      requires exists i :: 0 <= i < |before| && before[i].h == maxH
      requires exists i :: 0 <= i < |before| && before[i].v == maxV
      ensures Measured()
    {
      hide Component.Sized;
      forall i | 0 <= i < |comps|
        ensures comps[i].Legal() && comps[i].h <= maxH && comps[i].v <= maxV
      {
        assert before[i].Legal();
      }
      var i :| 0 <= i < |before| && before[i].h == maxH;
      var j :| 0 <= j < |before| && before[j].v == maxV;
      assert comps[i].h == maxH && comps[j].v == maxV;
    }

    // The single component of a noninterleaved scan.
    method PlaceSingle()
      requires Measured() && ScanHeaderRead() && !Interleaved()
      modifies `comps, `mcusPerRow, `mcuRowsInScan, `membership
      ensures ScanReady() && Measured() && SameFactors(comps, old(comps))
    {
      hide Component.Sized, Component.Fits, InputController.MaximaKnown, InputController.Measured;
      AllOf();
      mcusPerRow := comps[cur[0]].widthInBlocks;
      mcuRowsInScan := comps[cur[0]].heightInBlocks;
      var c := ShapeSingle(comps[cur[0]], imageWidth, imageHeight, maxH, maxV, totalIMCURows);
      comps := comps[cur[0] := c];
      StillMeasured(old(comps), 0);
      membership := [0];
      assert BlocksBefore([1], 1) == 1;
    }

    // The membership loop of per_scan_setup for one component.
    method ListMembers(ci: nat, ghost parts: seq<nat>)
      requires Measured() && ScanHeaderRead() && Interleaved() && ci < |cur| == |parts|
      requires comps[cur[ci]].mcuBlocks == parts[ci] && MembersListed(membership, parts, ci)
      modifies `membership
      ensures MembersListed(membership, parts, ci + 1)
    {
      ghost var before := membership;
      var mcublks := comps[cur[ci]].mcuBlocks;
      ghost var more: seq<nat> := [];
      while mcublks > 0
        invariant mcublks >= 0 && mcublks + |more| == parts[ci] && membership == before + more
        invariant forall k | 0 <= k < |more| :: more[k] == ci
      {
        membership := membership + [ci];
        more := more + [ci];
        mcublks := mcublks - 1;
      }
      ListOneMore(before, parts, ci, more);
    }

    // The first ci components of an interleaved scan have been placed in the MCU.
    predicate Placed(ci: nat, parts: seq<nat>)
      reads `imageWidth, `imageHeight, `comps, `maxH, `maxV, `totalIMCURows, `cur, `mcusPerRow, `membership
    {
      && Measured() && ScanHeaderRead() && Interleaved() && ci <= |cur|
      && mcusPerRow == RoundUp(imageWidth, maxH * DCTSIZE)
      && parts == Parts()
      && (forall i | 0 <= i < ci :: comps[cur[i]].Fits(true, mcusPerRow, totalIMCURows))
      && MembersListed(membership, parts, ci) && |membership| <= MAX_BLOCKS_IN_MCU
    }

    // One round of the component loop of per_scan_setup.
    method PlaceNext(ci: nat, ghost parts: seq<nat>) returns (ok: bool)
      requires Placed(ci, parts) && ci < |cur|
      modifies `comps, `membership
      ensures SameFactors(comps, old(comps)) && Measured()
      ensures ok <==> BlocksBefore(parts, ci + 1) <= MAX_BLOCKS_IN_MCU
      ensures ok ==> Placed(ci + 1, parts)
    {
      hide Areas, Component.Sized, Component.Fits, InputController.MaximaKnown, MembersListed, InputController.Measured,
           InputController.Placed, InputController.Parts;
      PlacedFacts(ci, parts);
      PlaceComponent(ci);
      ListedLength(membership, parts, ci);
      if |membership| + comps[cur[ci]].mcuBlocks > MAX_BLOCKS_IN_MCU {
        return false;
      }
      ListMembers(ci, parts);
      ListedLength(membership, parts, ci + 1);
      PlacedMore(old(comps), ci, parts);
      return true;
    }

    lemma PlacedFacts(ci: nat, parts: seq<nat>)
      requires Placed(ci, parts) && ci < |cur|
      ensures Measured() && ScanHeaderRead() && Interleaved() && |parts| == |cur| && parts[ci] == Area(comps[cur[ci]])
      ensures parts == Areas(comps, cur) && mcusPerRow == RoundUp(imageWidth, maxH * DCTSIZE)
      ensures forall i | 0 <= i < ci :: comps[cur[i]].Fits(true, mcusPerRow, totalIMCURows)
      ensures MembersListed(membership, parts, ci) && |membership| <= MAX_BLOCKS_IN_MCU
    {
      hide Component.Fits, InputController.Measured, MembersListed;
    }

    lemma PlacedMore(before: seq<Component>, ci: nat, parts: seq<nat>)
      requires Measured() && ScanHeaderRead() && Interleaved() && ci < |cur| && |before| == |comps|
      requires mcusPerRow == RoundUp(imageWidth, maxH * DCTSIZE) && SameFactors(comps, before)
      requires parts == Areas(before, cur)
      requires forall i | 0 <= i < ci :: before[cur[i]].Fits(true, mcusPerRow, totalIMCURows)
      requires forall i | 0 <= i < |comps| && i != cur[ci] :: comps[i] == before[i]
      requires comps[cur[ci]].Fits(true, mcusPerRow, totalIMCURows)
      requires |parts| >= ci + 1 && MembersListed(membership, parts, ci + 1) && |membership| <= MAX_BLOCKS_IN_MCU
      ensures Placed(ci + 1, parts)
    {
      hide Component.Fits, InputController.Measured, MembersListed, Areas;
      SameAreas(comps, before, cur);
      forall i | 0 <= i < ci + 1
        ensures comps[cur[i]].Fits(true, mcusPerRow, totalIMCURows)
      {
        if cur[i] != cur[ci] {
          assert comps[cur[i]] == before[cur[i]];
        }
      }
    }

    lemma AllPlaced(parts: seq<nat>)
      requires Placed(|cur|, parts) && mcuRowsInScan == totalIMCURows
      ensures ScanReady()
    {}

    lemma NonePlaced(parts: seq<nat>)
      requires Measured() && ScanHeaderRead() && Interleaved() && membership == []
      requires mcusPerRow == RoundUp(imageWidth, maxH * DCTSIZE) && parts == Parts()
      ensures Placed(0, parts)
    {
      NoneListed(parts);
    }

    lemma PlacedMeans(ci: nat, parts: seq<nat>)
      requires Placed(ci, parts)
      ensures ci <= |cur| == |parts| && Measured() && BlocksBefore(parts, ci) <= MAX_BLOCKS_IN_MCU
    {}

    // The branch of per_scan_setup for several components.
    method PlaceAll() returns (ok: bool)
      requires Measured() && ScanHeaderRead() && Interleaved()
      modifies `comps, `mcusPerRow, `mcuRowsInScan, `membership
      ensures SameFactors(comps, old(comps)) && Measured()
      ensures ok <==> BlocksBefore(old(Parts()), |cur|) <= MAX_BLOCKS_IN_MCU
      ensures ok ==> ScanReady()
    {
      hide InputController.Placed, SameFactors, InputController.ScanReady, Component.Sized, Component.Fits,
           InputController.MaximaKnown, MembersListed, InputController.Measured, Areas;
      AllOf();
      mcusPerRow := RoundUp(imageWidth, maxH * DCTSIZE);
      mcuRowsInScan := RoundUp(imageHeight, maxV * DCTSIZE);
      membership := [];
      ghost var parts := Parts();
      var ci := 0;
      NonePlaced(parts);
      SameAsSelf(comps);
      while ci < |cur|
        invariant ci <= |cur| == |parts| && Placed(ci, parts) && SameFactors(comps, old(comps))
        invariant mcuRowsInScan == totalIMCURows
      {
        PlacedMeans(ci, parts);
        label L:
        ok := PlaceNext(ci, parts);
        FactorsChain(comps, old@L(comps), old(comps));
        BlocksBeforeMonotone(parts, ci + 1, |cur|);
        if !ok {
          return;
        }
        ci := ci + 1;
      }
      AllPlaced(parts);
      PlacedMeans(ci, parts);
      ok := true;
    }

    method PerScanSetup() returns (r: SetupResult)
      requires Measured() && ScanHeaderRead()
      modifies `comps, `mcusPerRow, `mcuRowsInScan, `membership
      ensures r == ComponentCount <==> |cur| > MAX_COMPS_IN_SCAN
      ensures r == BadMcuSize <==>
        1 < |cur| <= MAX_COMPS_IN_SCAN && BlocksBefore(old(Parts()), |cur|) > MAX_BLOCKS_IN_MCU
      ensures r == Done || r == ComponentCount || r == BadMcuSize
      ensures r == Done ==> ScanReady()
      ensures SameFactors(comps, old(comps)) && Measured()
    {
      hide InputController.ScanReady, InputController.Measured, Areas, BlocksBefore;
      if |cur| == 1 {
        PlaceSingle();
        return Done;
      }
      if |cur| <= 0 || |cur| > MAX_COMPS_IN_SCAN {
        return ComponentCount;
      }
      var ok := PlaceAll();
      return if ok then Done else BadMcuSize;
    }
  }
}
