/**
  The two-pass colour quantizer object (jquant2.c): one block of histogram cells serves
  first as pixel counts, then as the cache of nearest colours.  Whatever the order of
  passes, colormap changes and pixels, pass 2 emits true nearest entries.
  */
module TwoPassQuantizer {
  import opened ColorSpace
  import opened InverseColormap
  import MedianCut

  type Row = seq<Sample>

  predicate RowsFit(rows: seq<Row>, width: nat) {
    forall r | 0 <= r < |rows| :: |rows[r]| >= 3 * width
  }

  function Pixel(row: Row, col: nat): Color
    requires |row| >= 3 * col + 3
  {
    Color(row[3 * col], row[3 * col + 1], row[3 * col + 2])
  }

  // Pixels of a cell among the first cols pixels of a row.
  ghost function RowHits(row: Row, cols: nat, c0: int, c1: int, c2: int): nat
    requires |row| >= 3 * cols
  {
    if cols == 0 then 0
    else RowHits(row, cols - 1, c0, c1, c2) + if InCell(Pixel(row, cols - 1), c0, c1, c2) then 1 else 0
  }

  // Pixels of a cell in a buffer of rows.
  ghost function Hits(rows: seq<Row>, width: nat, c0: int, c1: int, c2: int): nat
    requires RowsFit(rows, width)
  {
    if rows == [] then 0
    else Hits(rows[..|rows| - 1], width, c0, c1, c2) + RowHits(rows[|rows| - 1], width, c0, c1, c2)
  }

  // 16-bit cells stick at their maximum.
  function Clamp16(x: int): int { if x > 65535 then 65535 else x }

  class Quantizer {
    const histogram: array3<int>
    const desired: nat                // size of the colormap to select
    var colormap: seq<Color>          // the colormap in force, with actual_number_of_colors entries
    var needsZeroed: bool
    var prescanning: bool             // a prescan pass is under way

    predicate HasColormap()
      reads this
    {
      1 <= |colormap| <= MAXNUMCOLORS
    }

    ghost predicate Valid()
      reads this, histogram
    {
      && HistShape(histogram)
      && MedianCut.Counts(histogram)
      && 8 <= desired <= MAXNUMCOLORS
      && (!needsZeroed && !prescanning && HasColormap() ==> CacheValid(colormap, histogram))
    }

    // Pass 2 may run: the cells are a cache for the colormap in force.
    ghost predicate Ready()
      reads this, histogram
    {
      Valid() && !needsZeroed && !prescanning && HasColormap()
    }

    // The histogram starts as garbage and must be zeroed.
    constructor (desired: nat)
      requires 8 <= desired <= MAXNUMCOLORS
      ensures Valid() && this.desired == desired && needsZeroed && fresh(histogram)
    {
      this.desired := desired;
      histogram := new int[HIST_C0_ELEMS, HIST_C1_ELEMS, HIST_C2_ELEMS]((i, j, k) => 1);
      colormap := [];
      needsZeroed := true;
      prescanning := false;
    }

    // start_pass_2_quant: a false result stands for the error exits on the colour count.
    method StartPass(isPreScan: bool) returns (ok: bool)
      requires Valid() && !prescanning
      modifies this`needsZeroed, this`prescanning, histogram
      ensures Valid()
      ensures ok <==> isPreScan || HasColormap()
      ensures ok && isPreScan ==> prescanning && !needsZeroed && MedianCut.OccupiedCells(histogram) == {}
      ensures ok && !isPreScan ==> Ready()
    {
      if isPreScan {
        prescanning := true;
        needsZeroed := true;
      } else {
        if |colormap| < 1 || |colormap| > MAXNUMCOLORS {
          return false;
        }
      }
      ok := true;
      if needsZeroed {
        ZeroCells();
        needsZeroed := false;
      }
    }

    method ZeroCells()
      requires HistShape(histogram)
      modifies histogram
      ensures forall c0, c1, c2 | CellExists(c0, c1, c2) :: histogram[c0, c1, c2] == 0
    {
      forall c0, c1, c2 | 0 <= c0 < HIST_C0_ELEMS && 0 <= c1 < HIST_C1_ELEMS && 0 <= c2 < HIST_C2_ELEMS {
        histogram[c0, c1, c2] := 0;
      }
    }

    // prescan_quantize: count the pixels of each cell, sticking at 65535.
    method PrescanQuantize(rows: seq<Row>, width: nat)
      requires Valid() && prescanning && RowsFit(rows, width)
      modifies histogram
      ensures Valid()
      ensures forall c0, c1, c2 | CellExists(c0, c1, c2) ::
                histogram[c0, c1, c2] == Clamp16(old(histogram[c0, c1, c2]) + Hits(rows, width, c0, c1, c2))
    {
      for r := 0 to |rows|
        invariant MedianCut.Counts(histogram)
        invariant forall c0, c1, c2 | CellExists(c0, c1, c2) ::
                    histogram[c0, c1, c2] == Clamp16(old(histogram[c0, c1, c2]) + Hits(rows[..r], width, c0, c1, c2))
      {
        PrescanRow(rows[r], width);
        assert rows[..r + 1][..r] == rows[..r];
      }
      assert rows[..|rows|] == rows;
    }

    method PrescanRow(row: Row, width: nat)
      requires HistShape(histogram) && MedianCut.Counts(histogram) && |row| >= 3 * width
      modifies histogram
      ensures MedianCut.Counts(histogram)
      ensures forall c0, c1, c2 | CellExists(c0, c1, c2) ::
                histogram[c0, c1, c2] == Clamp16(old(histogram[c0, c1, c2]) + RowHits(row, width, c0, c1, c2))
    {
      for col := 0 to width
        invariant MedianCut.Counts(histogram)
        invariant forall c0, c1, c2 | CellExists(c0, c1, c2) ::
                    histogram[c0, c1, c2] == Clamp16(old(histogram[c0, c1, c2]) + RowHits(row, col, c0, c1, c2))
      {
        CountPixel(row, col);
      }
    }

    method CountPixel(row: Row, col: nat)
      requires HistShape(histogram) && MedianCut.Counts(histogram) && |row| >= 3 * (col + 1)
      modifies histogram
      ensures MedianCut.Counts(histogram)
      ensures forall c0, c1, c2 | CellExists(c0, c1, c2) ::
                histogram[c0, c1, c2]
                  == if InCell(Pixel(row, col), c0, c1, c2) then Clamp16(old(histogram[c0, c1, c2]) + 1)
                                         else old(histogram[c0, c1, c2])
    {
      var i0, i1, i2 := Cell0(row[3 * col]), Cell1(row[3 * col + 1]), Cell2(row[3 * col + 2]);
      // increment a 16-bit cell, and undo the increment if it wrapped to zero
      var v := (histogram[i0, i1, i2] + 1) % 65536;
      if v <= 0 {
        v := (v - 1) % 65536;
      }
      histogram[i0, i1, i2] := v;
    }

    // finish_pass1: select the colormap; the cells must then be zeroed.
    method FinishPass1() returns (ghost boxes: seq<MedianCut.Box>)
      requires Valid() && prescanning && MedianCut.OccupiedCells(histogram) != {}
      modifies this`colormap, this`needsZeroed, this`prescanning
      ensures Valid() && needsZeroed && !prescanning
      ensures HasColormap() && |colormap| == |boxes| <= desired
      ensures MedianCut.CutOf(MedianCut.OccupiedCells(histogram), desired, boxes)
      ensures MedianCut.Represents(histogram, colormap, boxes)
    {
      hide MedianCut.CutOf, MedianCut.OccupiedCells, MedianCut.Represents, MedianCut.Counts, CacheValid,
           MedianCut.SumCounts;
      ghost var occ := MedianCut.OccupiedCells(histogram);
      var saved := new Color[desired](_ => Color(0, 0, 0));
      var n;
      n, boxes := MedianCut.SelectColors(histogram, occ, desired, saved);
      colormap := saved[..n];
      needsZeroed := true;
      prescanning := false;
    }

    // new_color_map_2_quant, after the application has installed another colormap.
    method NewColorMap(cm: seq<Color>)
      requires Valid() && !prescanning
      modifies this`colormap, this`needsZeroed
      ensures Valid() && colormap == cm && needsZeroed
    {
      colormap := cm;
      needsZeroed := true;
    }

    // pass2_no_dither: every pixel is mapped to the lowest-index entry nearest its cell centre.
    method Pass2NoDither(rows: seq<Row>, output: array2<int>, width: nat)
      requires Ready() && RowsFit(rows, width)
      requires output.Length0 >= |rows| && output.Length1 >= width
      modifies histogram, output
      ensures Ready()
      ensures forall r, col | 0 <= r < |rows| && 0 <= col < width ::
                MappedToNearest(colormap, Pixel(rows[r], col), output[r, col])
    {
      for r := 0 to |rows|
        invariant Ready()
        invariant forall s, col | 0 <= s < r && 0 <= col < width ::
                    MappedToNearest(colormap, Pixel(rows[s], col), output[s, col])
      {
        Pass2Row(rows[r], r, output, width);
      }
    }

    method Pass2Row(row: Row, r: nat, output: array2<int>, width: nat)
      requires Ready() && |row| >= 3 * width
      requires r < output.Length0 && output.Length1 >= width
      modifies histogram, output
      ensures Ready()
      ensures forall col | 0 <= col < width :: MappedToNearest(colormap, Pixel(row, col), output[r, col])
      ensures forall s, col | 0 <= s < output.Length0 && 0 <= col < output.Length1 && s != r ::
                output[s, col] == old(output[s, col])
    {
      for col := 0 to width
        invariant Ready()
        invariant forall c | 0 <= c < col :: MappedToNearest(colormap, Pixel(row, c), output[r, c])
        invariant forall s, c | 0 <= s < output.Length0 && 0 <= c < output.Length1 && s != r ::
                    output[s, c] == old(output[s, c])
      {
        var k := MapPixel(Pixel(row, col));
        output[r, col] := k;
      }
    }

    // One pixel: look its cell up, filling the surrounding box of the cache if need be.
    method MapPixel(p: Color) returns (k: int)
      requires Ready()
      modifies histogram
      ensures Ready() && MappedToNearest(colormap, p, k)
    {
      var c0, c1, c2 := Cell0(p.c0), Cell1(p.c1), Cell2(p.c2);
      if histogram[c0, c1, c2] == 0 {
        FillInverseCmap(colormap, histogram, c0, c1, c2);
      }
      assert IsNearest(colormap, c0, c1, c2, histogram[c0, c1, c2] - 1);
      k := histogram[c0, c1, c2] - 1;
    }
  }

  // k is the lowest-index entry nearest the centre of the cell in which the pixel lies.
  ghost predicate MappedToNearest(cm: seq<Color>, p: Color, k: int) {
    1 <= |cm| <= MAXNUMCOLORS && exists c0, c1, c2 :: InCell(p, c0, c1, c2) && IsNearest(cm, c0, c1, c2, k)
  }
}
