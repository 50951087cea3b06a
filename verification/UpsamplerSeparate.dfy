/**
  Upsampling each component on its own (sep_upsample with fullsize_upsample, h2v1_upsample and
  h2v2_upsample of jdsample.c), then converting rows (ycc_rgb_convert of jdcolor.c).
  */
module UpsamplerSeparate {
  import opened Upsampling

  // The first n samples of a conversion buffer's row repeat each input sample twice.
  ghost predicate Doubled(input: seq<Sample>, buf: array2<Sample>, row: nat, n: nat)
    requires row < buf.Length0 && n <= buf.Length1 && n <= 2 * |input|
    reads buf
  {
    forall i | 0 <= i < n :: buf[row, i] == input[i / 2]
  }

  // The horizontal part of h2v1_upsample and h2v2_upsample.
  method DoubleRow(input: seq<Sample>, buf: array2<Sample>, row: nat, width: nat)
    requires row < buf.Length0 && width <= buf.Length1 && buf.Length1 % 2 == 0 && width <= 2 * |input|
    modifies buf
    ensures Doubled(input, buf, row, width)
    ensures forall i, j | 0 <= i < buf.Length0 && 0 <= j < buf.Length1 && i != row :: buf[i, j] == old(buf[i, j])
  {
    var inptr, outptr := 0, 0;
    while outptr < width
      invariant outptr == 2 * inptr && outptr <= width + 1 && outptr <= buf.Length1
      invariant forall i | 0 <= i < outptr :: buf[row, i] == input[i / 2]
      invariant forall i, j | 0 <= i < buf.Length0 && 0 <= j < buf.Length1 && i != row :: buf[i, j] == old(buf[i, j])
    {
      var invalue := input[inptr];
      inptr := inptr + 1;
      buf[row, outptr] := invalue;
      buf[row, outptr + 1] := invalue;
      outptr := outptr + 2;
    }
  }

  // h2v1_upsample for one row, h2v2_upsample for two: the second is a copy of the first.
  method UpsampleComponent(input: seq<Sample>, buf: array2<Sample>, v: nat, width: nat)
    requires 1 <= v <= 2 && buf.Length0 == v && width <= buf.Length1 && buf.Length1 % 2 == 0 && width <= 2 * |input|
    modifies buf
    ensures forall k | 0 <= k < v :: Doubled(input, buf, k, width)
  {
    DoubleRow(input, buf, 0, width);
    if v == 2 {
      for j := 0 to width
        invariant forall i | 0 <= i < width :: buf[0, i] == input[i / 2]
        invariant forall i | 0 <= i < j :: buf[1, i] == input[i / 2]
      {
        buf[1, j] := buf[0, j];
      }
    }
  }

  lemma GroupEnd(v: nat, group: nat)
    ensures v * (group + 1) == v * group + v
  {}

  class SepUpsampler {
    const p: Picture
    const t: Tables
    const cbBuf: array2<Sample>     // color_buf[1], color_buf[2]
    const crBuf: array2<Sample>
    var yFirst: nat                 // color_buf[0]: the luminance row it points to
    var nextRowOut: nat
    var rowsToGo: nat
    var group: nat                  // in_row_group_ctr, counted from the top of the picture

    function Delivered(): int
      reads this
    {
      p.height - rowsToGo
    }

    ghost predicate Static() {
      && p.Valid() && t.Built()
      && cbBuf.Length0 == crBuf.Length0 == p.v && cbBuf.Length1 == crBuf.Length1 == 2 * p.Pairs() && cbBuf != crBuf
    }

    // The conversion buffer holds the row group that is being delivered.
    ghost predicate Filled()
      requires Static()
      reads `group, `yFirst, cbBuf, crBuf
    {
      && group < p.Groups() && yFirst == p.v * group
      && forall k | 0 <= k < p.v :: Doubled(p.cb[group], cbBuf, k, p.width) && Doubled(p.cr[group], crBuf, k, p.width)
    }

    ghost predicate Valid()
      reads this, cbBuf, crBuf
    {
      && Static() && rowsToGo <= p.height && nextRowOut <= p.v
      && (if nextRowOut < p.v then Filled() && Delivered() == p.v * group + nextRowOut
          else rowsToGo > 0 ==> Delivered() == p.v * group)
    }

    // start_pass_upsample
    constructor (p: Picture)
      requires p.Valid()
      ensures Valid() && this.p == p && Delivered() == 0 && fresh(cbBuf) && fresh(crBuf)
    {
      this.p := p;
      cbBuf := new Sample[p.v, 2 * p.Pairs()];
      crBuf := new Sample[p.v, 2 * p.Pairs()];
      yFirst, nextRowOut, rowsToGo, group := 0, p.v, p.height, 0;
      var tables := BuildYccRgbTable();
      t := tables;
    }

    // Fill the conversion buffer with the next row group.
    method Fill()
      requires Static() && group < p.Groups()
      modifies this`yFirst, this`nextRowOut, cbBuf, crBuf
      ensures Filled() && nextRowOut == 0
    {
      yFirst := group * p.v;
      UpsampleComponent(p.cb[group], cbBuf, p.v, p.width);
      UpsampleComponent(p.cr[group], crBuf, p.v, p.width);
      nextRowOut := 0;
    }

    // ycc_rgb_convert for one row
    method ConvertRow(inputRow: nat, out: array2<Sample>, row: nat)
      requires Static() && Filled() && inputRow < p.v && row < out.Length0 && out.Length1 >= 3 * p.width
      requires out != cbBuf && out != crBuf
      modifies out
      ensures PixelsDone(p, p.v * group + inputRow, out, row, p.width)
      ensures forall i, j | 0 <= i < out.Length0 && 0 <= j < out.Length1 && i != row :: out[i, j] == old(out[i, j])
    {
      ghost var r := p.v * group + inputRow;
      GroupOf(p, group, inputRow);
      assert Doubled(p.cb[group], cbBuf, inputRow, p.width) && Doubled(p.cr[group], crBuf, inputRow, p.width);
      hide CrToR, CbToB, CrToG, CbToG, Picture.Byte;
      for col := 0 to p.width
        invariant PixelsDone(p, r, out, row, col)
        invariant forall i, j | 0 <= i < out.Length0 && 0 <= j < out.Length1 && i != row :: out[i, j] == old(out[i, j])
      {
        var y, cb, cr := p.y[yFirst + inputRow][col], cbBuf[inputRow, col], crBuf[inputRow, col];
        assert cb == p.Cb(r, col) && cr == p.Cr(r, col);
        EmitPixel(p, r, out, row, col, y, t.crR[cr], (t.cbG[cb] + t.crG[cr]) / 65536, t.cbB[cb]);
      }
    }

    // Make sure that the conversion buffer holds rows to be delivered.
    method Refill()
      requires Valid() && rowsToGo > 0
      modifies this`yFirst, this`nextRowOut, cbBuf, crBuf
      ensures Filled() && nextRowOut < p.v && Delivered() == p.v * group + nextRowOut
    {
      hide Doubled, Tables.Built, Picture.Groups, Picture.Pairs;
      GroupInside(p, group, Delivered());
      if nextRowOut >= p.v {
        Fill();
      }
    }

    // sep_upsample
    method Upsample(out: array2<Sample>, outRowCtr: nat, outRowsAvail: nat) returns (ctr: nat)
      requires Valid() && rowsToGo > 0 && outRowCtr <= outRowsAvail <= out.Length0 && out.Length1 >= 3 * p.width
      requires out != cbBuf && out != crBuf
      modifies this`yFirst, this`nextRowOut, this`rowsToGo, this`group, cbBuf, crBuf, out
      ensures Valid() && outRowCtr <= ctr <= outRowsAvail && (outRowCtr < outRowsAvail ==> outRowCtr < ctr)
      ensures Delivered() == old(Delivered()) + ctr - outRowCtr
      ensures RowsShown(p, out, outRowCtr, ctr, old(Delivered()))
      ensures forall i, j | 0 <= i < out.Length0 && 0 <= j < out.Length1 && !(outRowCtr <= i < ctr) ::
          out[i, j] == old(out[i, j])
    {
      hide RowsShown, Filled, Tables.Built, Picture.Groups, Picture.Pairs;
      Refill();
      var numRows := p.v - nextRowOut;
      if numRows > rowsToGo {
        numRows := rowsToGo;
      }
      if numRows > outRowsAvail - outRowCtr {
        numRows := outRowsAvail - outRowCtr;
      }
      ConvertRows(out, outRowCtr, numRows);
      ctr := outRowCtr + numRows;
      rowsToGo := rowsToGo - numRows;
      nextRowOut := nextRowOut + numRows;
      if nextRowOut >= p.v {
        GroupEnd(p.v, group);
        group := group + 1;
      }
    }

    // ycc_rgb_convert
    method ConvertRows(out: array2<Sample>, outRowCtr: nat, numRows: nat)
      requires Static() && Filled() && nextRowOut + numRows <= p.v && outRowCtr + numRows <= out.Length0
      requires out.Length1 >= 3 * p.width && out != cbBuf && out != crBuf
      requires p.v * group + nextRowOut + numRows <= p.height
      modifies out
      ensures RowsShown(p, out, outRowCtr, outRowCtr + numRows, p.v * group + nextRowOut)
      ensures forall i, j | 0 <= i < out.Length0 && 0 <= j < out.Length1 && !(outRowCtr <= i < outRowCtr + numRows) ::
          out[i, j] == old(out[i, j])
    {
      HeightCovered(p);
      hide Picture.Byte;
      ghost var shift := outRowCtr - (p.v * group + nextRowOut);
      for n := 0 to numRows
        invariant forall r | outRowCtr <= r < outRowCtr + n :: RowShown(p, out, r, shift)
        invariant forall i, j | 0 <= i < out.Length0 && 0 <= j < out.Length1 && !(outRowCtr <= i < outRowCtr + n) ::
            out[i, j] == old(out[i, j])
      {
        label Before:
        ConvertRow(nextRowOut + n, out, outRowCtr + n);
        assert RowShown(p, out, outRowCtr + n, shift);
        forall r | outRowCtr <= r < outRowCtr + n ensures RowShown(p, out, r, shift) {
          assert old@Before(RowShown(p, out, r, shift));
        }
      }
    }
  }

  lemma GroupInside(p: Picture, group: nat, e: int)
    requires p.Valid() && 0 <= e < p.height
    ensures e == p.v * group ==> group < p.Groups()
    ensures 1 <= p.v <= 2 && p.width >= 1
  {
    if p.v == 1 {
    } else {
      assert p.v == 2;
    }
  }

  lemma GroupOf(p: Picture, group: nat, k: nat)
    requires p.Valid() && k < p.v
    ensures (p.v * group + k) / p.v == group
  {
    if p.v == 1 {
    } else {
      assert p.v == 2;
    }
  }
}
