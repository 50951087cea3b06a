/**
  Merged upsampling and colour conversion (jdmerge.c): the chrominance part of a pixel's
  conversion is computed once for two or four pixels.  With two output rows per row group,
  a row the client has no room for is kept in a spare row.
  */
module UpsamplerMerged {
  import opened Upsampling

  // The chrominance part of the conversion for a pair of pixels.
  method Chroma(p: Picture, t: Tables, group: nat, k: nat) returns (cred: int, cgreen: int, cblue: int)
    requires p.Valid() && t.Built() && group < p.Groups() && k < p.Pairs()
    ensures cred == CrToR(p.cr[group][k]) && cgreen == ToG(p.cb[group][k], p.cr[group][k])
        && cblue == CbToB(p.cb[group][k])
  {
    var cb, cr := p.cb[group][k], p.cr[group][k];
    cred, cgreen, cblue := t.crR[cr], (t.cbG[cb] + t.crG[cr]) / 65536, t.cbB[cb];
  }

  lemma SameChroma(p: Picture, r: nat, group: nat, col: nat)
    requires p.Valid() && group < p.Groups() && r < |p.y| && r / p.v == group && col < p.width
    ensures p.Cb(r, col) == p.cb[group][col / 2] && p.Cr(r, col) == p.cr[group][col / 2] && p.Y(r, col) == p.y[r][col]
  {}

  // Pixels 2 * k and, inside the picture, 2 * k + 1 of one output row.
  method EmitPair(p: Picture, ghost r: nat, buf: array2<Sample>, row: nat, k: nat, yRow: seq<Sample>,
                  cred: int, cgreen: int, cblue: int, n: nat)
    requires p.Valid() && r < |p.y| && yRow == p.y[r] && row < buf.Length0 && buf.Length1 >= 3 * p.width
    requires 1 <= n <= 2 && 2 * k + n <= p.width && PixelsDone(p, r, buf, row, 2 * k)
    requires var group := r / p.v;
             group < p.Groups() && cred == CrToR(p.cr[group][k]) && cgreen == ToG(p.cb[group][k], p.cr[group][k])
               && cblue == CbToB(p.cb[group][k])
    modifies buf
    ensures PixelsDone(p, r, buf, row, 2 * k + n)
    ensures forall i, j | 0 <= i < buf.Length0 && 0 <= j < buf.Length1 && i != row :: buf[i, j] == old(buf[i, j])
  {
    SameChroma(p, r, r / p.v, 2 * k);
    hide PixelsDone, CrToR, CbToB, ToG, Picture.Y, Picture.Cb, Picture.Cr;
    EmitPixel(p, r, buf, row, 2 * k, yRow[2 * k], cred, cgreen, cblue);
    if n == 2 {
      SameChroma(p, r, r / p.v, 2 * k + 1);
      EmitPixel(p, r, buf, row, 2 * k + 1, yRow[2 * k + 1], cred, cgreen, cblue);
    }
  }

  // h2v1_merged_upsample
  method H2v1Merged(p: Picture, t: Tables, group: nat, buf: array2<Sample>, row: nat)
    requires p.Valid() && p.v == 1 && t.Built() && group < p.Groups() && row < buf.Length0 && buf.Length1 >= 3 * p.width
    modifies buf
    ensures PixelsDone(p, group, buf, row, p.width)
    ensures forall i, j | 0 <= i < buf.Length0 && 0 <= j < buf.Length1 && i != row :: buf[i, j] == old(buf[i, j])
  {
    hide Tables.Built, CrToR, CbToB, ToG;
    var k := 0;
    while k < p.width / 2
      invariant k <= p.width / 2 && PixelsDone(p, group, buf, row, 2 * k)
      invariant forall i, j | 0 <= i < buf.Length0 && 0 <= j < buf.Length1 && i != row :: buf[i, j] == old(buf[i, j])
    {
      var cred, cgreen, cblue := Chroma(p, t, group, k);
      EmitPair(p, group, buf, row, k, p.y[group], cred, cgreen, cblue, 2);
      k := k + 1;
    }
    if p.width % 2 == 1 {
      var cred, cgreen, cblue := Chroma(p, t, group, k);
      EmitPair(p, group, buf, row, k, p.y[group], cred, cgreen, cblue, 1);
    }
  }

  // h2v2_merged_upsample: the two output rows may go to different buffers.
  method H2v2Merged(p: Picture, t: Tables, group: nat, b0: array2<Sample>, r0: nat, b1: array2<Sample>, r1: nat)
    requires p.Valid() && p.v == 2 && t.Built() && group < p.Groups()
    requires r0 < b0.Length0 && b0.Length1 >= 3 * p.width && r1 < b1.Length0 && b1.Length1 >= 3 * p.width
    requires b0 != b1 || r0 != r1
    modifies b0, b1
    ensures PixelsDone(p, 2 * group, b0, r0, p.width) && PixelsDone(p, 2 * group + 1, b1, r1, p.width)
    ensures forall i, j | 0 <= i < b0.Length0 && 0 <= j < b0.Length1 && i != r0 && (b0 != b1 || i != r1) ::
        b0[i, j] == old(b0[i, j])
  {
    hide Tables.Built, CrToR, CbToB, ToG;
    var k := 0;
    while k < p.width / 2
      invariant k <= p.width / 2 && PixelsDone(p, 2 * group, b0, r0, 2 * k)
          && PixelsDone(p, 2 * group + 1, b1, r1, 2 * k)
      invariant forall i, j | 0 <= i < b0.Length0 && 0 <= j < b0.Length1 && i != r0 && (b0 != b1 || i != r1) ::
          b0[i, j] == old(b0[i, j])
    {
      EmitSquare(p, t, group, b0, r0, b1, r1, k, 2);
      k := k + 1;
    }
    if p.width % 2 == 1 {
      EmitSquare(p, t, group, b0, r0, b1, r1, k, 1);
    }
  }

  method EmitSquare(p: Picture, t: Tables, group: nat, b0: array2<Sample>, r0: nat, b1: array2<Sample>, r1: nat, k: nat,
                    n: nat)
    requires p.Valid() && p.v == 2 && t.Built() && group < p.Groups()
    requires r0 < b0.Length0 && b0.Length1 >= 3 * p.width && r1 < b1.Length0 && b1.Length1 >= 3 * p.width
    requires b0 != b1 || r0 != r1
    requires 1 <= n <= 2 && 2 * k + n <= p.width
    requires PixelsDone(p, 2 * group, b0, r0, 2 * k) && PixelsDone(p, 2 * group + 1, b1, r1, 2 * k)
    modifies b0, b1
    ensures PixelsDone(p, 2 * group, b0, r0, 2 * k + n) && PixelsDone(p, 2 * group + 1, b1, r1, 2 * k + n)
    ensures forall i, j | 0 <= i < b0.Length0 && 0 <= j < b0.Length1 && i != r0 && (b0 != b1 || i != r1) ::
        b0[i, j] == old(b0[i, j])
  {
    hide Tables.Built, CrToR, CbToB, ToG, Picture.Byte;
    var cred, cgreen, cblue := Chroma(p, t, group, k);
    EmitPair(p, 2 * group, b0, r0, k, p.y[2 * group], cred, cgreen, cblue, n);
    EmitPair(p, 2 * group + 1, b1, r1, k, p.y[2 * group + 1], cred, cgreen, cblue, n);
  }

  lemma GroupLeft(p: Picture, group: nat)
    requires p.v == 2 && 2 * group < p.height
    ensures group < p.Groups()
  {}

  class MergedUpsampler {
    const p: Picture
    const t: Tables
    const spareRow: array2<Sample>
    var spareFull: bool
    var rowsToGo: nat
    var group: nat               // in_row_group_ctr, counted from the top of the picture

    // Rows handed to the client.
    function Delivered(): int
      reads this
    {
      if p.v == 1 then group else p.height - rowsToGo
    }

    ghost predicate Static() {
      p.Valid() && t.Built() && spareRow.Length0 == 1 && spareRow.Length1 >= 3 * p.width
    }

    ghost predicate Valid()
      reads this, spareRow
    {
      && Static() && rowsToGo <= p.height && Delivered() <= p.height
      && (spareFull ==> p.v == 2 && group < p.Groups() && PixelsDone(p, 2 * group + 1, spareRow, 0, p.width))
      && Delivered() == p.v * group + if spareFull then 1 else 0
    }

    constructor (p: Picture)
      requires p.Valid()
      ensures Valid() && this.p == p && Delivered() == 0 && fresh(spareRow)
    {
      this.p := p;
      spareRow := new Sample[1, 3 * p.width];
      spareFull, rowsToGo, group := false, p.height, 0;
      var tables := BuildYccRgbTable();
      t := tables;
    }

    // merged_1v_upsample
    method Upsample1v(out: array2<Sample>, outRowCtr: nat) returns (ctr: nat)
      requires Valid() && p.v == 1 && group < p.height && outRowCtr < out.Length0 && out.Length1 >= 3 * p.width
          && out != spareRow
      modifies this`group, out
      ensures Valid() && ctr == outRowCtr + 1 && Delivered() == old(Delivered()) + 1
      ensures RowsShown(p, out, outRowCtr, ctr, old(Delivered()))
      ensures forall i, j | 0 <= i < out.Length0 && 0 <= j < out.Length1 && i != outRowCtr ::
          out[i, j] == old(out[i, j])
    {
      hide PixelsDone;
      H2v1Merged(p, t, group, out, outRowCtr);
      ctr := outRowCtr + 1;
      group := group + 1;
    }

    // A row group at a time: one row into the client's buffer and one beside it or into the spare row.
    method ConvertGroup(out: array2<Sample>, outRowCtr: nat, numRows: nat)
      requires Static() && p.v == 2 && !spareFull && group < p.Groups() && numRows <= 2
      requires outRowCtr < out.Length0 && outRowCtr + numRows <= out.Length0 && out.Length1 >= 3 * p.width
          && out != spareRow
      modifies this`spareFull, out, spareRow
      ensures 2 * group + numRows <= p.height ==> RowsShown(p, out, outRowCtr, outRowCtr + numRows, 2 * group)
      ensures numRows == 2 ==> !spareFull
      ensures numRows < 2 ==> spareFull && PixelsDone(p, 2 * group + 1, spareRow, 0, p.width)
      ensures forall i, j | 0 <= i < out.Length0 && 0 <= j < out.Length1 && i != outRowCtr
          && !(outRowCtr <= i < outRowCtr + numRows) ::
                out[i, j] == old(out[i, j])
    {
      hide PixelsDone;
      if numRows > 1 {
        H2v2Merged(p, t, group, out, outRowCtr, out, outRowCtr + 1);
      } else {
        spareFull := true;
        H2v2Merged(p, t, group, out, outRowCtr, spareRow, 0);
      }
      ghost var shift := outRowCtr - 2 * group;
      assert 2 * group < p.height ==> RowShown(p, out, outRowCtr, shift);
      assert numRows == 2 && 2 * group + 1 < p.height ==> RowShown(p, out, outRowCtr + 1, shift);
    }

    // merged_2v_upsample.  With room for at least one row it delivers the next one or two rows of
    // the picture.  A spare row is returned in any case, without room past the limit.  Without room
    // and spare row a row is lost: the one put into the spare row, to be delivered next, is not the
    // next one of the picture.
    method Upsample2v(out: array2<Sample>, outRowCtr: nat, outRowsAvail: nat) returns (ctr: nat)
      requires Valid() && p.v == 2 && rowsToGo > 0 && outRowCtr <= outRowsAvail <= out.Length0
          && outRowCtr < out.Length0
      requires out.Length1 >= 3 * p.width && out != spareRow
      modifies this`spareFull, this`rowsToGo, this`group, out, spareRow
      ensures Valid() <==> outRowCtr < outRowsAvail || old(spareFull)
      ensures Valid() ==> outRowCtr < ctr <= out.Length0 && Delivered() == old(Delivered()) + ctr - outRowCtr
      ensures Valid() ==> RowsShown(p, out, outRowCtr, ctr, old(Delivered()))
      ensures outRowCtr < outRowsAvail ==> ctr <= outRowsAvail
      ensures old(spareFull) ==> ctr == outRowCtr + 1
      ensures !Valid() ==>
                ctr == outRowCtr && spareFull && Delivered() == old(Delivered())
                && group < p.Groups() && PixelsDone(p, Delivered() + 1, spareRow, 0, p.width)
      ensures forall i, j | 0 <= i < out.Length0 && 0 <= j < out.Length1 && i != outRowCtr && !(outRowCtr <= i < ctr) ::
                out[i, j] == old(out[i, j])
    {
      hide PixelsDone, Tables.Built, RowsShown, Picture.Groups, Picture.Valid;
      var numRows: nat;
      if spareFull {
        numRows := 1;
        ReturnSpare(out, outRowCtr);
      } else {
        numRows := 2;
        if numRows > rowsToGo {
          numRows := rowsToGo;
        }
        if numRows > outRowsAvail - outRowCtr {
          numRows := outRowsAvail - outRowCtr;
        }
        GroupLeft(p, group);
        ConvertGroup(out, outRowCtr, numRows);
      }
      ctr := outRowCtr + numRows;
      rowsToGo := rowsToGo - numRows;
      if !spareFull {
        group := group + 1;
      }
    }

    // The row saved from a previous cycle.
    method ReturnSpare(out: array2<Sample>, outRowCtr: nat)
      requires Valid() && p.v == 2 && spareFull && rowsToGo > 0 && outRowCtr < out.Length0 && out.Length1 >= 3 * p.width
          && out != spareRow
      modifies this`spareFull, out
      ensures !spareFull && RowsShown(p, out, outRowCtr, outRowCtr + 1, Delivered())
      ensures forall i, j | 0 <= i < out.Length0 && 0 <= j < out.Length1 && i != outRowCtr ::
          out[i, j] == old(out[i, j])
    {
      hide PixelsDone;
      CopyRow(spareRow, out, outRowCtr, 2 * group + 1);
      spareFull := false;
      assert RowShown(p, out, outRowCtr, outRowCtr - Delivered());
    }

    // jcopy_sample_rows for one row
    method CopyRow(from: array2<Sample>, to: array2<Sample>, row: nat, ghost r: nat)
      requires p.Valid() && from != to && from.Length0 >= 1 && from.Length1 >= 3 * p.width
      requires row < to.Length0 && to.Length1 >= 3 * p.width && r < |p.y| && PixelsDone(p, r, from, 0, p.width)
      modifies to
      ensures PixelsDone(p, r, to, row, p.width)
      ensures forall i, j | 0 <= i < to.Length0 && 0 <= j < to.Length1 && i != row :: to[i, j] == old(to[i, j])
    {
      hide Picture.Byte;
      for j := 0 to 3 * p.width
        invariant forall k | 0 <= k < j :: to[row, k] == p.Byte(r, k)
        invariant forall i, k | 0 <= i < to.Length0 && 0 <= k < to.Length1 && i != row :: to[i, k] == old(to[i, k])
      {
        to[row, j] := from[0, j];
      }
    }
  }
}
