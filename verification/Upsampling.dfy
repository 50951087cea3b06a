/**
  Upsampling by box filter with colour conversion: the separate path (sep_upsample, the h2v1
  and h2v2 upsamplers of jdsample.c and ycc_rgb_convert of jdcolor.c) and the merged path
  (jdmerge.c), both proved against the picture they are to deliver.
  */
module Upsampling {
  import opened Arithmetic

  type Sample = b: nat | b < 256

  // ---- the picture ----

  // Planes of the main buffer; v is the vertical sampling factor of the luminance (1 or 2).
  // Rows are as many, and as wide, as whole row groups and pairs of pixels need.
  datatype Picture = Picture(width: nat, height: nat, v: nat, y: seq<seq<Sample>>, cb: seq<seq<Sample>>,
                             cr: seq<seq<Sample>>) {
    predicate Valid() {
      && 1 <= v <= 2 && width >= 1 && height >= 1
      && |y| == v * Groups() && |cb| == |cr| == Groups()
      && (forall r | 0 <= r < |y| :: |y[r]| >= 2 * Pairs())
      && (forall r | 0 <= r < |cb| :: |cb[r]| >= Pairs() && |cr[r]| >= Pairs())
    }

    function Groups(): nat
      requires v >= 1
    {
      (height + v - 1) / v
    }

    function Pairs(): nat {
      (width + 1) / 2
    }

    // Chrominance is replicated over two pixels and v rows.
    function Y(r: nat, col: nat): Sample
      requires Valid() && r < |y| && col < width
    {
      y[r][col]
    }

    function Cb(r: nat, col: nat): Sample
      requires Valid() && r < |y| && col < width
    {
      ChromaRow(r);
      cb[r / v][col / 2]
    }

    function Cr(r: nat, col: nat): Sample
      requires Valid() && r < |y| && col < width
    {
      ChromaRow(r);
      cr[r / v][col / 2]
    }

    lemma ChromaRow(r: nat)
      requires Valid() && r < |y|
      ensures r / v < Groups()
    {}

    // Byte i of output row r.
    function Byte(r: nat, i: nat): Sample
      requires Valid() && r < |y| && i < 3 * width
    {
      var col := i / 3;
      if i % 3 == 0 then Red(Y(r, col), Cr(r, col))
      else if i % 3 == 1 then Green(Y(r, col), Cb(r, col), Cr(r, col))
      else Blue(Y(r, col), Cb(r, col))
    }
  }

  // ---- colour conversion ----

  // sample_range_limit, within its table
  function RangeLimit(x: int): Sample
    requires -256 <= x < 640
  {
    if x < 0 then 0 else if x > 255 then 255 else x
  }

  // The conversion tables; the shift by 16 rounds down, also for negative numbers.
  function CrToR(cr: Sample): (r: int)
    ensures -180 <= r <= 180
  {
    (91881 * (cr - 128) + 32768) / 65536
  }

  function CbToB(cb: Sample): (r: int)
    ensures -228 <= r <= 228
  {
    (116130 * (cb - 128) + 32768) / 65536
  }

  function CrToG(cr: Sample): int {
    -46802 * (cr - 128)
  }

  function CbToG(cb: Sample): int {
    -22554 * (cb - 128) + 32768
  }

  function ToG(cb: Sample, cr: Sample): (r: int)
    ensures -140 <= r <= 140
  {
    (CbToG(cb) + CrToG(cr)) / 65536
  }

  function Red(y: Sample, cr: Sample): Sample {
    RangeLimit(y + CrToR(cr))
  }

  function Green(y: Sample, cb: Sample, cr: Sample): Sample {
    RangeLimit(y + ToG(cb, cr))
  }

  function Blue(y: Sample, cb: Sample): Sample {
    RangeLimit(y + CbToB(cb))
  }

  // ---- what a converted pixel is ----

  function Gap(x: int, y: int): nat {
    if x < y then y - x else x - y
  }

  // No sample is nearer to x.
  ghost predicate NearestSample(s: Sample, x: int) {
    forall t: Sample :: Gap(x, s) <= Gap(x, t)
  }

  // The sample nearest to y + n / d, with n / d rounded to an integer up to an error of `slack` / d.
  ghost predicate Converts(s: Sample, y: Sample, n: int, d: nat, slack: nat) {
    exists x: int :: Gap(d * x, n) <= slack && NearestSample(s, y + x)
  }

  // The equations of JFIF: the chrominance part is rounded to the nearest integer, for green up
  // to 0.50109.
  ghost predicate PixelConverted(y: Sample, cb: Sample, cr: Sample, red: Sample, green: Sample, blue: Sample) {
    && Converts(red, y, 1402 * (cr - 128), 1000, 500)
    && Converts(green, y, -34414 * (cb - 128) - 71414 * (cr - 128), 100000, 50109)
    && Converts(blue, y, 1772 * (cb - 128), 1000, 500)
  }

  lemma LimitedConverts(y: Sample, x: int, n: int, d: nat, slack: nat)
    requires -256 <= x <= 384 && Gap(d * x, n) <= slack
    ensures Converts(RangeLimit(y + x), y, n, d, slack)
  {
    assert NearestSample(RangeLimit(y + x), y + x);
  }

  lemma Conversion(y: Sample, cb: Sample, cr: Sample)
    ensures PixelConverted(y, cb, cr, Red(y, cr), Green(y, cb, cr), Blue(y, cb))
  {
    hide CrToR, CbToB, ToG, RangeLimit, Converts, Gap;
    RedConstant(cr);
    GreenConstants(cb, cr);
    BlueConstant(cb);
    LimitedConverts(y, CrToR(cr), 1402 * (cr - 128), 1000, 500);
    LimitedConverts(y, ToG(cb, cr), -34414 * (cb - 128) - 71414 * (cr - 128), 100000, 50109);
    LimitedConverts(y, CbToB(cb), 1772 * (cb - 128), 1000, 500);
  }

  // The fixed-point constants stand for 1.402, 0.34414, 0.71414 and 1.772.
  lemma RedConstant(cr: Sample)
    ensures Gap(1000 * CrToR(cr), 1402 * (cr - 128)) <= 500
  {}

  lemma GreenConstants(cb: Sample, cr: Sample)
    ensures Gap(100000 * ToG(cb, cr), -34414 * (cb - 128) - 71414 * (cr - 128)) <= 50109
  {}

  lemma BlueConstant(cb: Sample)
    ensures Gap(1000 * CbToB(cb), 1772 * (cb - 128)) <= 500
  {}

  // Without colour a pixel is as bright as its luminance.
  lemma GreyStays(y: Sample, red: Sample, green: Sample, blue: Sample)
    requires PixelConverted(y, 128, 128, red, green, blue)
    ensures red == green == blue == y
  {
    NearestToGrey(red, y, 1000, 500);
    NearestToGrey(green, y, 100000, 50109);
    NearestToGrey(blue, y, 1000, 500);
  }

  lemma NearestToGrey(s: Sample, y: Sample, d: nat, slack: nat)
    requires Converts(s, y, 0, d, slack) && slack < d
    ensures s == y
  {
    var x :| Gap(d * x, 0) <= slack && NearestSample(s, y + x);
    ProductAtLeast(d, x);
    assert x == 0;
    assert Gap(y + x, s) <= Gap(y + x, y);
  }

  // build_ycc_rgb_table
  datatype Tables = Tables(crR: seq<int>, cbB: seq<int>, crG: seq<int>, cbG: seq<int>) {
    ghost predicate Built() {
      && |crR| == |cbB| == |crG| == |cbG| == 256
      && forall i: Sample :: crR[i] == CrToR(i) && cbB[i] == CbToB(i) && crG[i] == CrToG(i) && cbG[i] == CbToG(i)
    }
  }

  method BuildYccRgbTable() returns (t: Tables)
    ensures t.Built()
  {
    var crR, cbB, crG, cbG := new int[256], new int[256], new int[256], new int[256];
    var i, x := 0, -128;
    while i <= 255
      invariant 0 <= i <= 256 && x == i - 128
      invariant forall k: Sample | k < i ::
          crR[k] == CrToR(k) && cbB[k] == CbToB(k) && crG[k] == CrToG(k) && cbG[k] == CbToG(k)
    {
      crR[i] := (91881 * x + 32768) / 65536;
      cbB[i] := (116130 * x + 32768) / 65536;
      crG[i] := -46802 * x;
      cbG[i] := -22554 * x + 32768;
      i, x := i + 1, x + 1;
    }
    t := Tables(crR[..], cbB[..], crG[..], cbG[..]);
  }

  // ---- output rows ----

  // The first n pixels of output row r stand in row `row` of a buffer.
  ghost predicate PixelsDone(p: Picture, r: nat, buf: array2<Sample>, row: nat, n: nat)
    requires p.Valid() && r < |p.y| && n <= p.width && row < buf.Length0 && buf.Length1 >= 3 * p.width
    reads buf
  {
    forall i | 0 <= i < 3 * n :: buf[row, i] == p.Byte(r, i)
  }

  lemma PixelBytes(p: Picture, r: nat, col: nat)
    requires p.Valid() && r < |p.y| && col < p.width
    ensures p.Byte(r, 3 * col) == Red(p.Y(r, col), p.Cr(r, col))
    ensures p.Byte(r, 3 * col + 1) == Green(p.Y(r, col), p.Cb(r, col), p.Cr(r, col))
    ensures p.Byte(r, 3 * col + 2) == Blue(p.Y(r, col), p.Cb(r, col))
  {
    assert (3 * col) / 3 == col && (3 * col + 1) / 3 == col && (3 * col + 2) / 3 == col;
  }

  // Write pixel col: the chrominance part has been computed already.
  method EmitPixel(p: Picture, ghost r: nat, buf: array2<Sample>, row: nat, col: nat, y: Sample, cred: int, cgreen: int,
                   cblue: int)
    requires p.Valid() && r < |p.y| && col < p.width && row < buf.Length0 && buf.Length1 >= 3 * p.width
    requires y == p.Y(r, col) && cred == CrToR(p.Cr(r, col)) && cgreen == ToG(p.Cb(r, col), p.Cr(r, col))
        && cblue == CbToB(p.Cb(r, col))
    requires PixelsDone(p, r, buf, row, col)
    modifies buf
    ensures PixelsDone(p, r, buf, row, col + 1)
    ensures forall i, j | 0 <= i < buf.Length0 && 0 <= j < buf.Length1 && i != row :: buf[i, j] == old(buf[i, j])
  {
    hide Picture.Byte, Picture.Y, Picture.Cb, Picture.Cr, CrToR, CbToB, CrToG, CbToG, ToG, RangeLimit;
    PixelBytes(p, r, col);
    buf[row, 3 * col] := RangeLimit(y + cred);
    buf[row, 3 * col + 1] := RangeLimit(y + cgreen);
    buf[row, 3 * col + 2] := RangeLimit(y + cblue);
  }

  // Buffer row `row` holds a whole row of the picture, number row - shift.
  ghost predicate RowShown(p: Picture, buf: array2<Sample>, row: nat, shift: int)
    requires p.Valid() && row < buf.Length0 && buf.Length1 >= 3 * p.width
    reads buf
  {
    0 <= row - shift < p.height && row - shift < |p.y| && PixelsDone(p, row - shift, buf, row, p.width)
  }

  // Rows from .. to - 1 of a buffer hold rows of the picture in order, beginning with row `first`.
  ghost predicate RowsShown(p: Picture, buf: array2<Sample>, from: nat, to: nat, first: int)
    requires p.Valid() && from <= to <= buf.Length0 && buf.Length1 >= 3 * p.width
    reads buf
  {
    var shift := from - first;
    forall r | from <= r < to :: RowShown(p, buf, r, shift)
  }

  lemma HeightCovered(p: Picture)
    requires p.Valid()
    ensures p.height <= |p.y| < p.height + p.v
  {}

  function PictureRow(p: Picture, r: nat): seq<Sample>
    requires p.Valid() && r < |p.y|
  {
    seq(3 * p.width, i requires 0 <= i < 3 * p.width => p.Byte(r, i))
  }

  // Every pixel of a row is converted from its own luminance and the chrominance of its square.
  ghost predicate RowConverted(p: Picture, r: nat, row: seq<Sample>)
    requires p.Valid() && r < |p.y| && r / p.v < |p.cb|
  {
    |row| == 3 * p.width && forall col | 0 <= col < p.width ::
      PixelConverted(p.y[r][col], p.cb[r / p.v][col / 2], p.cr[r / p.v][col / 2], row[3 * col], row[3 * col + 1],
                     row[3 * col + 2])
  }

  lemma ByteConverted(p: Picture, r: nat, col: nat)
    requires p.Valid() && r < |p.y| && col < p.width
    ensures r / p.v < |p.cb| && PixelConverted(p.y[r][col], p.cb[r / p.v][col / 2], p.cr[r / p.v][col / 2],
                                               p.Byte(r, 3 * col), p.Byte(r, 3 * col + 1), p.Byte(r, 3 * col + 2))
  {
    p.ChromaRow(r);
    hide CrToR, CbToB, ToG, RangeLimit, PixelConverted, Picture.Byte;
    PixelBytes(p, r, col);
    Conversion(p.y[r][col], p.cb[r / p.v][col / 2], p.cr[r / p.v][col / 2]);
  }

  lemma PictureConverted(p: Picture, r: nat)
    requires p.Valid() && r < |p.y|
    ensures r / p.v < |p.cb| && RowConverted(p, r, PictureRow(p, r))
  {
    p.ChromaRow(r);
    hide PixelConverted, Picture.Byte;
    var row := PictureRow(p, r);
    forall col | 0 <= col < p.width
      ensures PixelConverted(p.y[r][col], p.cb[r / p.v][col / 2], p.cr[r / p.v][col / 2], row[3 * col],
                             row[3 * col + 1], row[3 * col + 2])
    {
      ByteConverted(p, r, col);
    }
  }

  // The first n rows of the picture.
  function PictureRows(p: Picture, n: nat): seq<seq<Sample>>
    requires p.Valid() && n <= |p.y|
  {
    seq(n, r requires 0 <= r < n => PictureRow(p, r))
  }

  // The client takes a delivered row out of its buffer.
  method TakeRow(p: Picture, out: array2<Sample>, row: nat, ghost r: nat) returns (bytes: seq<Sample>)
    requires p.Valid() && row < out.Length0 && out.Length1 >= 3 * p.width && r < |p.y|
    requires PixelsDone(p, r, out, row, p.width)
    ensures bytes == PictureRow(p, r)
  {
    hide Picture.Byte;
    bytes := [];
    for i := 0 to 3 * p.width
      invariant |bytes| == i && forall k | 0 <= k < i :: bytes[k] == p.Byte(r, k)
    {
      bytes := bytes + [out[row, i]];
    }
  }

  lemma ShownRow(p: Picture, buf: array2<Sample>, from: nat, to: nat, first: nat, row: nat)
    requires p.Valid() && from <= row < to <= buf.Length0 && buf.Length1 >= 3 * p.width
    requires RowsShown(p, buf, from, to, first)
    ensures first + row - from < |p.y| && PixelsDone(p, first + row - from, buf, row, p.width)
  {
    hide PixelsDone;
    assert RowShown(p, buf, row, from - first);
  }

  // All delivered rows.
  method TakeRows(p: Picture, out: array2<Sample>, count: nat, ghost first: nat) returns (rows: seq<seq<Sample>>)
    requires p.Valid() && count <= out.Length0 && out.Length1 >= 3 * p.width && first + count <= |p.y|
    requires RowsShown(p, out, 0, count, first)
    ensures PictureRows(p, first) + rows == PictureRows(p, first + count)
  {
    hide PictureRow, PixelsDone, RowsShown;
    rows := [];
    for r := 0 to count
      invariant |rows| == r && forall k | 0 <= k < r :: rows[k] == PictureRow(p, first + k)
    {
      ShownRow(p, out, 0, count, first, r);
      var row := TakeRow(p, out, r, first + r);
      rows := rows + [row];
    }
  }
}
