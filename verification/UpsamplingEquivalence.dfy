/**
  Merged upsampling is the equivalent of plain box-filter upsampling (jdmaster.c): for any
  sequence of requests of at least one row each, both paths hand out the rows of the same
  picture, in order, each once.
  */
module UpsamplingEquivalence {
  import opened Upsampling
  import opened UpsamplerMerged
  import opened UpsamplerSeparate

  // The client asks for some rows at a time and collects what it gets.
  method RunMerged(p: Picture, requests: seq<nat>) returns (rows: seq<seq<Sample>>)
    requires p.Valid() && forall i | 0 <= i < |requests| :: requests[i] > 0
    ensures |rows| <= p.height && p.height <= |p.y| && rows == PictureRows(p, |rows|)
    ensures |requests| >= p.height ==> |rows| == p.height
  {
    HeightCovered(p);
    hide Picture.Byte, PictureRow, RowsShown, PixelsDone;
    var u := new MergedUpsampler(p);
    rows := [];
    var i := 0;
    while i < |requests| && |rows| < p.height
      invariant 0 <= i <= |requests| && u.Valid() && u.p == p && fresh(u) && fresh(u.spareRow)
      invariant i <= |rows| == u.Delivered() <= p.height && rows == PictureRows(p, |rows|)
    {
      var out := new Sample[requests[i], 3 * p.width];
      var ctr;
      if p.v == 2 {
        ctr := u.Upsample2v(out, 0, requests[i]);
      } else {
        ctr := u.Upsample1v(out, 0);
      }
      var more := TakeRows(p, out, ctr, |rows|);
      RowCount(p, |rows|, ctr, more);
      rows := rows + more;
      i := i + 1;
    }
  }

  method RunSeparate(p: Picture, requests: seq<nat>) returns (rows: seq<seq<Sample>>)
    requires p.Valid() && forall i | 0 <= i < |requests| :: requests[i] > 0
    ensures |rows| <= p.height && p.height <= |p.y| && rows == PictureRows(p, |rows|)
    ensures |requests| >= p.height ==> |rows| == p.height
  {
    HeightCovered(p);
    hide Picture.Byte, PictureRow, RowsShown, PixelsDone;
    var u := new SepUpsampler(p);
    rows := [];
    var i := 0;
    while i < |requests| && |rows| < p.height
      invariant 0 <= i <= |requests| && u.Valid() && u.p == p && fresh(u) && fresh(u.cbBuf) && fresh(u.crBuf)
      invariant i <= |rows| == u.Delivered() <= p.height && rows == PictureRows(p, |rows|)
    {
      var out := new Sample[requests[i], 3 * p.width];
      var ctr := u.Upsample(out, 0, requests[i]);
      var more := TakeRows(p, out, ctr, |rows|);
      RowCount(p, |rows|, ctr, more);
      rows := rows + more;
      i := i + 1;
    }
  }

  lemma RowCount(p: Picture, first: nat, count: nat, more: seq<seq<Sample>>)
    requires p.Valid() && first + count <= |p.y| && PictureRows(p, first) + more == PictureRows(p, first + count)
    ensures |more| == count
  {}

  // The two paths deliver the same picture, and that is the one the conversion equations give.
  method BothPaths(p: Picture, requests1: seq<nat>, requests2: seq<nat>)
    returns (merged: seq<seq<Sample>>, separate: seq<seq<Sample>>)
    requires p.Valid() && |requests1| >= p.height && |requests2| >= p.height
    requires forall i | 0 <= i < |requests1| :: requests1[i] > 0
    requires forall i | 0 <= i < |requests2| :: requests2[i] > 0
    ensures merged == separate && |merged| == p.height
    ensures p.height <= |p.y| && forall r | 0 <= r < p.height ::
              r / p.v < |p.cb| && RowConverted(p, r, merged[r])
  {
    hide PictureRow, RowConverted;
    merged := RunMerged(p, requests1);
    separate := RunSeparate(p, requests2);
    forall r | 0 <= r < p.height ensures r / p.v < |p.cb| && RowConverted(p, r, merged[r]) {
      PictureConverted(p, r);
    }
  }
}
