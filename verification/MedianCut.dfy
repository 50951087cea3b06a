/**
  Colormap selection of the two-pass colour quantizer (jquant2.c): the histogram's
  colour space is cut into boxes by Heckbert's median cut, and every box is represented
  by the mean of its pixels.

  A box is an entry of an array of structures and is split and shrunk in place.  The main
  result is that the boxes always partition the occupied cells into disjoint,
  shrink-wrapped, non-empty parts.
  */
module MedianCut {
  import opened ColorSpace

  datatype Box = Box(c0min: int, c0max: int, c1min: int, c1max: int, c2min: int, c2max: int,
                     volume: int, colorcount: int)
  {
    predicate WellFormed() {
      && 0 <= c0min <= c0max < HIST_C0_ELEMS
      && 0 <= c1min <= c1max < HIST_C1_ELEMS
      && 0 <= c2min <= c2max < HIST_C2_ELEMS
    }

    predicate Has(c0: int, c1: int, c2: int) {
      c0min <= c0 <= c0max && c1min <= c1 <= c1max && c2min <= c2 <= c2max
    }

    predicate SingleCell() {
      c0min == c0max && c1min == c1max && c2min == c2max
    }

    predicate Within(outer: Box) {
      && outer.c0min <= c0min && c0max <= outer.c0max
      && outer.c1min <= c1min && c1max <= outer.c1max
      && outer.c2min <= c2min && c2max <= outer.c2max
    }

    function Lo(axis: int): int { if axis == 0 then c0min else if axis == 1 then c1min else c2min }
    function Hi(axis: int): int { if axis == 0 then c0max else if axis == 1 then c1max else c2max }

    function WithLo(axis: int, v: int): Box {
      if axis == 0 then this.(c0min := v) else if axis == 1 then this.(c1min := v) else this.(c2min := v)
    }

    function WithHi(axis: int, v: int): Box {
      if axis == 0 then this.(c0max := v) else if axis == 1 then this.(c1max := v) else this.(c2max := v)
    }

    // Squared scaled diagonal, in sample units.
    function Norm(): int {
      var d0, d1, d2 := (c0max - c0min) * 8 * C0_SCALE, (c1max - c1min) * 4 * C1_SCALE, (c2max - c2min) * 8 * C2_SCALE;
      d0 * d0 + d1 * d1 + d2 * d2
    }
  }

  // The volume measure is the squared distance of opposite corners' centres.
  lemma NormIsDiagonal(b: Box, corner: Color)
    requires corner.c0 == Centre0(b.c0min) && corner.c1 == Centre1(b.c1min) && corner.c2 == Centre2(b.c2min)
    ensures b.Norm() == Dist(corner, Centre0(b.c0max), Centre1(b.c1max), Centre2(b.c2max))
  {}

  type Cell = (int, int, int)

  predicate Occupied(h: array3<int>, c0: int, c1: int, c2: int)
    requires HistShape(h)
    reads h
  {
    CellExists(c0, c1, c2) && h[c0, c1, c2] != 0
  }

  // The occupied cells of the whole histogram.
  ghost function OccupiedCells(h: array3<int>): (s: set<Cell>)
    requires HistShape(h)
    reads h
    ensures forall c: Cell :: c in s <==> Occupied(h, c.0, c.1, c.2)
  {
    var s := set c0, c1, c2 | 0 <= c0 < 32 && 0 <= c1 < 64 && 0 <= c2 < 32 && Occupied(h, c0, c1, c2) :: (c0, c1, c2);
    assert forall c: Cell :: c == (c.0, c.1, c.2);
    s
  }

  // The occupied cells inside a box.
  ghost function Cells(occ: set<Cell>, b: Box): set<Cell> {
    set c | c in occ && b.Has(c.0, c.1, c.2)
  }

  function Axis(c: Cell, axis: int): int {
    if axis == 0 then c.0 else if axis == 1 then c.1 else c.2
  }

  // Some occupied cell of the box lies on its lower (upper) face.
  ghost predicate LowFace(occ: set<Cell>, b: Box, axis: int)
  {
    exists c :: c in Cells(occ, b) && Axis(c, axis) == b.Lo(axis)
  }

  ghost predicate HighFace(occ: set<Cell>, b: Box, axis: int)
  {
    exists c :: c in Cells(occ, b) && Axis(c, axis) == b.Hi(axis)
  }

  // Every face of the box touches an occupied cell.
  ghost predicate Shrunk(occ: set<Cell>, b: Box)
  {
    && b.WellFormed()
    && LowFace(occ, b, 0) && HighFace(occ, b, 0)
    && LowFace(occ, b, 1) && HighFace(occ, b, 1)
    && LowFace(occ, b, 2) && HighFace(occ, b, 2)
  }

  // Shrink-wrapped and with true statistics.
  ghost predicate Tight(occ: set<Cell>, b: Box)
  {
    Shrunk(occ, b) && b.volume == b.Norm() && b.colorcount == |Cells(occ, b)|
  }

  // ---- update_box ----

  // Scan one plane of the box, perpendicular to the given axis, for an occupied cell.
  method PlaneOccupied(h: array3<int>, ghost occ: set<Cell>, b: Box, axis: int, c: int)
    returns (found: bool, ghost w: Cell)
    requires HistShape(h) && occ == OccupiedCells(h) && b.WellFormed() && 0 <= axis < 3
    requires b.c0min <= c <= b.c0max || axis != 0
    requires b.c1min <= c <= b.c1max || axis != 1
    requires b.c2min <= c <= b.c2max || axis != 2
    ensures found ==> w in Cells(occ, b) && Axis(w, axis) == c
    ensures !found ==> forall x | x in Cells(occ, b) :: Axis(x, axis) != c
  {
    var lo0, hi0 := if axis == 0 then c else b.c0min, if axis == 0 then c else b.c0max;
    var lo1, hi1 := if axis == 1 then c else b.c1min, if axis == 1 then c else b.c1max;
    var lo2, hi2 := if axis == 2 then c else b.c2min, if axis == 2 then c else b.c2max;
    found, w := false, (0, 0, 0);
    for c0 := lo0 to hi0 + 1
      invariant forall x: Cell | x in Cells(occ, b) && Axis(x, axis) == c :: x.0 >= c0
    {
      for c1 := lo1 to hi1 + 1
        invariant forall x: Cell | x in Cells(occ, b) && Axis(x, axis) == c && x.0 == c0 :: x.1 >= c1
      {
        for c2 := lo2 to hi2 + 1
          invariant forall x: Cell | x in Cells(occ, b) && Axis(x, axis) == c && x.0 == c0 && x.1 == c1 :: x.2 >= c2
        {
          if h[c0, c1, c2] != 0 {
            w := (c0, c1, c2);
            assert Occupied(h, c0, c1, c2);
            assert w in Cells(occ, b);
            return true, w;
          }
        }
      }
    }
  }

  // Raise the lower bound of one axis to the first occupied plane.
  method ShrinkLow(h: array3<int>, ghost occ: set<Cell>, b: Box, axis: int) returns (r: Box)
    requires HistShape(h) && occ == OccupiedCells(h) && b.WellFormed() && 0 <= axis < 3
    ensures r.WellFormed() && r == b.WithLo(axis, r.Lo(axis)) && b.Lo(axis) <= r.Lo(axis)
    ensures Cells(occ, r) == Cells(occ, b)
    ensures Cells(occ, b) == {} ==> r == b
    ensures Cells(occ, b) != {} ==> LowFace(occ, r, axis)
  {
    r := b;
    if b.Hi(axis) > b.Lo(axis) {
      for c := b.Lo(axis) to b.Hi(axis) + 1
        invariant forall x: Cell | x in Cells(occ, b) :: Axis(x, axis) >= c
      {
        var found, w := PlaneOccupied(h, occ, b, axis, c);
        if found {
          r := b.WithLo(axis, c);
          assert Cells(occ, r) == Cells(occ, b);
          return;
        }
      }
      assert forall x: Cell :: x !in Cells(occ, b);
    } else {
      assert forall x: Cell | x in Cells(occ, b) :: Axis(x, axis) == b.Lo(axis);
    }
  }

  // Lower the upper bound of one axis to the last occupied plane.
  method ShrinkHigh(h: array3<int>, ghost occ: set<Cell>, b: Box, axis: int) returns (r: Box)
    requires HistShape(h) && occ == OccupiedCells(h) && b.WellFormed() && 0 <= axis < 3
    ensures r.WellFormed() && r == b.WithHi(axis, r.Hi(axis)) && r.Hi(axis) <= b.Hi(axis)
    ensures Cells(occ, r) == Cells(occ, b)
    ensures Cells(occ, b) == {} ==> r == b
    ensures Cells(occ, b) != {} ==> HighFace(occ, r, axis)
  {
    r := b;
    if b.Hi(axis) > b.Lo(axis) {
      var c := b.Hi(axis);
      while c >= b.Lo(axis)
        invariant b.Lo(axis) - 1 <= c <= b.Hi(axis)
        invariant forall x: Cell | x in Cells(occ, b) :: Axis(x, axis) <= c
      {
        var found, w := PlaneOccupied(h, occ, b, axis, c);
        if found {
          r := b.WithHi(axis, c);
          assert Cells(occ, r) == Cells(occ, b);
          return;
        }
        c := c - 1;
      }
      assert forall x: Cell :: x !in Cells(occ, b);
    } else {
      assert forall x: Cell | x in Cells(occ, b) :: Axis(x, axis) == b.Hi(axis);
    }
  }

  // The occupied cells that a row-major scan has passed before reaching (p0, p1, p2).
  ghost function Scanned(occ: set<Cell>, b: Box, p0: int, p1: int, p2: int): set<Cell>
  {
    set c: Cell | c in Cells(occ, b)
      && (c.0 < p0 || (c.0 == p0 && (c.1 < p1 || (c.1 == p1 && c.2 < p2))))
  }

  lemma ScanCell(h: array3<int>, occ: set<Cell>, b: Box, c0: int, c1: int, c2: int)
    requires HistShape(h) && occ == OccupiedCells(h) && b.WellFormed() && b.Has(c0, c1, c2)
    ensures |Scanned(occ, b, c0, c1, c2 + 1)| == |Scanned(occ, b, c0, c1, c2)| + (if h[c0, c1, c2] != 0 then 1 else 0)
  {
    var before, after, c := Scanned(occ, b, c0, c1, c2), Scanned(occ, b, c0, c1, c2 + 1), (c0, c1, c2);
    assert c !in before;
    assert c in Cells(occ, b) <==> h[c0, c1, c2] != 0 by { assert h[c0, c1, c2] != 0 ==> Occupied(h, c0, c1, c2); }
    hide Cells;
    assert after == if c in Cells(occ, b) then before + {c} else before;
  }

  lemma ScanWraps(occ: set<Cell>, b: Box, c0: int, c1: int)
    requires b.WellFormed()
    ensures Scanned(occ, b, c0, c1, b.c2max + 1) == Scanned(occ, b, c0, c1 + 1, b.c2min)
    ensures Scanned(occ, b, c0, b.c1max + 1, b.c2min) == Scanned(occ, b, c0 + 1, b.c1min, b.c2min)
    ensures Scanned(occ, b, b.c0min, b.c1min, b.c2min) == {}
    ensures Scanned(occ, b, b.c0max + 1, b.c1min, b.c2min) == Cells(occ, b)
  {}

  // The final scan of update_box: the number of occupied cells left in the box.
  method CountCells(h: array3<int>, ghost occ: set<Cell>, b: Box) returns (n: nat)
    requires HistShape(h) && occ == OccupiedCells(h) && b.WellFormed()
    ensures n == |Cells(occ, b)|
  {
    hide Cells, Scanned;
    n := 0;
    ScanWraps(occ, b, 0, 0);
    for c0 := b.c0min to b.c0max + 1
      invariant n == |Scanned(occ, b, c0, b.c1min, b.c2min)|
    {
      for c1 := b.c1min to b.c1max + 1
        invariant n == |Scanned(occ, b, c0, c1, b.c2min)|
      {
        for c2 := b.c2min to b.c2max + 1
          invariant n == |Scanned(occ, b, c0, c1, c2)|
        {
          ScanCell(h, occ, b, c0, c1, c2);
          if h[c0, c1, c2] != 0 {
            n := n + 1;
          }
        }
        ScanWraps(occ, b, c0, c1);
      }
      ScanWraps(occ, b, c0, 0);
    }
  }

  lemma FacesKept(occ: set<Cell>, b: Box, r: Box, axis: int)
    requires Cells(occ, r) == Cells(occ, b)
    ensures r.Lo(axis) == b.Lo(axis) && LowFace(occ, b, axis) ==> LowFace(occ, r, axis)
    ensures r.Hi(axis) == b.Hi(axis) && HighFace(occ, b, axis) ==> HighFace(occ, r, axis)
  {}

  // Both bounds of one axis.
  method ShrinkAxis(h: array3<int>, ghost occ: set<Cell>, b: Box, axis: int) returns (r: Box)
    requires HistShape(h) && occ == OccupiedCells(h) && b.WellFormed() && 0 <= axis < 3
    ensures r.WellFormed() && r.Within(b) && r == b.WithLo(axis, r.Lo(axis)).WithHi(axis, r.Hi(axis))
    ensures Cells(occ, r) == Cells(occ, b)
    ensures Cells(occ, b) == {} ==> r == b
    ensures Cells(occ, b) != {} ==> LowFace(occ, r, axis) && HighFace(occ, r, axis)
  {
    hide Cells, LowFace, HighFace;
    var low := ShrinkLow(h, occ, b, axis);
    r := ShrinkHigh(h, occ, low, axis);
    FacesKept(occ, low, r, axis);
  }

  // Shrink a box to its occupied part and recompute its statistics.
  method UpdateBox(h: array3<int>, ghost occ: set<Cell>, b: Box) returns (r: Box)
    requires HistShape(h) && occ == OccupiedCells(h) && b.WellFormed()
    ensures r.WellFormed() && r.Within(b) && Cells(occ, r) == Cells(occ, b)
    ensures r.volume == r.Norm() && r.colorcount == |Cells(occ, r)|
    ensures Cells(occ, b) != {} ==> Tight(occ, r)
  {
    hide Cells, LowFace, HighFace;
    var b0 := ShrinkAxis(h, occ, b, 0);
    var b1 := ShrinkAxis(h, occ, b0, 1);
    r := ShrinkAxis(h, occ, b1, 2);
    FacesKept(occ, b0, r, 0);
    FacesKept(occ, b1, r, 1);
    var d0, d1, d2 := (r.c0max - r.c0min) * 8 * C0_SCALE, (r.c1max - r.c1min) * 4 * C1_SCALE,
        (r.c2max - r.c2min) * 8 * C2_SCALE;
    var count := CountCells(h, occ, r);
    r := SetStatistics(occ, r, d0 * d0 + d1 * d1 + d2 * d2, count);
  }

  // Storing the statistics changes neither the cells nor the faces.
  method SetStatistics(ghost occ: set<Cell>, b: Box, volume: int, count: int) returns (r: Box)
    ensures r == b.(volume := volume, colorcount := count)
    ensures Cells(occ, r) == Cells(occ, b)
    ensures b.WellFormed() ==> r.WellFormed() && r.Norm() == b.Norm()
    ensures forall axis | axis in {0, 1, 2} ::
              (LowFace(occ, b, axis) ==> LowFace(occ, r, axis)) && (HighFace(occ, b, axis) ==> HighFace(occ, r, axis))
  {
    r := b.(volume := volume, colorcount := count);
    assert Cells(occ, r) == Cells(occ, b);
    FacesKept(occ, b, r, 0);
    FacesKept(occ, b, r, 1);
    FacesKept(occ, b, r, 2);
  }

  // ---- median_cut ----

  // The splittable box with the most occupied cells, or -1.
  method FindBiggestColorPop(boxlist: array<Box>, numboxes: nat) returns (which: int)
    requires numboxes <= boxlist.Length
    ensures -1 <= which < numboxes
    ensures which == -1 ==> forall i | 0 <= i < numboxes :: boxlist[i].colorcount <= 0 || boxlist[i].volume <= 0
    ensures which >= 0 ==> boxlist[which].colorcount > 0 && boxlist[which].volume > 0
    ensures which >= 0 ==> forall i | 0 <= i < numboxes && boxlist[i].volume > 0 ::
                             boxlist[i].colorcount < boxlist[which].colorcount
                               || (boxlist[i].colorcount == boxlist[which].colorcount && which <= i)
  {
    which := -1;
    var maxc := 0;
    for i := 0 to numboxes
      invariant -1 <= which < i
      invariant if which == -1 then maxc == 0 else maxc == boxlist[which].colorcount > 0 && boxlist[which].volume > 0
      invariant forall j | 0 <= j < i && boxlist[j].volume > 0 ::
          boxlist[j].colorcount < maxc || (boxlist[j].colorcount == maxc && which <= j)
    {
      if boxlist[i].colorcount > maxc && boxlist[i].volume > 0 {
        which := i;
        maxc := boxlist[i].colorcount;
      }
    }
  }

  // The splittable box with the largest norm, or -1.
  method FindBiggestVolume(boxlist: array<Box>, numboxes: nat) returns (which: int)
    requires numboxes <= boxlist.Length
    ensures -1 <= which < numboxes
    ensures which == -1 ==> forall i | 0 <= i < numboxes :: boxlist[i].volume <= 0
    ensures which >= 0 ==> boxlist[which].volume > 0
    ensures which >= 0 ==> forall i | 0 <= i < numboxes ::
                             boxlist[i].volume < boxlist[which].volume
                               || (boxlist[i].volume == boxlist[which].volume && which <= i)
  {
    which := -1;
    var maxv := 0;
    for i := 0 to numboxes
      invariant -1 <= which < i
      invariant if which == -1 then maxv == 0 else maxv == boxlist[which].volume > 0
      invariant forall j | 0 <= j < i ::
          boxlist[j].volume < maxv || (boxlist[j].volume == maxv && which <= j)
    {
      if boxlist[i].volume > maxv {
        which := i;
        maxv := boxlist[i].volume;
      }
    }
  }

  // Two boxes that share no cell, occupied or not: some axis separates them.
  predicate Apart(a: Box, b: Box) {
    || a.c0max < b.c0min || b.c0max < a.c0min
    || a.c1max < b.c1min || b.c1max < a.c1min
    || a.c2max < b.c2min || b.c2max < a.c2min
  }

  // The boxes are tight, share no cell, and together hold every occupied cell of the box whole.
  ghost predicate Partition(occ: set<Cell>, boxes: seq<Box>, whole: Box)
  {
    && (forall i | 0 <= i < |boxes| :: Tight(occ, boxes[i]) && boxes[i].Within(whole))
    && (forall i, j | 0 <= i < j < |boxes| :: Apart(boxes[i], boxes[j]))
    && (forall c | c in Cells(occ, whole) :: exists i :: 0 <= i < |boxes| && c in Cells(occ, boxes[i]))
  }

  lemma SplittableIffExtended(b: Box)
    requires b.WellFormed()
    ensures b.Norm() >= 0
    ensures b.Norm() == 0 <==> b.SingleCell()
  {
    var d0, d1, d2 := (b.c0max - b.c0min) * 8 * C0_SCALE, (b.c1max - b.c1min) * 4 * C1_SCALE,
        (b.c2max - b.c2min) * 8 * C2_SCALE;
    SquareSign(d0);
    SquareSign(d1);
    SquareSign(d2);
  }

  lemma SquareSign(d: int)
    ensures d * d >= 0 && (d * d == 0 <==> d == 0)
  {
    if d > 0 {
      assert d * d >= d;
    } else if d < 0 {
      assert (-d) * (-d) >= -d;
    }
  }

  // Scaled length of an axis, in sample units.
  function Extent(b: Box, axis: int): int {
    if axis == 0 then (b.c0max - b.c0min) * 8 * C0_SCALE
    else if axis == 1 then (b.c1max - b.c1min) * 4 * C1_SCALE
    else (b.c2max - b.c2min) * 8 * C2_SCALE
  }

  // The longest scaled axis, ties in favour of axis 1, then 0, then 2.
  predicate IsLongest(b: Box, n: int) {
    && 0 <= n < 3
    && (forall axis | 0 <= axis < 3 :: Extent(b, axis) <= Extent(b, n))
    && (n != 1 ==> Extent(b, 1) < Extent(b, n))
    && (n == 2 ==> Extent(b, 0) < Extent(b, n))
  }

  // Box r is what is left of box b when it is shrunk to its occupied part.
  ghost predicate Trimmed(occ: set<Cell>, b: Box, r: Box) {
    r.Within(b) && Cells(occ, r) == Cells(occ, b) && Tight(occ, r)
  }

  // The halves of box b, cut in the middle of its longest axis and shrunk.
  ghost predicate Halved(occ: set<Cell>, b: Box, b1: Box, b2: Box) {
    exists n :: IsLongest(b, n) && HalvedAlong(occ, b, n, b1, b2)
  }

  ghost predicate HalvedAlong(occ: set<Cell>, b: Box, n: int, b1: Box, b2: Box) {
    var lb := (b.Hi(n) + b.Lo(n)) / 2;
    Trimmed(occ, b.WithHi(n, lb), b1) && Trimmed(occ, b.WithLo(n, lb + 1), b2)
  }

  method LongestAxis(b: Box) returns (n: int)
    requires b.WellFormed() && !b.SingleCell()
    ensures IsLongest(b, n) && b.Lo(n) < b.Hi(n)
  {
    var c0 := (b.c0max - b.c0min) * 8 * C0_SCALE;
    var c1 := (b.c1max - b.c1min) * 4 * C1_SCALE;
    var c2 := (b.c2max - b.c2min) * 8 * C2_SCALE;
    var cmax := c1;
    n := 1;
    if c0 > cmax {
      cmax := c0;
      n := 0;
    }
    if c2 > cmax {
      n := 2;
    }
  }

  // Cut a shrink-wrapped box in the middle of its longest axis: both halves are occupied.
  method SplitBox(ghost occ: set<Cell>, b: Box) returns (lower: Box, upper: Box, n: int)
    requires Shrunk(occ, b) && !b.SingleCell()
    ensures lower.WellFormed() && upper.WellFormed() && lower.Within(b) && upper.Within(b)
    ensures Apart(lower, upper)
    ensures Cells(occ, lower) + Cells(occ, upper) == Cells(occ, b)
    ensures Cells(occ, lower) != {} && Cells(occ, upper) != {}
    ensures IsLongest(b, n)
    ensures var lb := (b.Hi(n) + b.Lo(n)) / 2; lower == b.WithHi(n, lb) && upper == b.WithLo(n, lb + 1)
  {
    n := LongestAxis(b);
    hide IsLongest;
    var lb := (b.Hi(n) + b.Lo(n)) / 2;
    lower, upper := b.WithHi(n, lb), b.WithLo(n, lb + 1);
    assert LowFace(occ, b, n) && HighFace(occ, b, n);
    ghost var p :| p in Cells(occ, b) && Axis(p, n) == b.Lo(n);
    ghost var q :| q in Cells(occ, b) && Axis(q, n) == b.Hi(n);
    hide Cells;
    assert p in Cells(occ, lower) && q in Cells(occ, upper);
    assert Cells(occ, lower) + Cells(occ, upper) == Cells(occ, b);
  }

  lemma PartitionSplits(occ: set<Cell>, boxes: seq<Box>, whole: Box, k: int, lower: Box, upper: Box)
    requires Partition(occ, boxes, whole) && 0 <= k < |boxes|
    requires Tight(occ, lower) && Tight(occ, upper) && lower.Within(boxes[k]) && upper.Within(boxes[k])
    requires Apart(lower, upper) && Cells(occ, lower) + Cells(occ, upper) == Cells(occ, boxes[k])
    ensures Partition(occ, boxes[k := lower] + [upper], whole)
  {
    hide Tight, Cells;
    var after := boxes[k := lower] + [upper];
    assert after[k] == lower && after[|boxes|] == upper;
    assert forall i | 0 <= i < |boxes| && i != k :: after[i] == boxes[i];
    assert forall i | 0 <= i < |after| :: Tight(occ, after[i]) && after[i].Within(whole);
    hide Partition;
    forall c | c in Cells(occ, whole)
      ensures exists i :: 0 <= i < |after| && c in Cells(occ, after[i])
    {
      var i := HolderOf(occ, boxes, whole, c);
      if i != k {
        assert c in Cells(occ, after[i]);
      } else {
        assert c in Cells(occ, after[k]) || c in Cells(occ, after[|boxes|]);
      }
    }
    forall i, j | 0 <= i < j < |after| ensures Apart(after[i], after[j]) {
      if j < |boxes| || i != k {
        PartApart(occ, boxes, whole, i, if j == |boxes| then k else j);
      }
    }
    assert Partition(occ, after, whole) by { PartitionIntro(occ, after, whole); }
  }

  lemma HolderOf(occ: set<Cell>, boxes: seq<Box>, whole: Box, c: Cell) returns (i: int)
    requires Partition(occ, boxes, whole) && c in Cells(occ, whole)
    ensures 0 <= i < |boxes| && c in Cells(occ, boxes[i])
  {
    i :| 0 <= i < |boxes| && c in Cells(occ, boxes[i]);
  }

  lemma PartApart(occ: set<Cell>, boxes: seq<Box>, whole: Box, i: int, j: int)
    requires Partition(occ, boxes, whole) && 0 <= i < |boxes| && 0 <= j < |boxes| && i != j
    ensures Apart(boxes[i], boxes[j])
  {
    assert Apart(boxes[if i < j then i else j], boxes[if i < j then j else i]);
  }

  lemma PartitionIntro(occ: set<Cell>, boxes: seq<Box>, whole: Box)
    requires forall i | 0 <= i < |boxes| :: Tight(occ, boxes[i]) && boxes[i].Within(whole)
    requires forall i, j | 0 <= i < j < |boxes| :: Apart(boxes[i], boxes[j])
    requires forall c | c in Cells(occ, whole) :: exists i :: 0 <= i < |boxes| && c in Cells(occ, boxes[i])
    ensures Partition(occ, boxes, whole)
  {}

  // The box median_cut splits next: the most populous one while at most half of the boxes exist, then
  // the one of largest volume; the first of equals, and only one that can be split.
  predicate Chosen(boxes: seq<Box>, k: int, desired: nat) {
    && 0 <= k < |boxes| && boxes[k].volume > 0
    && forall i | 0 <= i < |boxes| && boxes[i].volume > 0 :: Precedes(boxes, desired, k, i)
  }

  predicate Precedes(boxes: seq<Box>, desired: nat, k: nat, i: nat)
    requires k < |boxes| && i < |boxes|
  {
    var x, y := Size(boxes, desired, k), Size(boxes, desired, i);
    y < x || (y == x && k <= i)
  }

  function Size(boxes: seq<Box>, desired: nat, i: nat): int
    requires i < |boxes|
  {
    if 2 * |boxes| <= desired then boxes[i].colorcount else boxes[i].volume
  }

  // One round: the lower half of the chosen box takes its place, the upper half is added.
  ghost predicate Round(occ: set<Cell>, desired: nat, a: seq<Box>, b: seq<Box>) {
    |b| == |a| + 1 && exists k :: Chosen(a, k, desired) && Halved(occ, a[k], b[k], b[|a|])
                                  && b == a[k := b[k]] + [b[|a|]]
  }

  // Some rounds.
  ghost predicate Reached(occ: set<Cell>, desired: nat, a: seq<Box>, b: seq<Box>)
    decreases |b|
  {
    a == b || exists m :: |m| + 1 == |b| && Reached(occ, desired, a, m) && Round(occ, desired, m, b)
  }

  lemma OneMoreRound(occ: set<Cell>, desired: nat, a: seq<Box>, m: seq<Box>, b: seq<Box>)
    requires Reached(occ, desired, a, m) && Round(occ, desired, m, b)
    ensures Reached(occ, desired, a, b)
  {}

  // Split the largest box until enough boxes exist or none can be split.
  method MedianCut(h: array3<int>, ghost occ: set<Cell>, boxlist: array<Box>, numboxes: nat, desired: nat,
                   ghost whole: Box) returns (n: nat)
    requires HistShape(h) && occ == OccupiedCells(h)
    requires 1 <= numboxes <= desired <= boxlist.Length
    requires Partition(occ, boxlist[..numboxes], whole)
    modifies boxlist
    ensures numboxes <= n <= desired
    ensures Partition(occ, boxlist[..n], whole)
    ensures n == desired || forall i | 0 <= i < n :: boxlist[i].SingleCell()
    ensures Reached(occ, desired, old(boxlist[..numboxes]), boxlist[..n])
  {
    hide Partition, Box.SingleCell, Reached, Round, Chosen;
    n := numboxes;
    ghost var start := boxlist[..n];
    assert Reached(occ, desired, start, start) by { NoRound(occ, desired, start); }
    while n < desired
      invariant numboxes <= n <= desired
      invariant Partition(occ, boxlist[..n], whole)
      invariant Reached(occ, desired, start, boxlist[..n])
    {
      var k;
      if n * 2 <= desired {
        k := FindBiggestColorPop(boxlist, n);
      } else {
        k := FindBiggestVolume(boxlist, n);
      }
      ghost var boxes := boxlist[..n];
      assert forall i | 0 <= i < n :: boxes[i] == boxlist[i];
      if k == -1 {
        AllSingle(occ, boxes, whole);
        return;
      }
      IsChosen(boxes, k, desired);
      SplitEntry(h, occ, boxlist, n, k, desired, whole);
      OneMoreRound(occ, desired, start, boxes, boxlist[..n + 1]);
      n := n + 1;
    }
  }

  lemma NoRound(occ: set<Cell>, desired: nat, a: seq<Box>)
    ensures Reached(occ, desired, a, a)
  {}

  lemma IsChosen(boxes: seq<Box>, k: nat, desired: nat)
    requires k < |boxes| && boxes[k].volume > 0
    requires forall i | 0 <= i < |boxes| && boxes[i].volume > 0 ::
               if |boxes| * 2 <= desired
               then boxes[i].colorcount < boxes[k].colorcount || (boxes[i].colorcount == boxes[k].colorcount && k <= i)
               else boxes[i].volume < boxes[k].volume || (boxes[i].volume == boxes[k].volume && k <= i)
    ensures Chosen(boxes, k, desired)
  {}

  // No box of a partition can be split.
  lemma AllSingle(occ: set<Cell>, boxes: seq<Box>, whole: Box)
    requires Partition(occ, boxes, whole)
    requires forall i | 0 <= i < |boxes| :: boxes[i].colorcount <= 0 || boxes[i].volume <= 0
    ensures forall i | 0 <= i < |boxes| :: boxes[i].SingleCell()
  {
    hide Cells, Shrunk, Tight;
    forall i | 0 <= i < |boxes| ensures boxes[i].SingleCell() {
      assert Tight(occ, boxes[i]);
      TightBox(occ, boxes[i]);
      TightIsOccupied(occ, boxes[i]);
      SplittableIffExtended(boxes[i]);
    }
  }

  // Entry k of the list is split and one entry is added.
  method SplitEntry(h: array3<int>, ghost occ: set<Cell>, boxlist: array<Box>, n: nat, k: nat,
                    ghost desired: nat, ghost whole: Box)
    requires HistShape(h) && occ == OccupiedCells(h) && k < n < boxlist.Length
    requires Partition(occ, boxlist[..n], whole) && boxlist[k].volume > 0 && Chosen(boxlist[..n], k, desired)
    modifies boxlist
    ensures Partition(occ, boxlist[..n + 1], whole)
    ensures Round(occ, desired, old(boxlist[..n]), boxlist[..n + 1])
  {
    hide Cells, Tight, OccupiedCells, Apart, Box.Within, Chosen, Halved;
    ghost var boxes := boxlist[..n];
    assert Tight(occ, boxes[k]);
    var b1, b2 := SplitAndUpdate(h, occ, boxlist[k]);
    PartitionSplits(occ, boxes, whole, k, b1, b2);
    hide Partition;
    StoreHalves(boxlist, n, k, b1, b2);
  }

  lemma TightBox(occ: set<Cell>, b: Box)
    requires Tight(occ, b)
    ensures b.WellFormed() && Shrunk(occ, b) && b.volume == b.Norm()
  {}

  // One round of median_cut: the two updated halves of a splittable box.
  method SplitAndUpdate(h: array3<int>, ghost occ: set<Cell>, b: Box) returns (b1: Box, b2: Box)
    requires HistShape(h) && occ == OccupiedCells(h) && Tight(occ, b) && b.volume > 0
    ensures Tight(occ, b1) && Tight(occ, b2) && b1.Within(b) && b2.Within(b) && Apart(b1, b2)
    ensures Cells(occ, b1) + Cells(occ, b2) == Cells(occ, b)
    ensures Halved(occ, b, b1, b2)
  {
    hide Cells, Shrunk, Tight, IsLongest;
    TightBox(occ, b);
    SplittableIffExtended(b);
    var lower, upper, n := SplitBox(occ, b);
    b1 := UpdateBox(h, occ, lower);
    b2 := UpdateBox(h, occ, upper);
    assert HalvedAlong(occ, b, n, b1, b2);
  }

  // ---- the cut is determined by the cells in use ----

  lemma TrimmedOnce(occ: set<Cell>, b: Box, r: Box, s: Box)
    requires Trimmed(occ, b, r) && Trimmed(occ, b, s)
    ensures r == s
  {
    FacesAgree(occ, r, s, 0);
    FacesAgree(occ, r, s, 1);
    FacesAgree(occ, r, s, 2);
  }

  // Shrunk boxes around the same cells have the same bounds.
  lemma FacesAgree(occ: set<Cell>, r: Box, s: Box, axis: int)
    requires Shrunk(occ, r) && Shrunk(occ, s) && Cells(occ, r) == Cells(occ, s) && axis in {0, 1, 2}
    ensures r.Lo(axis) == s.Lo(axis) && r.Hi(axis) == s.Hi(axis)
  {
    FaceInside(occ, r, s, axis);
    FaceInside(occ, s, r, axis);
  }

  lemma FaceInside(occ: set<Cell>, r: Box, s: Box, axis: int)
    requires Shrunk(occ, r) && Cells(occ, r) == Cells(occ, s) && axis in {0, 1, 2}
    ensures s.Lo(axis) <= r.Lo(axis) && r.Hi(axis) <= s.Hi(axis)
  {
    assert LowFace(occ, r, axis) && HighFace(occ, r, axis);
    var p :| p in Cells(occ, r) && Axis(p, axis) == r.Lo(axis);
    var q :| q in Cells(occ, r) && Axis(q, axis) == r.Hi(axis);
    assert p in Cells(occ, s) && q in Cells(occ, s);
  }

  lemma HalvedOnce(occ: set<Cell>, b: Box, b1: Box, b2: Box, c1: Box, c2: Box)
    requires Halved(occ, b, b1, b2) && Halved(occ, b, c1, c2)
    ensures b1 == c1 && b2 == c2
  {
    hide Trimmed, Extent;
    var n :| IsLongest(b, n) && HalvedAlong(occ, b, n, b1, b2);
    var n' :| IsLongest(b, n') && HalvedAlong(occ, b, n', c1, c2);
    assert n == n';
    var lb := (b.Hi(n) + b.Lo(n)) / 2;
    TrimmedOnce(occ, b.WithHi(n, lb), b1, c1);
    TrimmedOnce(occ, b.WithLo(n, lb + 1), b2, c2);
  }

  lemma RoundOnce(occ: set<Cell>, desired: nat, a: seq<Box>, b: seq<Box>, c: seq<Box>)
    requires Round(occ, desired, a, b) && Round(occ, desired, a, c)
    ensures b == c
  {
    hide Halved;
    var k :| Chosen(a, k, desired) && Halved(occ, a[k], b[k], b[|a|]) && b == a[k := b[k]] + [b[|a|]];
    var j :| Chosen(a, j, desired) && Halved(occ, a[j], c[j], c[|a|]) && c == a[j := c[j]] + [c[|a|]];
    assert Precedes(a, desired, k, j) && Precedes(a, desired, j, k);
    HalvedOnce(occ, a[k], b[k], b[|a|], c[k], c[|a|]);
  }

  lemma {:induction false} ReachedLength(occ: set<Cell>, desired: nat, a: seq<Box>, b: seq<Box>)
    requires Reached(occ, desired, a, b)
    ensures |a| <= |b| && (|a| == |b| ==> a == b)
    decreases |b|
  {
    if a != b {
      var m :| |m| + 1 == |b| && Reached(occ, desired, a, m) && Round(occ, desired, m, b);
      ReachedLength(occ, desired, a, m);
    }
  }

  // Rounds from the same boxes come to the same boxes, or further.
  lemma {:induction false} ReachedOnce(occ: set<Cell>, desired: nat, a: seq<Box>, b: seq<Box>, c: seq<Box>)
    requires Reached(occ, desired, a, b) && Reached(occ, desired, a, c) && |b| <= |c|
    ensures |b| == |c| ==> b == c
    ensures |b| < |c| ==> exists k :: Chosen(b, k, desired)
    decreases |c|
  {
    hide Round, Chosen;
    ReachedLength(occ, desired, a, b);
    ReachedLength(occ, desired, a, c);
    if |a| < |c| {
      var m :| |m| + 1 == |c| && Reached(occ, desired, a, m) && Round(occ, desired, m, c);
      if |b| == |c| {
        var l :| |l| + 1 == |b| && Reached(occ, desired, a, l) && Round(occ, desired, l, b);
        ReachedOnce(occ, desired, a, l, m);
        RoundOnce(occ, desired, l, b, c);
      } else {
        ReachedOnce(occ, desired, a, b, m);
        if |b| == |m| {
          SomeChosen(occ, desired, m, c);
        }
      }
    }
  }

  lemma SomeChosen(occ: set<Cell>, desired: nat, a: seq<Box>, b: seq<Box>)
    requires Round(occ, desired, a, b)
    ensures exists k :: Chosen(a, k, desired)
  {
    hide Chosen;
  }

  // What select_colors makes of the cells in use.
  ghost predicate CutOf(occ: set<Cell>, desired: nat, boxes: seq<Box>) {
    && Partition(occ, boxes, WHOLE) && 1 <= |boxes| <= desired
    && (|boxes| == desired || forall i | 0 <= i < |boxes| :: boxes[i].SingleCell())
    && exists first :: Trimmed(occ, WHOLE, first) && Reached(occ, desired, [first], boxes)
  }

  // There is only one such list of boxes.
  lemma CutOnce(occ: set<Cell>, desired: nat, b: seq<Box>, c: seq<Box>)
    requires CutOf(occ, desired, b) && CutOf(occ, desired, c)
    ensures b == c
  {
    hide Trimmed, Reached, Partition, Chosen, Box.SingleCell;
    var f :| Trimmed(occ, WHOLE, f) && Reached(occ, desired, [f], b);
    var g :| Trimmed(occ, WHOLE, g) && Reached(occ, desired, [g], c);
    TrimmedOnce(occ, WHOLE, f, g);
    if |b| <= |c| {
      CutNoFurther(occ, desired, f, b, c);
    } else {
      CutNoFurther(occ, desired, f, c, b);
    }
  }

  lemma CutNoFurther(occ: set<Cell>, desired: nat, first: Box, b: seq<Box>, c: seq<Box>)
    requires Reached(occ, desired, [first], b) && Reached(occ, desired, [first], c) && |b| <= |c| <= desired
    requires Partition(occ, b, WHOLE) && (|b| == desired || forall i | 0 <= i < |b| :: b[i].SingleCell())
    ensures b == c
  {
    hide Reached, Tight;
    ReachedOnce(occ, desired, [first], b, c);
    if |b| < |c| {
      var k :| Chosen(b, k, desired);
      assert Tight(occ, b[k]) && b[k].SingleCell();
      TightBox(occ, b[k]);
      SplittableIffExtended(b[k]);
      assert false;
    }
  }

  // Box k keeps its lower half in place, entry n receives the upper half.
  method StoreHalves(boxlist: array<Box>, n: nat, k: nat, b1: Box, b2: Box)
    requires k < n < boxlist.Length
    modifies boxlist
    ensures boxlist[..n + 1] == old(boxlist[..n])[k := b1] + [b2]
  {
    boxlist[k] := b1;
    boxlist[n] := b2;
  }

  lemma TightIsOccupied(occ: set<Cell>, b: Box)
    requires Tight(occ, b)
    ensures b.colorcount > 0
  {
    var c :| c in Cells(occ, b) && Axis(c, 0) == b.Lo(0);
    assert {c} <= Cells(occ, b);
  }

  ghost function SumCounts(boxes: seq<Box>): int {
    if boxes == [] then 0 else SumCounts(boxes[..|boxes| - 1]) + boxes[|boxes| - 1].colorcount
  }

  ghost function UnionCells(occ: set<Cell>, boxes: seq<Box>): set<Cell> {
    if boxes == [] then {} else UnionCells(occ, boxes[..|boxes| - 1]) + Cells(occ, boxes[|boxes| - 1])
  }

  lemma {:induction false} InUnion(occ: set<Cell>, boxes: seq<Box>, c: Cell)
    ensures c in UnionCells(occ, boxes) <==> exists i :: 0 <= i < |boxes| && c in Cells(occ, boxes[i])
  {
    if boxes != [] {
      var front := boxes[..|boxes| - 1];
      InUnion(occ, front, c);
      if i :| 0 <= i < |boxes| && c in Cells(occ, boxes[i]) {
        assert i < |front| ==> c in Cells(occ, front[i]);
      }
      if i :| 0 <= i < |front| && c in Cells(occ, front[i]) {
        assert c in Cells(occ, boxes[i]);
      }
    }
  }

  lemma {:induction false} CountsAddUp(occ: set<Cell>, boxes: seq<Box>)
    requires forall i | 0 <= i < |boxes| :: Tight(occ, boxes[i])
    requires forall i, j | 0 <= i < j < |boxes| :: Apart(boxes[i], boxes[j])
    ensures SumCounts(boxes) == |UnionCells(occ, boxes)|
  {
    if boxes != [] {
      var front, last := boxes[..|boxes| - 1], boxes[|boxes| - 1];
      forall i | 0 <= i < |front| ensures Tight(occ, front[i]) && Apart(front[i], last) {
        assert front[i] == boxes[i];
      }
      CountsAddUp(occ, front);
      assert Tight(occ, last);
      forall c | c in UnionCells(occ, front) ensures c !in Cells(occ, last) {
        InUnion(occ, front, c);
      }
    }
  }

  // The populations of a partition add up to the number of occupied cells.
  lemma PartitionPopulation(occ: set<Cell>, boxes: seq<Box>, whole: Box)
    requires Partition(occ, boxes, whole)
    ensures SumCounts(boxes) == |Cells(occ, whole)|
  {
    CountsAddUp(occ, boxes);
    UnionIsWhole(occ, boxes, whole);
  }

  lemma UnionIsWhole(occ: set<Cell>, boxes: seq<Box>, whole: Box)
    requires Partition(occ, boxes, whole)
    ensures UnionCells(occ, boxes) == Cells(occ, whole)
  {
    assert forall i | 0 <= i < |boxes| :: boxes[i].Within(whole);
    hide Partition, Tight, UnionCells;
    forall c: Cell | c in UnionCells(occ, boxes) ensures c in Cells(occ, whole) {
      InUnion(occ, boxes, c);
    }
    forall c: Cell | c in Cells(occ, whole) ensures c in UnionCells(occ, boxes) {
      InUnion(occ, boxes, c);
      var i := HolderOf(occ, boxes, whole, c);
    }
  }

  // ---- compute_color ----

  // What a cell contributes to a running total: its count, or its count times one centre coordinate.
  datatype Weight = Population | Component(axis: int)

  function Term(h: array3<int>, c0: int, c1: int, c2: int, w: Weight): int
    requires HistShape(h) && CellExists(c0, c1, c2)
    reads h
  {
    match w
    case Population => h[c0, c1, c2]
    case Component(a) => (if a == 0 then Centre0(c0) else if a == 1 then Centre1(c1) else Centre2(c2)) * h[c0, c1, c2]
  }

  // Sum over the cells of one line, c2 in lo2..end2-1.
  ghost function LineSum(h: array3<int>, c0: int, c1: int, lo2: int, end2: int, w: Weight): int
    requires HistShape(h) && 0 <= c0 < 32 && 0 <= c1 < 64 && 0 <= lo2 <= end2 <= 32
    reads h
    decreases end2
  {
    if end2 == lo2 then 0 else LineSum(h, c0, c1, lo2, end2 - 1, w) + Term(h, c0, c1, end2 - 1, w)
  }

  ghost function PlaneSum(h: array3<int>, b: Box, c0: int, end1: int, w: Weight): int
    requires HistShape(h) && b.WellFormed() && 0 <= c0 < 32 && b.c1min <= end1 <= b.c1max + 1
    reads h
    decreases end1
  {
    if end1 == b.c1min then 0
    else PlaneSum(h, b, c0, end1 - 1, w) + LineSum(h, c0, end1 - 1, b.c2min, b.c2max + 1, w)
  }

  // Sum over the planes c0min..end0-1 of the box.
  ghost function BoxSum(h: array3<int>, b: Box, end0: int, w: Weight): int
    requires HistShape(h) && b.WellFormed() && b.c0min <= end0 <= b.c0max + 1
    reads h
    decreases end0
  {
    if end0 == b.c0min then 0
    else BoxSum(h, b, end0 - 1, w) + PlaneSum(h, b, end0 - 1, b.c1max + 1, w)
  }

  ghost function Total(h: array3<int>, b: Box, w: Weight): int
    requires HistShape(h) && b.WellFormed()
    reads h
  {
    BoxSum(h, b, b.c0max + 1, w)
  }

  // ---- what the totals are: one contribution for every pixel of the box ----

  // The share of one pixel of a cell.
  function Share(c: Cell, w: Weight): int {
    match w
    case Population => 1
    case Component(a) => if a == 0 then 8 * c.0 + 4 else if a == 1 then 4 * c.1 + 2 else 8 * c.2 + 4
  }

  // g has one pixel more than h, in cell c.
  ghost predicate OneMore(h: array3<int>, g: array3<int>, c: Cell)
    requires HistShape(h) && HistShape(g)
    reads h, g
  {
    && CellExists(c.0, c.1, c.2)
    && forall c0, c1, c2 | CellExists(c0, c1, c2) ::
         g[c0, c1, c2] == h[c0, c1, c2] + if c0 == c.0 && c1 == c.1 && c2 == c.2 then 1 else 0
  }

  lemma TermOfOneMore(h: array3<int>, g: array3<int>, c: Cell, w: Weight, c0: int, c1: int, c2: int)
    requires HistShape(h) && HistShape(g) && OneMore(h, g, c) && CellExists(c0, c1, c2)
    ensures Term(g, c0, c1, c2, w) == Term(h, c0, c1, c2, w) + if c == (c0, c1, c2) then Share(c, w) else 0
  {
    if w.Component? {
      var x := if w.axis == 0 then Centre0(c0) else if w.axis == 1 then Centre1(c1) else Centre2(c2);
      assert x * (h[c0, c1, c2] + 1) == x * h[c0, c1, c2] + x;
    }
  }

  lemma {:induction false} LineOfOneMore(h: array3<int>, g: array3<int>, c: Cell, w: Weight, c0: int, c1: int, lo2: int,
                                         end2: int)
    requires HistShape(h) && HistShape(g) && OneMore(h, g, c) && 0 <= c0 < 32 && 0 <= c1 < 64 && 0 <= lo2 <= end2 <= 32
    ensures LineSum(g, c0, c1, lo2, end2, w) == LineSum(h, c0, c1, lo2, end2, w)
              + if c0 == c.0 && c1 == c.1 && lo2 <= c.2 < end2 then Share(c, w) else 0
    decreases end2
  {
    hide OneMore, Term, Share;
    if end2 > lo2 {
      LineOfOneMore(h, g, c, w, c0, c1, lo2, end2 - 1);
      TermOfOneMore(h, g, c, w, c0, c1, end2 - 1);
    }
  }

  lemma {:induction false} PlaneOfOneMore(h: array3<int>, g: array3<int>, c: Cell, w: Weight, b: Box, c0: int,
                                          end1: int)
    requires HistShape(h) && HistShape(g) && OneMore(h, g, c) && b.WellFormed()
    requires 0 <= c0 < 32 && b.c1min <= end1 <= b.c1max + 1
    ensures PlaneSum(g, b, c0, end1, w) == PlaneSum(h, b, c0, end1, w)
              + if c0 == c.0 && b.c1min <= c.1 < end1 && b.c2min <= c.2 <= b.c2max then Share(c, w) else 0
    decreases end1
  {
    hide OneMore, LineSum, Share;
    if end1 > b.c1min {
      PlaneOfOneMore(h, g, c, w, b, c0, end1 - 1);
      LineOfOneMore(h, g, c, w, c0, end1 - 1, b.c2min, b.c2max + 1);
    }
  }

  lemma {:induction false} BoxOfOneMore(h: array3<int>, g: array3<int>, c: Cell, w: Weight, b: Box, end0: int)
    requires HistShape(h) && HistShape(g) && OneMore(h, g, c) && b.WellFormed() && b.c0min <= end0 <= b.c0max + 1
    ensures BoxSum(g, b, end0, w) == BoxSum(h, b, end0, w)
              + if b.c0min <= c.0 < end0 && b.c1min <= c.1 <= b.c1max && b.c2min <= c.2 <= b.c2max
                then Share(c, w) else 0
    decreases end0
  {
    hide OneMore, PlaneSum, Share;
    if end0 > b.c0min {
      BoxOfOneMore(h, g, c, w, b, end0 - 1);
      PlaneOfOneMore(h, g, c, w, b, end0 - 1, b.c1max + 1);
    }
  }

  // A pixel more in a cell of the box adds one to its population and the coordinates of the cell's
  // centre to the sums of components; elsewhere it adds nothing.
  lemma PixelCounts(h: array3<int>, g: array3<int>, c: Cell, w: Weight, b: Box)
    requires HistShape(h) && HistShape(g) && OneMore(h, g, c) && b.WellFormed()
    ensures Total(g, b, w) == Total(h, b, w) + if b.Has(c.0, c.1, c.2) then Share(c, w) else 0
  {
    hide OneMore, BoxSum, Share;
    BoxOfOneMore(h, g, c, w, b, b.c0max + 1);
  }

  // Without pixels all sums are zero.
  lemma {:induction false} NoLine(h: array3<int>, w: Weight, c0: int, c1: int, lo2: int, end2: int)
    requires HistShape(h) && 0 <= c0 < 32 && 0 <= c1 < 64 && 0 <= lo2 <= end2 <= 32
    requires forall d0, d1, d2 | CellExists(d0, d1, d2) :: h[d0, d1, d2] == 0
    ensures LineSum(h, c0, c1, lo2, end2, w) == 0
    decreases end2
  {
    if end2 > lo2 {
      NoLine(h, w, c0, c1, lo2, end2 - 1);
      assert h[c0, c1, end2 - 1] == 0;
    }
  }

  lemma {:induction false} NoPlane(h: array3<int>, w: Weight, b: Box, c0: int, end1: int)
    requires HistShape(h) && b.WellFormed() && 0 <= c0 < 32 && b.c1min <= end1 <= b.c1max + 1
    requires forall d0, d1, d2 | CellExists(d0, d1, d2) :: h[d0, d1, d2] == 0
    ensures PlaneSum(h, b, c0, end1, w) == 0
    decreases end1
  {
    hide LineSum;
    if end1 > b.c1min {
      NoPlane(h, w, b, c0, end1 - 1);
      NoLine(h, w, c0, end1 - 1, b.c2min, b.c2max + 1);
    }
  }

  lemma {:induction false} NoPixels(h: array3<int>, w: Weight, b: Box, end0: int)
    requires HistShape(h) && b.WellFormed() && b.c0min <= end0 <= b.c0max + 1
    requires forall d0, d1, d2 | CellExists(d0, d1, d2) :: h[d0, d1, d2] == 0
    ensures BoxSum(h, b, end0, w) == 0
    decreases end0
  {
    hide PlaneSum;
    if end0 > b.c0min {
      NoPixels(h, w, b, end0 - 1);
      NoPlane(h, w, b, end0 - 1, b.c1max + 1);
    }
  }

  // Histogram cells are 16-bit unsigned.
  ghost predicate Counts(h: array3<int>)
    requires HistShape(h)
    reads h
  {
    forall c0, c1, c2 | CellExists(c0, c1, c2) :: 0 <= h[c0, c1, c2] <= 65535
  }

  // A running mean: t1/t lies between lo and hi.
  predicate MeanBetween(t: int, t1: int, lo: int, hi: int) {
    lo * t <= t1 <= hi * t
  }

  lemma MeanExtends(t: int, t1: int, lo: int, hi: int, count: int, x: int)
    requires MeanBetween(t, t1, lo, hi) && 0 <= count && lo <= x <= hi
    ensures MeanBetween(t + count, t1 + x * count, lo, hi)
  {
    assert lo * count <= x * count <= hi * count by {
      assert (x - lo) * count >= 0 && (hi - x) * count >= 0;
    }
    assert lo * (t + count) == lo * t + lo * count && hi * (t + count) == hi * t + hi * count;
  }

  lemma ProductSign(x: int, t: int)
    requires t > 0
    ensures x >= 1 ==> x * t >= t
    ensures x <= -1 ==> x * t <= -t
  {
    if x >= 1 {
      assert (x - 1) * t >= 0;
    } else if x <= -1 {
      assert (-1 - x) * t >= 0;
    }
  }

  lemma QuotientBetween(q: int, x: int, t: int, lo: int, hi: int)
    requires t > 0 && q * t <= x < q * t + t
    requires lo * t <= x < hi * t + t
    ensures lo <= q <= hi
  {
    ProductSign(q - hi, t);
    ProductSign(q - lo, t);
    assert (q - hi) * t == q * t - hi * t && (q - lo) * t == q * t - lo * t;
  }

  lemma QuotientDefinition(x: int, t: int)
    requires t > 0
    ensures x / t * t <= x < x / t * t + t
  {
    assert x == x / t * t + x % t;
  }

  lemma RoundedMeanBetween(t: int, t1: int, lo: int, hi: int)
    requires MeanBetween(t, t1, lo, hi) && t > 0
    ensures lo <= (t1 + t / 2) / t <= hi
  {
    QuotientDefinition(t1 + t / 2, t);
    QuotientBetween((t1 + t / 2) / t, t1 + t / 2, t, lo, hi);
  }

  // The running totals of compute_color.
  datatype Totals = Totals(total: int, c0total: int, c1total: int, c2total: int)

  ghost predicate TotalsInRange(b: Box, t: Totals) {
    && t.total >= 0
    && MeanBetween(t.total, t.c0total, Centre0(b.c0min), Centre0(b.c0max))
    && MeanBetween(t.total, t.c1total, Centre1(b.c1min), Centre1(b.c1max))
    && MeanBetween(t.total, t.c2total, Centre2(b.c2min), Centre2(b.c2max))
  }

  // The source keeps the totals in a long.  In 32 bits none of them overflows, nor the sum that is
  // divided, as long as a box holds no more pixels than this.
  const PIXEL_LIMIT := 8438049
  const LONG_LIMIT := 0x8000_0000

  predicate InLong(t: Totals) {
    && 0 <= t.total < LONG_LIMIT
    && 0 <= t.c0total && t.c0total + t.total / 2 < LONG_LIMIT
    && 0 <= t.c1total && t.c1total + t.total / 2 < LONG_LIMIT
    && 0 <= t.c2total && t.c2total + t.total / 2 < LONG_LIMIT
  }

  lemma TotalsFitLong(b: Box, t: Totals)
    requires b.WellFormed() && TotalsInRange(b, t) && t.total <= PIXEL_LIMIT
    ensures InLong(t)
  {
    CentreProduct(Centre0(b.c0min), Centre0(b.c0max), t.total, t.c0total);
    CentreProduct(Centre1(b.c1min), Centre1(b.c1max), t.total, t.c1total);
    CentreProduct(Centre2(b.c2min), Centre2(b.c2max), t.total, t.c2total);
  }

  lemma CentreProduct(lo: int, hi: int, n: int, x: int)
    requires 0 <= lo && hi <= 254 && n >= 0 && MeanBetween(n, x, lo, hi)
    ensures 0 <= x <= 254 * n
  {
    assert lo * n >= 0 && (254 - hi) * n >= 0;
  }

  // Add one cell to the totals.
  method AddCell(h: array3<int>, b: Box, t: Totals, c0: int, c1: int, c2: int) returns (r: Totals)
    requires HistShape(h) && Counts(h) && b.WellFormed() && b.Has(c0, c1, c2) && TotalsInRange(b, t)
    ensures TotalsInRange(b, r) && r.total >= t.total && (h[c0, c1, c2] != 0 ==> r.total > 0)
    ensures r == Totals(t.total + Term(h, c0, c1, c2, Population),
                        t.c0total + Term(h, c0, c1, c2, Component(0)),
                        t.c1total + Term(h, c0, c1, c2, Component(1)),
                        t.c2total + Term(h, c0, c1, c2, Component(2)))
    ensures r.total <= PIXEL_LIMIT ==> InLong(r)
  {
    var count := h[c0, c1, c2];
    r := t;
    if count != 0 {
      r := Totals(t.total + count, t.c0total + (c0 * 8 + 4) * count, t.c1total + (c1 * 4 + 2) * count,
                  t.c2total + (c2 * 8 + 4) * count);
    }
    assert CellExists(c0, c1, c2);
    MeanExtends(t.total, t.c0total, Centre0(b.c0min), Centre0(b.c0max), count, Centre0(c0));
    MeanExtends(t.total, t.c1total, Centre1(b.c1min), Centre1(b.c1max), count, Centre1(c1));
    MeanExtends(t.total, t.c2total, Centre2(b.c2min), Centre2(b.c2max), count, Centre2(c2));
    if r.total <= PIXEL_LIMIT {
      TotalsFitLong(b, r);
    }
  }

  ghost function LineTotals(h: array3<int>, c0: int, c1: int, lo2: int, end2: int): Totals
    requires HistShape(h) && 0 <= c0 < 32 && 0 <= c1 < 64 && 0 <= lo2 <= end2 <= 32
    reads h
  {
    Totals(LineSum(h, c0, c1, lo2, end2, Population), LineSum(h, c0, c1, lo2, end2, Component(0)),
           LineSum(h, c0, c1, lo2, end2, Component(1)), LineSum(h, c0, c1, lo2, end2, Component(2)))
  }

  ghost function Plus(a: Totals, b: Totals): Totals {
    Totals(a.total + b.total, a.c0total + b.c0total, a.c1total + b.c1total, a.c2total + b.c2total)
  }

  method AddLine(h: array3<int>, b: Box, t: Totals, c0: int, c1: int) returns (r: Totals)
    requires HistShape(h) && Counts(h) && b.WellFormed() && TotalsInRange(b, t)
    requires b.c0min <= c0 <= b.c0max && b.c1min <= c1 <= b.c1max
    ensures TotalsInRange(b, r) && r.total >= t.total
    ensures (exists c2 :: b.c2min <= c2 <= b.c2max && h[c0, c1, c2] != 0) ==> r.total > 0
    ensures r == Plus(t, LineTotals(h, c0, c1, b.c2min, b.c2max + 1))
  {
    hide TotalsInRange;
    r := t;
    for c2 := b.c2min to b.c2max + 1
      invariant TotalsInRange(b, r) && r.total >= t.total
      invariant forall d2 | b.c2min <= d2 < c2 && h[c0, c1, d2] != 0 :: r.total > 0
      invariant r == Plus(t, LineTotals(h, c0, c1, b.c2min, c2))
    {
      r := AddCell(h, b, r, c0, c1, c2);
    }
  }

  ghost function PlaneTotals(h: array3<int>, b: Box, c0: int, end1: int): Totals
    requires HistShape(h) && b.WellFormed() && 0 <= c0 < 32 && b.c1min <= end1 <= b.c1max + 1
    reads h
  {
    Totals(PlaneSum(h, b, c0, end1, Population), PlaneSum(h, b, c0, end1, Component(0)),
           PlaneSum(h, b, c0, end1, Component(1)), PlaneSum(h, b, c0, end1, Component(2)))
  }

  ghost function BoxTotals(h: array3<int>, b: Box, end0: int): Totals
    requires HistShape(h) && b.WellFormed() && b.c0min <= end0 <= b.c0max + 1
    reads h
  {
    Totals(BoxSum(h, b, end0, Population), BoxSum(h, b, end0, Component(0)),
           BoxSum(h, b, end0, Component(1)), BoxSum(h, b, end0, Component(2)))
  }

  method AddPlane(h: array3<int>, b: Box, t: Totals, c0: int) returns (r: Totals)
    requires HistShape(h) && Counts(h) && b.WellFormed() && TotalsInRange(b, t)
    requires b.c0min <= c0 <= b.c0max
    ensures TotalsInRange(b, r) && r.total >= t.total
    ensures forall c1, c2 | b.Has(c0, c1, c2) && h[c0, c1, c2] != 0 :: r.total > 0
    ensures r == Plus(t, PlaneTotals(h, b, c0, b.c1max + 1))
  {
    hide TotalsInRange, LineSum, Counts;
    r := t;
    assert TotalsInRange(b, r) && Counts(h);
    for c1 := b.c1min to b.c1max + 1
      invariant TotalsInRange(b, r) && r.total >= t.total
      invariant r == Plus(t, PlaneTotals(h, b, c0, c1))
      invariant forall d1, d2 | b.Has(c0, d1, d2) && d1 < c1 && h[c0, d1, d2] != 0 :: r.total > 0
    {
      r := AddLine(h, b, r, c0, c1);
    }
  }

  // ---- how many pixels a long can take ----

  lemma RangesAdd(b: Box, t: Totals, u: Totals)
    requires TotalsInRange(b, t) && TotalsInRange(b, u)
    ensures TotalsInRange(b, Plus(t, u))
  {
    MeansAdd(t.total, t.c0total, u.total, u.c0total, Centre0(b.c0min), Centre0(b.c0max));
    MeansAdd(t.total, t.c1total, u.total, u.c1total, Centre1(b.c1min), Centre1(b.c1max));
    MeansAdd(t.total, t.c2total, u.total, u.c2total, Centre2(b.c2min), Centre2(b.c2max));
  }

  lemma MeansAdd(t: int, t1: int, u: int, u1: int, lo: int, hi: int)
    requires MeanBetween(t, t1, lo, hi) && MeanBetween(u, u1, lo, hi)
    ensures MeanBetween(t + u, t1 + u1, lo, hi)
  {
    assert lo * (t + u) == lo * t + lo * u && hi * (t + u) == hi * t + hi * u;
  }

  lemma CellInRange(h: array3<int>, b: Box, c0: int, c1: int, c2: int)
    requires HistShape(h) && Counts(h) && b.WellFormed() && b.Has(c0, c1, c2) && CellExists(c0, c1, c2)
    ensures TotalsInRange(b, Totals(Term(h, c0, c1, c2, Population), Term(h, c0, c1, c2, Component(0)),
                                    Term(h, c0, c1, c2, Component(1)), Term(h, c0, c1, c2, Component(2))))
  {
    var count := h[c0, c1, c2];
    MeanExtends(0, 0, Centre0(b.c0min), Centre0(b.c0max), count, Centre0(c0));
    MeanExtends(0, 0, Centre1(b.c1min), Centre1(b.c1max), count, Centre1(c1));
    MeanExtends(0, 0, Centre2(b.c2min), Centre2(b.c2max), count, Centre2(c2));
  }

  lemma {:induction false} LineInRange(h: array3<int>, b: Box, c0: int, c1: int, end2: int)
    requires HistShape(h) && Counts(h) && b.WellFormed() && b.c0min <= c0 <= b.c0max && b.c1min <= c1 <= b.c1max
    requires b.c2min <= end2 <= b.c2max + 1
    ensures TotalsInRange(b, LineTotals(h, c0, c1, b.c2min, end2))
    decreases end2
  {
    hide TotalsInRange, Counts, Term;
    if end2 == b.c2min {
      TotalsStart(b);
    } else {
      var c2 := end2 - 1;
      LineInRange(h, b, c0, c1, c2);
      CellInRange(h, b, c0, c1, c2);
      RangesAdd(b, LineTotals(h, c0, c1, b.c2min, c2),
                Totals(Term(h, c0, c1, c2, Population), Term(h, c0, c1, c2, Component(0)),
                       Term(h, c0, c1, c2, Component(1)), Term(h, c0, c1, c2, Component(2))));
    }
  }

  lemma {:induction false} PlaneInRange(h: array3<int>, b: Box, c0: int, end1: int)
    requires HistShape(h) && Counts(h) && b.WellFormed() && b.c0min <= c0 <= b.c0max && b.c1min <= end1 <= b.c1max + 1
    ensures TotalsInRange(b, PlaneTotals(h, b, c0, end1))
    decreases end1
  {
    hide TotalsInRange, Counts, LineSum;
    if end1 == b.c1min {
      TotalsStart(b);
    } else {
      PlaneInRange(h, b, c0, end1 - 1);
      LineInRange(h, b, c0, end1 - 1, b.c2max + 1);
      RangesAdd(b, PlaneTotals(h, b, c0, end1 - 1), LineTotals(h, c0, end1 - 1, b.c2min, b.c2max + 1));
    }
  }

  lemma {:induction false} BoxInRange(h: array3<int>, b: Box, end0: int)
    requires HistShape(h) && Counts(h) && b.WellFormed() && b.c0min <= end0 <= b.c0max + 1
    ensures TotalsInRange(b, BoxTotals(h, b, end0))
    decreases end0
  {
    hide TotalsInRange, Counts, PlaneSum;
    if end0 == b.c0min {
      TotalsStart(b);
    } else {
      BoxInRange(h, b, end0 - 1);
      PlaneInRange(h, b, end0 - 1, b.c1max + 1);
      RangesAdd(b, BoxTotals(h, b, end0 - 1), PlaneTotals(h, b, end0 - 1, b.c1max + 1));
    }
  }

  // In the plane of the largest centre coordinate the limit is exact.
  lemma PixelLimitIsSharp(h: array3<int>, b: Box)
    requires HistShape(h) && Counts(h) && b.WellFormed() && b.c1min == b.c1max == 63
    ensures InLong(BoxTotals(h, b, b.c0max + 1)) <==> Total(h, b, Population) <= PIXEL_LIMIT
  {
    hide BoxSum, Counts;
    BoxInRange(h, b, b.c0max + 1);
    var t := BoxTotals(h, b, b.c0max + 1);
    if t.total <= PIXEL_LIMIT {
      TotalsFitLong(b, t);
    }
  }

  const BRIGHT := Box(0, 31, 63, 63, 0, 31, 0, 0)

  // A histogram for which the sum overflows: every cell of that plane is full.
  method BrightHistogram() returns (h: array3<int>)
    ensures fresh(h) && HistShape(h) && Counts(h) && !InLong(BoxTotals(h, BRIGHT, BRIGHT.c0max + 1))
  {
    h := new int[32, 64, 32]((c0, c1, c2) => if c1 == 63 then 65535 else 0);
    assert BRIGHT.WellFormed();
    FullPlane(h, 32);
    PixelLimitIsSharp(h, BRIGHT);
  }

  lemma {:induction false} FullPlane(h: array3<int>, end0: int)
    requires HistShape(h) && 0 <= end0 <= 32
    requires forall c0, c2 | 0 <= c0 < 32 && 0 <= c2 < 32 :: h[c0, 63, c2] == 65535
    ensures BRIGHT.WellFormed() && BoxSum(h, BRIGHT, end0, Population) == 32 * 65535 * end0
    decreases end0
  {
    assert BRIGHT.WellFormed();
    if end0 > 0 {
      FullPlane(h, end0 - 1);
      FullLine(h, end0 - 1, 32);
      assert PlaneSum(h, BRIGHT, end0 - 1, 63, Population) == 0;
    }
  }

  lemma {:induction false} FullLine(h: array3<int>, c0: int, end2: int)
    requires HistShape(h) && 0 <= c0 < 32 && 0 <= end2 <= 32
    requires forall c2 | 0 <= c2 < 32 :: h[c0, 63, c2] == 65535
    ensures LineSum(h, c0, 63, 0, end2, Population) == 65535 * end2
    decreases end2
  {
    if end2 > 0 {
      FullLine(h, c0, end2 - 1);
    }
  }

  lemma TotalsStart(b: Box)
    ensures TotalsInRange(b, Totals(0, 0, 0, 0))
  {}

  method SumBox(h: array3<int>, b: Box) returns (t: Totals)
    requires HistShape(h) && Counts(h) && b.WellFormed()
    ensures TotalsInRange(b, t) && t == BoxTotals(h, b, b.c0max + 1)
    ensures t.total <= PIXEL_LIMIT ==> InLong(t)
    ensures forall c0, c1, c2 | b.Has(c0, c1, c2) && h[c0, c1, c2] != 0 :: t.total > 0
  {
    t := Totals(0, 0, 0, 0);
    TotalsStart(b);
    hide TotalsInRange, PlaneSum, Counts;
    for c0 := b.c0min to b.c0max + 1
      invariant TotalsInRange(b, t) && t.total >= 0
      invariant t == BoxTotals(h, b, c0)
      invariant forall d0, d1, d2 | b.Has(d0, d1, d2) && d0 < c0 && h[d0, d1, d2] != 0 :: t.total > 0
    {
      t := AddPlane(h, b, t, c0);
    }
    if t.total <= PIXEL_LIMIT {
      TotalsFitLong(b, t);
    }
  }

  // The rounded mean of the pixels of a box.
  ghost predicate IsMean(h: array3<int>, b: Box, r: Color)
    requires HistShape(h) && b.WellFormed()
    reads h
  {
    var n := Total(h, b, Population);
    && n > 0
    && r.c0 == (Total(h, b, Component(0)) + n / 2) / n
    && r.c1 == (Total(h, b, Component(1)) + n / 2) / n
    && r.c2 == (Total(h, b, Component(2)) + n / 2) / n
  }

  // Mean colour of a box's pixels, rounded: within the box's cell centres.
  method ComputeColor(h: array3<int>, ghost occ: set<Cell>, b: Box) returns (r: Color)
    requires HistShape(h) && Counts(h) && occ == OccupiedCells(h)
    requires b.WellFormed() && Cells(occ, b) != {}
    ensures IsMean(h, b, r) && ColorInBox(r, b)
    ensures Total(h, b, Population) <= PIXEL_LIMIT ==> InLong(BoxTotals(h, b, b.c0max + 1))
  {
    var t := SumBox(h, b);
    ghost var c :| c in Cells(occ, b);
    assert Occupied(h, c.0, c.1, c.2) && b.Has(c.0, c.1, c.2);
    RoundedMeanBetween(t.total, t.c0total, Centre0(b.c0min), Centre0(b.c0max));
    RoundedMeanBetween(t.total, t.c1total, Centre1(b.c1min), Centre1(b.c1max));
    RoundedMeanBetween(t.total, t.c2total, Centre2(b.c2min), Centre2(b.c2max));
    r := Color((t.c0total + t.total / 2) / t.total, (t.c1total + t.total / 2) / t.total,
               (t.c2total + t.total / 2) / t.total);
  }

  // ---- select_colors ----

  const WHOLE := Box(0, 31, 0, 63, 0, 31, 0, 0)

  predicate ColorInBox(c: Color, b: Box) {
    && Centre0(b.c0min) <= c.c0 <= Centre0(b.c0max)
    && Centre1(b.c1min) <= c.c1 <= Centre1(b.c1max)
    && Centre2(b.c2min) <= c.c2 <= Centre2(b.c2max)
  }

  lemma OccupiedExist(h: array3<int>)
    requires HistShape(h)
    ensures forall c: Cell | c in OccupiedCells(h) :: CellExists(c.0, c.1, c.2)
  {}

  // One box for the whole space, shrunk to the part in use.
  method InitialBox(h: array3<int>, ghost occ: set<Cell>, desired: nat) returns (boxlist: array<Box>)
    requires HistShape(h) && occ == OccupiedCells(h) && occ != {} && desired >= 1
    ensures fresh(boxlist) && boxlist.Length == desired
    ensures Partition(occ, boxlist[..1], WHOLE) && Trimmed(occ, WHOLE, boxlist[0])
  {
    hide Cells, Tight, Partition, Shrunk, Occupied;
    OccupiedExist(h);
    assert WHOLE.WellFormed();
    var first := UpdateBox(h, occ, WHOLE);
    WholePartition(occ, first);
    boxlist := new Box[desired](_ => first);
    assert boxlist[..1] == [first];
  }

  // The colormap represents a partition of the occupied cells, one mean colour a part.
  method SelectColors(h: array3<int>, ghost occ: set<Cell>, desired: nat, colormap: array<Color>)
    returns (n: nat, ghost boxes: seq<Box>)
    requires HistShape(h) && Counts(h) && occ == OccupiedCells(h) && occ != {}
    requires 1 <= desired <= colormap.Length
    modifies colormap
    ensures 1 <= n <= desired && |boxes| == n
    ensures CutOf(occ, desired, boxes) && SumCounts(boxes) == |Cells(occ, WHOLE)|
    ensures Represents(h, colormap[..n], boxes)
  {
    hide Partition, Tight, Cells, Counts, Represents, SumCounts, Trimmed, Reached, Box.SingleCell;
    var boxlist := InitialBox(h, occ, desired);
    ghost var first := boxlist[0];
    assert boxlist[..1] == [first];
    n := MedianCut(h, occ, boxlist, 1, desired, WHOLE);
    boxes := boxlist[..n];
    PartitionPopulation(occ, boxes, WHOLE);
    RepresentBoxes(h, occ, boxes, boxlist, n, colormap);
  }

  lemma WholePartition(occ: set<Cell>, first: Box)
    requires occ != {} && forall c: Cell | c in occ :: CellExists(c.0, c.1, c.2)
    requires Cells(occ, first) == Cells(occ, WHOLE) && first.Within(WHOLE)
    requires Cells(occ, WHOLE) != {} ==> Tight(occ, first)
    ensures Partition(occ, [first], WHOLE) && Cells(occ, WHOLE) == occ
  {
    assert Cells(occ, WHOLE) == occ;
    hide Tight;
    forall c | c in Cells(occ, WHOLE)
      ensures exists i :: 0 <= i < 1 && c in Cells(occ, [first][i])
    {
      assert c in Cells(occ, [first][0]);
    }
  }

  // Every colour is the rounded mean of its box, and lies within the centres of its cells.
  ghost predicate Represents(h: array3<int>, colors: seq<Color>, boxes: seq<Box>)
    requires HistShape(h)
    reads h
  {
    |colors| == |boxes| && forall i | 0 <= i < |boxes| :: RepresentsBox(h, colors[i], boxes[i])
  }

  ghost predicate RepresentsBox(h: array3<int>, c: Color, b: Box)
    requires HistShape(h)
    reads h
  {
    b.WellFormed() && IsMean(h, b, c) && ColorInBox(c, b)
  }

  // The closing loop of select_colors.
  method RepresentBoxes(h: array3<int>, ghost occ: set<Cell>, ghost boxes: seq<Box>,
                        boxlist: array<Box>, n: nat, colormap: array<Color>)
    requires HistShape(h) && Counts(h) && occ == OccupiedCells(h)
    requires n <= boxlist.Length && n <= colormap.Length && boxlist[..n] == boxes
    requires Partition(occ, boxes, WHOLE)
    modifies colormap
    ensures Represents(h, colormap[..n], boxes)
  {
    hide Partition, OccupiedCells, RepresentsBox, Cells, Counts;
    BoxesUsable(occ, boxes);
    for i := 0 to n
      invariant forall j | 0 <= j < i :: RepresentsBox(h, colormap[j], boxes[j])
    {
      assert boxlist[i] == boxlist[..n][i];
      RepresentBox(h, occ, boxes[i], boxlist, i, colormap);
    }
  }

  method RepresentBox(h: array3<int>, ghost occ: set<Cell>, ghost b: Box, boxlist: array<Box>, i: nat,
                      colormap: array<Color>)
    requires HistShape(h) && Counts(h) && occ == OccupiedCells(h)
    requires i < boxlist.Length && i < colormap.Length && boxlist[i] == b && b.WellFormed() && Cells(occ, b) != {}
    modifies colormap
    ensures RepresentsBox(h, colormap[i], b)
        && forall j | 0 <= j < colormap.Length && j != i :: colormap[j] == old(colormap[j])
  {
    hide OccupiedCells, ColorInBox, Cells, Counts, IsMean;
    var c := ComputeColor(h, occ, boxlist[i]);
    colormap[i] := c;
  }

  lemma BoxesUsable(occ: set<Cell>, boxes: seq<Box>)
    requires Partition(occ, boxes, WHOLE)
    ensures forall i | 0 <= i < |boxes| :: boxes[i].WellFormed() && Cells(occ, boxes[i]) != {}
  {
    hide Cells;
    forall i | 0 <= i < |boxes| ensures boxes[i].WellFormed() && Cells(occ, boxes[i]) != {} {
      assert Tight(occ, boxes[i]);
    }
  }
}
