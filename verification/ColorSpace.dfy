// Colour space, histogram cells and distances shared by the colour quantizer's passes (jquant2.c).
module ColorSpace {
  import opened Arithmetic

  // Scale factors for an R,G,B component order.
  const C0_SCALE := 2
  const C1_SCALE := 3
  const C2_SCALE := 1

  const HIST_C0_ELEMS := 32
  const HIST_C1_ELEMS := 64
  const HIST_C2_ELEMS := 32

  const MAXNUMCOLORS := 256

  type Sample = x: int | 0 <= x < 256

  datatype Color = Color(c0: Sample, c1: Sample, c2: Sample)

  // Histogram cell of a pixel: shift each component right by 3, 2, 3.
  function Cell0(x: Sample): (c: int)
    ensures 0 <= c < HIST_C0_ELEMS && 8 * c <= x < 8 * c + 8
  { x / 8 }

  function Cell1(x: Sample): (c: int)
    ensures 0 <= c < HIST_C1_ELEMS && 4 * c <= x < 4 * c + 4
  { x / 4 }

  function Cell2(x: Sample): (c: int)
    ensures 0 <= c < HIST_C2_ELEMS && 8 * c <= x < 8 * c + 8
  { x / 8 }

  // The pixel lies in the cell.
  predicate InCell(p: Color, c0: int, c1: int, c2: int) {
    8 * c0 <= p.c0 < 8 * c0 + 8 && 4 * c1 <= p.c1 < 4 * c1 + 4 && 8 * c2 <= p.c2 < 8 * c2 + 8
  }

  // Coordinates of a cell's centre.
  function Centre0(c: int): int { c * 8 + 4 }
  function Centre1(c: int): int { c * 4 + 2 }
  function Centre2(c: int): int { c * 8 + 4 }

  // One axis's share of the squared distance between component x and coordinate p.
  function AxisTerm(x: int, p: int, scale: int): int {
    ((p - x) * scale) * ((p - x) * scale)
  }

  // Scaled squared distance from a colour to a point of colour space.
  function Dist(c: Color, p0: int, p1: int, p2: int): int {
    AxisTerm(c.c0, p0, C0_SCALE) + AxisTerm(c.c1, p1, C1_SCALE) + AxisTerm(c.c2, p2, C2_SCALE)
  }

  // A cell is what lies at most half its size from its centre (on the upper side, less than that),
  // and the distance of a pixel in it from the centre is at most 116.
  lemma CellOfCentre(p: Color, c0: int, c1: int, c2: int)
    ensures InCell(p, c0, c1, c2) <==>
            && -4 <= p.c0 - Centre0(c0) < 4 && -2 <= p.c1 - Centre1(c1) < 2 && -4 <= p.c2 - Centre2(c2) < 4
    ensures InCell(p, c0, c1, c2) ==> Dist(p, Centre0(c0), Centre1(c1), Centre2(c2)) <= 116
  {
    hide AxisTerm;
    if InCell(p, c0, c1, c2) {
      ShortAxis(p.c0, Centre0(c0), C0_SCALE, 4);
      ShortAxis(p.c1, Centre1(c1), C1_SCALE, 2);
      ShortAxis(p.c2, Centre2(c2), C2_SCALE, 4);
    }
  }

  lemma ShortAxis(x: int, p: int, scale: nat, d: nat)
    requires p - x <= d && x - p <= d
    ensures AxisTerm(x, p, scale) <= (d * scale) * (d * scale)
  {
    ProductMonotone(scale, p - x, d);
    ProductMonotone(scale, x - p, d);
    SquareBound((p - x) * scale, d * scale);
  }

  lemma SquareBound(t: int, m: int)
    requires t <= m && 0 <= m + t
    ensures t * t <= m * m
  {
    assert (m - t) * (m + t) >= 0;
  }

  // The distance is Euclid's, with the axes scaled by 2, 3 and 1.
  lemma DistScaled(c: Color, p0: int, p1: int, p2: int)
    ensures Dist(c, p0, p1, p2)
         == 4 * ((c.c0 - p0) * (c.c0 - p0)) + 9 * ((c.c1 - p1) * (c.c1 - p1)) + (c.c2 - p2) * (c.c2 - p2)
  {}

  type Colormap = cm: seq<Color> | 1 <= |cm| <= MAXNUMCOLORS witness [Color(0, 0, 0)]

  predicate IsNearestTo(cm: Colormap, p0: int, p1: int, p2: int, k: int) {
    && 0 <= k < |cm|
    && forall j | 0 <= j < |cm| ::
         && Dist(cm[k], p0, p1, p2) <= Dist(cm[j], p0, p1, p2)
         && (j < k ==> Dist(cm[k], p0, p1, p2) < Dist(cm[j], p0, p1, p2))
  }

  // The lowest-index nearest entry for the centre of histogram cell (c0, c1, c2).
  predicate IsNearest(cm: Colormap, c0: int, c1: int, c2: int, k: int) {
    IsNearestTo(cm, Centre0(c0), Centre1(c1), Centre2(c2), k)
  }

  predicate CellExists(c0: int, c1: int, c2: int) {
    0 <= c0 < HIST_C0_ELEMS && 0 <= c1 < HIST_C1_ELEMS && 0 <= c2 < HIST_C2_ELEMS
  }

  predicate HistShape(h: array3<int>) {
    h.Length0 == HIST_C0_ELEMS && h.Length1 == HIST_C1_ELEMS && h.Length2 == HIST_C2_ELEMS
  }
}
