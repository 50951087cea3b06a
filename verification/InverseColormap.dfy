/**
  The second pass of the two-pass colour quantizer (jquant2.c): mapping pixels to the
  nearest colormap entry through a cache that is filled one update box at a time.

  The reference definition is IsNearest: the lowest-index colormap entry that minimises
  the scaled squared distance to the centre of the pixel's histogram cell.  The methods
  reach it by Heckbert's pruning (FindNearbyColors) and Thomas's incremental distances
  (FindBestColors), and re-use the histogram in place as the cache.
  */
module InverseColormap {
  import opened ColorSpace

  const BOX_C0_ELEMS := 4
  const BOX_C1_ELEMS := 8
  const BOX_C2_ELEMS := 4
  const BOX_ELEMS := 128

  const INT32_MAX := 0x7FFF_FFFF

  // Nominal steps between cell centres.
  const STEP_C0 := 16
  const STEP_C1 := 12
  const STEP_C2 := 8

  // ---- distances ----

  function Abs(x: int): int { if x < 0 then -x else x }

  lemma MulMonotone(a: int, b: int, s: int)
    requires 0 <= a <= b && 0 <= s
    ensures 0 <= a * s <= b * s
  {
    assert b * s - a * s == (b - a) * s;
  }

  lemma SquareMonotone(u: int, v: int)
    requires Abs(u) <= Abs(v)
    ensures 0 <= u * u <= v * v
  {
    MulMonotone(Abs(u), Abs(v), Abs(u));
    MulMonotone(Abs(u), Abs(v), Abs(v));
  }

  // A coordinate farther away contributes at least as much.
  lemma AxisTermMonotone(x: int, p: int, q: int, scale: int)
    requires 0 <= scale && Abs(p - x) <= Abs(q - x)
    ensures 0 <= AxisTerm(x, p, scale) <= AxisTerm(x, q, scale)
  {
    MulMonotone(Abs(p - x), Abs(q - x), scale);
    assert Abs((p - x) * scale) == Abs(p - x) * scale;
    assert Abs((q - x) * scale) == Abs(q - x) * scale;
    SquareMonotone((p - x) * scale, (q - x) * scale);
  }

  // Thomas's recurrence: the terms of successive cells differ by a linear amount.
  lemma AxisTermStep(x: int, p: int, d: int, scale: int)
    ensures AxisTerm(x, p + d, scale)
         == AxisTerm(x, p, scale) + (2 * (d * scale) * ((p - x) * scale) + (d * scale) * (d * scale))
  {
    var a, s := (p - x) * scale, d * scale;
    assert (p + d - x) * scale == a + s;
    assert (a + s) * (a + s) == a * a + 2 * s * a + s * s;
  }

  lemma {:induction false} NearestExists(cm: seq<Color>, p0: int, p1: int, p2: int) returns (k: int)
    requires 1 <= |cm|
    ensures 0 <= k < |cm|
    ensures forall j | 0 <= j < |cm| ::
              && Dist(cm[k], p0, p1, p2) <= Dist(cm[j], p0, p1, p2)
              && (j < k ==> Dist(cm[k], p0, p1, p2) < Dist(cm[j], p0, p1, p2))
  {
    if |cm| == 1 {
      k := 0;
    } else {
      var front := cm[..|cm| - 1];
      k := NearestExists(front, p0, p1, p2);
      forall j | 0 <= j < |front| ensures front[j] == cm[j] {}
      if Dist(cm[|cm| - 1], p0, p1, p2) < Dist(cm[k], p0, p1, p2) {
        var old_k := k;
        k := |cm| - 1;
        forall j | 0 <= j < |front|
          ensures Dist(cm[k], p0, p1, p2) < Dist(cm[j], p0, p1, p2)
        {
          assert Dist(front[old_k], p0, p1, p2) <= Dist(front[j], p0, p1, p2);
        }
      } else {
        forall j | 0 <= j < |front|
          ensures Dist(cm[k], p0, p1, p2) <= Dist(cm[j], p0, p1, p2)
          ensures j < k ==> Dist(cm[k], p0, p1, p2) < Dist(cm[j], p0, p1, p2)
        {
          assert Dist(front[k], p0, p1, p2) <= Dist(front[j], p0, p1, p2);
        }
      }
    }
  }

  lemma DistBounded(c: Color, p0: int, p1: int, p2: int)
    requires 0 <= p0 <= 255 && 0 <= p1 <= 255 && 0 <= p2 <= 255
    ensures 0 <= Dist(c, p0, p1, p2) < INT32_MAX
  {
    AxisTermMonotone(c.c0, p0, c.c0 + 255, C0_SCALE);
    AxisTermMonotone(c.c1, p1, c.c1 + 255, C1_SCALE);
    AxisTermMonotone(c.c2, p2, c.c2 + 255, C2_SCALE);
    assert AxisTerm(c.c0, c.c0 + 255, C0_SCALE) == 510 * 510;
    assert AxisTerm(c.c1, c.c1 + 255, C1_SCALE) == 765 * 765;
    assert AxisTerm(c.c2, c.c2 + 255, C2_SCALE) == 255 * 255;
  }

  lemma SquareOfDifference(x: int, y: int, scale: int)
    ensures ((x - y) * scale) * ((x - y) * scale) == ((y - x) * scale) * ((y - x) * scale)
  {
    assert (x - y) * scale == -((y - x) * scale);
  }

  // ---- Heckbert's locality criterion ----

  // Smallest and largest contribution of one axis over the interval lo..hi, as the
  // branches of find_nearby_colors compute them (the C code repeats them per axis).
  method AxisDist(x: Sample, lo: int, hi: int, scale: int) returns (minDist: int, maxDist: int)
    requires lo <= hi && 0 <= scale
    ensures forall p | lo <= p <= hi :: minDist <= AxisTerm(x, p, scale) <= maxDist
    ensures maxDist == AxisTerm(x, lo, scale) || maxDist == AxisTerm(x, hi, scale)
  {
    var centre := (lo + hi) / 2;
    ghost var near, far := x, lo;
    if x < lo {
      var t := (x - lo) * scale;
      minDist := t * t;
      t := (x - hi) * scale;
      maxDist := t * t;
      near, far := lo, hi;
    } else if x > hi {
      var t := (x - hi) * scale;
      minDist := t * t;
      t := (x - lo) * scale;
      maxDist := t * t;
      near := hi;
    } else {
      minDist := 0;
      if x <= centre {
        var t := (x - hi) * scale;
        maxDist := t * t;
        far := hi;
      } else {
        var t := (x - lo) * scale;
        maxDist := t * t;
      }
    }
    assert minDist == AxisTerm(x, near, scale) && maxDist == AxisTerm(x, far, scale) by {
      SquareOfDifference(x, near, scale);
      SquareOfDifference(x, far, scale);
    }
    forall p | lo <= p <= hi
      ensures minDist <= AxisTerm(x, p, scale) <= maxDist
    {
      AxisTermMonotone(x, near, p, scale);
      AxisTermMonotone(x, p, far, scale);
    }
  }

  // k is nearest, possibly tied, to some point of the box between the lower and upper corner.
  ghost predicate CandidateAt(cm: Colormap, k: int, p0: int, p1: int, p2: int) {
    0 <= k < |cm| && forall j | 0 <= j < |cm| :: Dist(cm[k], p0, p1, p2) <= Dist(cm[j], p0, p1, p2)
  }

  predicate InBox(min0: int, min1: int, min2: int, p0: int, p1: int, p2: int) {
    min0 <= p0 <= min0 + 24 && min1 <= p1 <= min1 + 28 && min2 <= p2 <= min2 + 24
  }

  predicate Ascending(s: seq<int>) {
    forall i, j | 0 <= i < j < |s| :: s[i] < s[j]
  }

  predicate Indexes(cm: Colormap, s: seq<int>) {
    forall j | 0 <= j < |s| :: 0 <= s[j] < |cm|
  }

  ghost predicate MinBound(c: Color, min0: int, min1: int, min2: int, d: int) {
    forall p0, p1, p2 | InBox(min0, min1, min2, p0, p1, p2) :: d <= Dist(c, p0, p1, p2)
  }

  ghost predicate MaxBound(c: Color, min0: int, min1: int, min2: int, d: int) {
    forall p0, p1, p2 | InBox(min0, min1, min2, p0, p1, p2) :: Dist(c, p0, p1, p2) <= d
  }

  // Bounds on the distance from one colour to the points of the update box.
  method ColorRange(c: Color, min0: int, min1: int, min2: int) returns (lo: int, hi: int)
    requires 0 <= min0 <= 231 && 0 <= min1 <= 227 && 0 <= min2 <= 231
    ensures MinBound(c, min0, min1, min2, lo) && MaxBound(c, min0, min1, min2, hi)
    ensures hi < INT32_MAX
  {
    var lo0, hi0 := AxisDist(c.c0, min0, min0 + (32 - 8), C0_SCALE);
    var lo1, hi1 := AxisDist(c.c1, min1, min1 + (32 - 4), C1_SCALE);
    var lo2, hi2 := AxisDist(c.c2, min2, min2 + (32 - 8), C2_SCALE);
    lo := lo0 + lo1 + lo2;
    hi := hi0 + hi1 + hi2;
    FarthestBounded(c.c0, min0, min0 + 24, C0_SCALE);
    FarthestBounded(c.c1, min1, min1 + 28, C1_SCALE);
    FarthestBounded(c.c2, min2, min2 + 24, C2_SCALE);
  }

  lemma FarthestBounded(x: Sample, lo: int, hi: int, scale: int)
    requires 0 <= lo <= hi <= 255 && 0 <= scale <= 3
    ensures AxisTerm(x, lo, scale) <= 600_000 && AxisTerm(x, hi, scale) <= 600_000
  {
    AxisTermMonotone(x, lo, x + 255, scale);
    AxisTermMonotone(x, hi, x + 255, scale);
    assert AxisTerm(x, x + 255, scale) == (255 * scale) * (255 * scale);
    SquareMonotone(255 * scale, 765);
  }

  // Pruning drops neither a winner nor a tie at any point of the update box.
  method FindNearbyColors(cm: Colormap, min0: int, min1: int, min2: int, colorlist: array<int>)
    returns (ncolors: nat)
    requires colorlist.Length == MAXNUMCOLORS
    requires 0 <= min0 <= 231 && 0 <= min1 <= 227 && 0 <= min2 <= 231
    modifies colorlist
    ensures 1 <= ncolors <= |cm|
    ensures Ascending(colorlist[..ncolors]) && Indexes(cm, colorlist[..ncolors])
    ensures forall k, p0, p1, p2 | InBox(min0, min1, min2, p0, p1, p2) && CandidateAt(cm, k, p0, p1, p2) ::
              k in colorlist[..ncolors]
  {
    var minmaxdist := INT32_MAX;
    var mindist := new int[MAXNUMCOLORS];
    ghost var holder := 0;   // the entry whose maximum distance is minmaxdist
    for i := 0 to |cm|
      invariant forall k | 0 <= k < i :: MinBound(cm[k], min0, min1, min2, mindist[k])
      invariant if i == 0 then minmaxdist == INT32_MAX
                else 0 <= holder < i && MaxBound(cm[holder], min0, min1, min2, minmaxdist)
    {
      var lo, hi := ColorRange(cm[i], min0, min1, min2);
      mindist[i] := lo;
      if hi < minmaxdist {
        minmaxdist := hi;
        holder := i;
      }
    }
    assert CandidatesKept(cm, min0, min1, min2, mindist[..|cm|], minmaxdist) by {
      PruningSafe(cm, min0, min1, min2, mindist[..|cm|], minmaxdist, holder);
    }
    assert mindist[holder] <= Dist(cm[holder], min0, min1, min2) <= minmaxdist by {
      assert InBox(min0, min1, min2, min0, min1, min2);
      assert MinBound(cm[holder], min0, min1, min2, mindist[holder]);
    }

    ncolors := SelectWithin(mindist, |cm|, minmaxdist, colorlist);
    assert holder in colorlist[..ncolors];
    forall j | 0 <= j < ncolors ensures 0 <= colorlist[..ncolors][j] < |cm| {
      assert colorlist[..ncolors][j] in colorlist[..ncolors];
    }
  }

  // Second half of find_nearby_colors: keep, in order, the entries within the bound.
  method SelectWithin(mindist: array<int>, numcolors: nat, bound: int, colorlist: array<int>) returns (ncolors: nat)
    requires mindist.Length == colorlist.Length == MAXNUMCOLORS && mindist != colorlist
    requires numcolors <= MAXNUMCOLORS
    modifies colorlist
    ensures ncolors <= numcolors
    ensures Ascending(colorlist[..ncolors])
    ensures forall k :: k in colorlist[..ncolors] <==> 0 <= k < numcolors && mindist[k] <= bound
  {
    ncolors := 0;
    for i := 0 to numcolors
      invariant ncolors <= i
      invariant forall k :: k in colorlist[..ncolors] <==> 0 <= k < i && mindist[k] <= bound
      invariant Ascending(colorlist[..ncolors])
    {
      if mindist[i] <= bound {
        ghost var before := colorlist[..ncolors];
        colorlist[ncolors] := i;
        ncolors := ncolors + 1;
        assert colorlist[..ncolors] == before + [i];
        forall j | 0 <= j < |before| ensures before[j] < i { assert before[j] in before; }
      }
    }
  }

  ghost predicate CandidatesKept(cm: Colormap, min0: int, min1: int, min2: int, mindist: seq<int>, minmaxdist: int)
    requires |mindist| == |cm|
  {
    forall k, p0, p1, p2 | InBox(min0, min1, min2, p0, p1, p2) && CandidateAt(cm, k, p0, p1, p2) ::
      mindist[k] <= minmaxdist
  }

  lemma PruningSafe(cm: Colormap, min0: int, min1: int, min2: int, mindist: seq<int>, minmaxdist: int, holder: int)
    requires |mindist| == |cm| && 0 <= holder < |cm|
    requires forall k | 0 <= k < |cm| :: MinBound(cm[k], min0, min1, min2, mindist[k])
    requires MaxBound(cm[holder], min0, min1, min2, minmaxdist)
    ensures CandidatesKept(cm, min0, min1, min2, mindist, minmaxdist)
  {
    forall k, p0, p1, p2 | InBox(min0, min1, min2, p0, p1, p2) && CandidateAt(cm, k, p0, p1, p2)
      ensures mindist[k] <= minmaxdist
    {
      assert MinBound(cm[k], min0, min1, min2, mindist[k]);
      assert Dist(cm[k], p0, p1, p2) <= Dist(cm[holder], p0, p1, p2);
    }
  }

  // ---- Thomas's incremental search ----

  // (bd, bc) is the best distance and colour at a point among list[..i]: the first of
  // the minimisers, since the list ascends.
  ghost predicate BestSoFar(cm: Colormap, list: seq<int>, i: nat, p0: int, p1: int, p2: int, bd: int, bc: int)
    requires i <= |list| && Indexes(cm, list)
  {
    if i == 0 then bd == INT32_MAX
    else
      && bc in list[..i]
      && bd == Dist(cm[bc], p0, p1, p2)
      && forall j | 0 <= j < i ::
           && bd <= Dist(cm[list[j]], p0, p1, p2)
           && (list[j] < bc ==> bd < Dist(cm[list[j]], p0, p1, p2))
  }

  lemma BestExtends(cm: Colormap, list: seq<int>, i: nat, p0: int, p1: int, p2: int, bd: int, bc: int)
    requires i < |list| && Ascending(list) && Indexes(cm, list)
    requires 0 <= p0 <= 255 && 0 <= p1 <= 255 && 0 <= p2 <= 255
    requires BestSoFar(cm, list, i, p0, p1, p2, bd, bc)
    ensures var d := Dist(cm[list[i]], p0, p1, p2);
            if d < bd then BestSoFar(cm, list, i + 1, p0, p1, p2, d, list[i])
            else BestSoFar(cm, list, i + 1, p0, p1, p2, bd, bc)
  {
    DistBounded(cm[list[i]], p0, p1, p2);
    assert list[..i + 1] == list[..i] + [list[i]];
  }

  // Slot of a box cell in the flat work arrays.
  function Slot(ic0: int, ic1: int, ic2: int): int {
    (ic0 * BOX_C1_ELEMS + ic1) * BOX_C2_ELEMS + ic2
  }

  ghost predicate SlotBest(cm: Colormap, list: seq<int>, i: nat, min0: int, min1: int, min2: int,
                           ic0: int, ic1: int, ic2: int, bestdist: seq<int>, bestcolor: seq<int>)
    requires i <= |list| && Indexes(cm, list)
    requires |bestdist| == |bestcolor| == BOX_ELEMS
    requires 0 <= ic0 < 4 && 0 <= ic1 < 8 && 0 <= ic2 < 4
  {
    BestSoFar(cm, list, i, min0 + 8 * ic0, min1 + 4 * ic1, min2 + 8 * ic2,
              bestdist[Slot(ic0, ic1, ic2)], bestcolor[Slot(ic0, ic1, ic2)])
  }

  // Slots below t have seen list[..i + 1], the others list[..i].
  ghost predicate Progress(cm: Colormap, list: seq<int>, i: nat, t: int, min0: int, min1: int, min2: int,
                           bestdist: seq<int>, bestcolor: seq<int>)
    requires i < |list| && Indexes(cm, list)
    requires |bestdist| == |bestcolor| == BOX_ELEMS
  {
    forall ic0, ic1, ic2 | 0 <= ic0 < 4 && 0 <= ic1 < 8 && 0 <= ic2 < 4 ::
      SlotBest(cm, list, if Slot(ic0, ic1, ic2) < t then i + 1 else i, min0, min1, min2,
               ic0, ic1, ic2, bestdist, bestcolor)
  }

  ghost predicate AllBest(cm: Colormap, list: seq<int>, i: nat, min0: int, min1: int, min2: int,
                          bestdist: seq<int>, bestcolor: seq<int>)
    requires i <= |list| && Indexes(cm, list)
    requires |bestdist| == |bestcolor| == BOX_ELEMS
  {
    forall ic0, ic1, ic2 | 0 <= ic0 < 4 && 0 <= ic1 < 8 && 0 <= ic2 < 4 ::
      SlotBest(cm, list, i, min0, min1, min2, ic0, ic1, ic2, bestdist, bestcolor)
  }

  lemma StepSlot(cm: Colormap, list: seq<int>, i: nat, min0: int, min1: int, min2: int,
                 ic0: int, ic1: int, ic2: int,
                 bd: seq<int>, bc: seq<int>, bd': seq<int>, bc': seq<int>)
    requires i < |list| && Ascending(list) && Indexes(cm, list)
    requires |bd| == |bc| == |bd'| == |bc'| == BOX_ELEMS
    requires 0 <= ic0 < 4 && 0 <= ic1 < 8 && 0 <= ic2 < 4
    requires 0 <= min0 <= 231 && 0 <= min1 <= 227 && 0 <= min2 <= 231
    requires Progress(cm, list, i, Slot(ic0, ic1, ic2), min0, min1, min2, bd, bc)
    requires var t := Slot(ic0, ic1, ic2);
             var d := Dist(cm[list[i]], min0 + 8 * ic0, min1 + 4 * ic1, min2 + 8 * ic2);
             if d < bd[t] then bd' == bd[t := d] && bc' == bc[t := list[i]]
             else bd' == bd && bc' == bc
    ensures Progress(cm, list, i, Slot(ic0, ic1, ic2) + 1, min0, min1, min2, bd', bc')
  {
    var t := Slot(ic0, ic1, ic2);
    assert SlotBest(cm, list, i, min0, min1, min2, ic0, ic1, ic2, bd, bc);
    BestExtends(cm, list, i, min0 + 8 * ic0, min1 + 4 * ic1, min2 + 8 * ic2, bd[t], bc[t]);
    forall jc0, jc1, jc2 | 0 <= jc0 < 4 && 0 <= jc1 < 8 && 0 <= jc2 < 4
      ensures SlotBest(cm, list, if Slot(jc0, jc1, jc2) < t + 1 then i + 1 else i, min0, min1, min2,
                       jc0, jc1, jc2, bd', bc')
    {
      var u := Slot(jc0, jc1, jc2);
      assert SlotBest(cm, list, if u < t then i + 1 else i, min0, min1, min2, jc0, jc1, jc2, bd, bc);
      if u == t {
        assert jc0 == ic0 && jc1 == ic1 && jc2 == ic2;
      }
    }
  }

  method FindBestColors(cm: Colormap, min0: int, min1: int, min2: int, numcolors: nat,
                        colorlist: array<int>, bestcolor: array<int>)
    requires colorlist.Length == MAXNUMCOLORS && bestcolor.Length == BOX_ELEMS && colorlist != bestcolor
    requires 1 <= numcolors <= |cm|
    requires 0 <= min0 <= 231 && 0 <= min1 <= 227 && 0 <= min2 <= 231
    requires Ascending(colorlist[..numcolors])
    requires Indexes(cm, colorlist[..numcolors])
    modifies bestcolor
    ensures forall ic0, ic1, ic2 | 0 <= ic0 < 4 && 0 <= ic1 < 8 && 0 <= ic2 < 4 ::
              BestInList(cm, colorlist[..numcolors], min0 + 8 * ic0, min1 + 4 * ic1, min2 + 8 * ic2,
                         bestcolor[Slot(ic0, ic1, ic2)])
  {
    ghost var list := colorlist[..numcolors];
    var bestdist := new int[BOX_ELEMS];
    for p := 0 to BOX_ELEMS
      invariant forall q | 0 <= q < p :: bestdist[q] == INT32_MAX
    {
      bestdist[p] := INT32_MAX;
    }
    for i := 0 to numcolors
      invariant colorlist[..numcolors] == list
      invariant AllBest(cm, list, i, min0, min1, min2, bestdist[..], bestcolor[..])
    {
      var icolor := colorlist[i];
      assert icolor == list[i];
      var inc0 := (min0 - cm[icolor].c0) * C0_SCALE;
      var dist0 := inc0 * inc0;
      var inc1 := (min1 - cm[icolor].c1) * C1_SCALE;
      dist0 := dist0 + inc1 * inc1;
      var inc2 := (min2 - cm[icolor].c2) * C2_SCALE;
      dist0 := dist0 + inc2 * inc2;
      inc0 := inc0 * (2 * STEP_C0) + STEP_C0 * STEP_C0;
      inc1 := inc1 * (2 * STEP_C1) + STEP_C1 * STEP_C1;
      inc2 := inc2 * (2 * STEP_C2) + STEP_C2 * STEP_C2;
      ScanBox(cm, list, i, icolor, min0, min1, min2, dist0, inc0, inc1, inc2, bestdist, bestcolor);
    }
    forall ic0, ic1, ic2 | 0 <= ic0 < 4 && 0 <= ic1 < 8 && 0 <= ic2 < 4
      ensures BestInList(cm, list, min0 + 8 * ic0, min1 + 4 * ic1, min2 + 8 * ic2,
                         bestcolor[Slot(ic0, ic1, ic2)])
    {
      assert SlotBest(cm, list, numcolors, min0, min1, min2, ic0, ic1, ic2, bestdist[..], bestcolor[..]);
      assert list[..numcolors] == list;
    }
  }

  ghost predicate BestInList(cm: Colormap, list: seq<int>, p0: int, p1: int, p2: int, k: int)
    requires Indexes(cm, list)
  {
    && k in list
    && forall j | 0 <= j < |list| ::
         && Dist(cm[k], p0, p1, p2) <= Dist(cm[list[j]], p0, p1, p2)
         && (list[j] < k ==> Dist(cm[k], p0, p1, p2) < Dist(cm[list[j]], p0, p1, p2))
  }

  lemma DistStep(c: Color, p0: int, p1: int, p2: int)
    ensures Dist(c, p0 + 8, p1, p2)
         == Dist(c, p0, p1, p2) + (64 * (p0 - c.c0) + 256)
    ensures Dist(c, p0, p1 + 4, p2)
         == Dist(c, p0, p1, p2) + (72 * (p1 - c.c1) + 144)
    ensures Dist(c, p0, p1, p2 + 8)
         == Dist(c, p0, p1, p2) + (16 * (p2 - c.c2) + 64)
  {
    AxisTermStep(c.c0, p0, 8, C0_SCALE);
    AxisTermStep(c.c1, p1, 4, C1_SCALE);
    AxisTermStep(c.c2, p2, 8, C2_SCALE);
  }

  lemma NoProgress(cm: Colormap, list: seq<int>, i: nat, min0: int, min1: int, min2: int, bd: seq<int>, bc: seq<int>)
    requires i < |list| && Indexes(cm, list) && |bd| == |bc| == BOX_ELEMS
    requires AllBest(cm, list, i, min0, min1, min2, bd, bc)
    ensures Progress(cm, list, i, 0, min0, min1, min2, bd, bc)
  {
    hide SlotBest;
  }

  lemma BoxCovered(cm: Colormap, list: seq<int>, i: nat, min0: int, min1: int, min2: int, bd: seq<int>, bc: seq<int>)
    requires i < |list| && Indexes(cm, list) && |bd| == |bc| == BOX_ELEMS
    requires Progress(cm, list, i, BOX_ELEMS, min0, min1, min2, bd, bc)
    ensures AllBest(cm, list, i + 1, min0, min1, min2, bd, bc)
  {
    var next := i + 1;
    forall ic0, ic1, ic2 | 0 <= ic0 < 4 && 0 <= ic1 < 8 && 0 <= ic2 < 4
      ensures SlotBest(cm, list, next, min0, min1, min2, ic0, ic1, ic2, bd, bc)
    {
      assert Slot(ic0, ic1, ic2) < BOX_ELEMS;
    }
  }

  // Innermost body: record the colour if it beats the cell's best so far.
  method TryColor(cm: Colormap, ghost list: seq<int>, ghost i: nat, icolor: int,
                  ghost min0: int, ghost min1: int, ghost min2: int,
                  ghost ic0: int, ghost ic1: int, ghost ic2: int, dist2: int, ptr: int,
                  bestdist: array<int>, bestcolor: array<int>)
    requires i < |list| && Ascending(list) && Indexes(cm, list) && icolor == list[i]
    requires bestdist.Length == bestcolor.Length == BOX_ELEMS && bestdist != bestcolor
    requires 0 <= ic0 < 4 && 0 <= ic1 < 8 && 0 <= ic2 < 4 && ptr == Slot(ic0, ic1, ic2)
    requires 0 <= min0 <= 231 && 0 <= min1 <= 227 && 0 <= min2 <= 231
    requires dist2 == Dist(cm[icolor], min0 + 8 * ic0, min1 + 4 * ic1, min2 + 8 * ic2)
    requires Progress(cm, list, i, ptr, min0, min1, min2, bestdist[..], bestcolor[..])
    modifies bestdist, bestcolor
    ensures Progress(cm, list, i, ptr + 1, min0, min1, min2, bestdist[..], bestcolor[..])
  {
    ghost var bd, bc := bestdist[..], bestcolor[..];
    if dist2 < bestdist[ptr] {
      bestdist[ptr] := dist2;
      bestcolor[ptr] := icolor;
      assert bestdist[..] == bd[ptr := dist2] && bestcolor[..] == bc[ptr := icolor];
    }
    StepSlot(cm, list, i, min0, min1, min2, ic0, ic1, ic2, bd, bc, bestdist[..], bestcolor[..]);
  }

  // The loop over the cells of one line of the box.
  method ScanLine(cm: Colormap, ghost list: seq<int>, ghost i: nat, icolor: int,
                  ghost min0: int, ghost min1: int, min2: int, ghost ic0: int, ghost ic1: int,
                  dist1: int, inc2: int, start: int, bestdist: array<int>, bestcolor: array<int>)
    returns (ptr: int)
    requires i < |list| && Ascending(list) && Indexes(cm, list) && icolor == list[i]
    requires bestdist.Length == bestcolor.Length == BOX_ELEMS && bestdist != bestcolor
    requires 0 <= ic0 < 4 && 0 <= ic1 < 8 && start == Slot(ic0, ic1, 0)
    requires 0 <= min0 <= 231 && 0 <= min1 <= 227 && 0 <= min2 <= 231
    requires dist1 == Dist(cm[icolor], min0 + 8 * ic0, min1 + 4 * ic1, min2)
    requires inc2 == 16 * (min2 - cm[icolor].c2) + 64
    requires Progress(cm, list, i, start, min0, min1, min2, bestdist[..], bestcolor[..])
    modifies bestdist, bestcolor
    ensures ptr == start + BOX_C2_ELEMS
    ensures Progress(cm, list, i, ptr, min0, min1, min2, bestdist[..], bestcolor[..])
  {
    hide Dist, Progress;
    var dist2, xx2 := dist1, inc2;
    ptr := start;
    for ic2 := 0 to BOX_C2_ELEMS
      invariant ptr == start + ic2
      invariant dist2 == Dist(cm[icolor], min0 + 8 * ic0, min1 + 4 * ic1, min2 + 8 * ic2)
      invariant xx2 == inc2 + 128 * ic2
      invariant Progress(cm, list, i, ptr, min0, min1, min2, bestdist[..], bestcolor[..])
    {
      TryColor(cm, list, i, icolor, min0, min1, min2, ic0, ic1, ic2, dist2, ptr, bestdist, bestcolor);
      DistStep(cm[icolor], min0 + 8 * ic0, min1 + 4 * ic1, min2 + 8 * ic2);
      dist2 := dist2 + xx2;
      xx2 := xx2 + 2 * STEP_C2 * STEP_C2;
      ptr := ptr + 1;
    }
  }

  // The loop over the lines of one plane of the box.
  method ScanPlane(cm: Colormap, ghost list: seq<int>, ghost i: nat, icolor: int,
                   ghost min0: int, min1: int, min2: int, ghost ic0: int,
                   dist0: int, inc1: int, inc2: int, start: int, bestdist: array<int>, bestcolor: array<int>)
    returns (ptr: int)
    requires i < |list| && Ascending(list) && Indexes(cm, list) && icolor == list[i]
    requires bestdist.Length == bestcolor.Length == BOX_ELEMS && bestdist != bestcolor
    requires 0 <= ic0 < 4 && start == Slot(ic0, 0, 0)
    requires 0 <= min0 <= 231 && 0 <= min1 <= 227 && 0 <= min2 <= 231
    requires dist0 == Dist(cm[icolor], min0 + 8 * ic0, min1, min2)
    requires inc1 == 72 * (min1 - cm[icolor].c1) + 144
    requires inc2 == 16 * (min2 - cm[icolor].c2) + 64
    requires Progress(cm, list, i, start, min0, min1, min2, bestdist[..], bestcolor[..])
    modifies bestdist, bestcolor
    ensures ptr == Slot(ic0 + 1, 0, 0)
    ensures Progress(cm, list, i, ptr, min0, min1, min2, bestdist[..], bestcolor[..])
  {
    hide Dist, Progress;
    ghost var c := cm[icolor];
    ptr := start;
    var dist1, xx1 := dist0, inc1;
    for ic1 := 0 to BOX_C1_ELEMS
      invariant ptr == Slot(ic0, ic1, 0)
      invariant dist1 == Dist(c, min0 + 8 * ic0, min1 + 4 * ic1, min2)
      invariant xx1 == inc1 + 288 * ic1
      invariant Progress(cm, list, i, ptr, min0, min1, min2, bestdist[..], bestcolor[..])
    {
      ptr := ScanLine(cm, list, i, icolor, min0, min1, min2, ic0, ic1, dist1, inc2, ptr, bestdist, bestcolor);
      DistStep(c, min0 + 8 * ic0, min1 + 4 * ic1, min2);
      dist1 := dist1 + xx1;
      xx1 := xx1 + 2 * STEP_C1 * STEP_C1;
    }
  }

  // The three nested loops over the box for one candidate colour: every distance the
  // increments produce is the true scaled squared distance.
  method ScanBox(cm: Colormap, ghost list: seq<int>, i: nat, icolor: int, min0: int, min1: int, min2: int,
                 startDist: int, inc0: int, inc1: int, inc2: int,
                 bestdist: array<int>, bestcolor: array<int>)
    requires i < |list| && Ascending(list) && Indexes(cm, list) && icolor == list[i]
    requires bestdist.Length == bestcolor.Length == BOX_ELEMS && bestdist != bestcolor
    requires 0 <= min0 <= 231 && 0 <= min1 <= 227 && 0 <= min2 <= 231
    requires startDist == Dist(cm[icolor], min0, min1, min2)
    requires inc0 == 64 * (min0 - cm[icolor].c0) + 256
    requires inc1 == 72 * (min1 - cm[icolor].c1) + 144
    requires inc2 == 16 * (min2 - cm[icolor].c2) + 64
    requires AllBest(cm, list, i, min0, min1, min2, bestdist[..], bestcolor[..])
    modifies bestdist, bestcolor
    ensures AllBest(cm, list, i + 1, min0, min1, min2, bestdist[..], bestcolor[..])
  {
    hide Dist, Progress, AllBest;
    NoProgress(cm, list, i, min0, min1, min2, bestdist[..], bestcolor[..]);
    ghost var c := cm[icolor];
    var dist0, xx0 := startDist, inc0;
    var ptr := 0;
    for ic0 := 0 to BOX_C0_ELEMS
      invariant ptr == Slot(ic0, 0, 0)
      invariant dist0 == Dist(c, min0 + 8 * ic0, min1, min2)
      invariant xx0 == inc0 + 512 * ic0
      invariant Progress(cm, list, i, ptr, min0, min1, min2, bestdist[..], bestcolor[..])
    {
      ptr := ScanPlane(cm, list, i, icolor, min0, min1, min2, ic0, dist0, inc1, inc2, ptr, bestdist, bestcolor);
      DistStep(c, min0 + 8 * ic0, min1, min2);
      dist0 := dist0 + xx0;
      xx0 := xx0 + 2 * STEP_C0 * STEP_C0;
    }
    BoxCovered(cm, list, i, min0, min1, min2, bestdist[..], bestcolor[..]);
  }

  // ---- the cache ----

  // Searching the candidates only is as good as searching the whole colormap.
  lemma BestInListIsNearest(cm: Colormap, list: seq<int>, p0: int, p1: int, p2: int, k: int)
    requires Indexes(cm, list) && BestInList(cm, list, p0, p1, p2, k)
    requires forall c | CandidateAt(cm, c, p0, p1, p2) :: c in list
    ensures IsNearestTo(cm, p0, p1, p2, k)
  {
    var w := NearestExists(cm, p0, p1, p2);
    assert CandidateAt(cm, w, p0, p1, p2);
    assert Dist(cm[k], p0, p1, p2) <= Dist(cm[w], p0, p1, p2);
    forall j | 0 <= j < |cm|
      ensures Dist(cm[k], p0, p1, p2) <= Dist(cm[j], p0, p1, p2)
      ensures j < k ==> Dist(cm[k], p0, p1, p2) < Dist(cm[j], p0, p1, p2)
    {
      if Dist(cm[j], p0, p1, p2) <= Dist(cm[k], p0, p1, p2) {
        assert CandidateAt(cm, j, p0, p1, p2);
      }
    }
  }

  // Every filled cell holds one more than the index of its nearest entry.
  ghost predicate CacheValid(cm: Colormap, h: array3<int>)
    requires HistShape(h)
    reads h
  {
    forall c0, c1, c2 | CellExists(c0, c1, c2) && h[c0, c1, c2] != 0 :: IsNearest(cm, c0, c1, c2, h[c0, c1, c2] - 1)
  }

  ghost predicate CellsNearest(cm: Colormap, base0: int, base1: int, base2: int, bestcolor: seq<int>)
    requires |bestcolor| == BOX_ELEMS
  {
    forall ic0, ic1, ic2 | 0 <= ic0 < 4 && 0 <= ic1 < 8 && 0 <= ic2 < 4 ::
      IsNearest(cm, base0 + ic0, base1 + ic1, base2 + ic2, bestcolor[Slot(ic0, ic1, ic2)])
  }

  // The two searches of fill_inverse_cmap, for the update box with the given number.
  method FindBoxColors(cm: Colormap, id0: int, id1: int, id2: int, bestcolor: array<int>)
    requires 0 <= id0 < 8 && 0 <= id1 < 8 && 0 <= id2 < 8 && bestcolor.Length == BOX_ELEMS
    modifies bestcolor
    ensures CellsNearest(cm, 4 * id0, 8 * id1, 4 * id2, bestcolor[..])
  {
    var min0 := id0 * 32 + 4;
    var min1 := id1 * 32 + 2;
    var min2 := id2 * 32 + 4;
    var colorlist := new int[MAXNUMCOLORS];
    var numcolors := FindNearbyColors(cm, min0, min1, min2, colorlist);
    ghost var list := colorlist[..numcolors];
    FindBestColors(cm, min0, min1, min2, numcolors, colorlist, bestcolor);
    assert colorlist[..numcolors] == list;
    forall ic0, ic1, ic2 | 0 <= ic0 < 4 && 0 <= ic1 < 8 && 0 <= ic2 < 4
      ensures IsNearest(cm, 4 * id0 + ic0, 8 * id1 + ic1, 4 * id2 + ic2, bestcolor[..][Slot(ic0, ic1, ic2)])
    {
      ghost var p0, p1, p2 := min0 + 8 * ic0, min1 + 4 * ic1, min2 + 8 * ic2;
      assert InBox(min0, min1, min2, p0, p1, p2);
      BestInListIsNearest(cm, list, p0, p1, p2, bestcolor[Slot(ic0, ic1, ic2)]);
      assert p0 == Centre0(4 * id0 + ic0) && p1 == Centre1(8 * id1 + ic1) && p2 == Centre2(4 * id2 + ic2);
    }
  }

  method FillInverseCmap(cm: Colormap, h: array3<int>, cell0: int, cell1: int, cell2: int)
    requires HistShape(h) && CellExists(cell0, cell1, cell2)
    requires CacheValid(cm, h)
    modifies h
    ensures CacheValid(cm, h)
    ensures h[cell0, cell1, cell2] != 0
  {
    var id0, id1, id2 := cell0 / BOX_C0_ELEMS, cell1 / BOX_C1_ELEMS, cell2 / BOX_C2_ELEMS;
    var bestcolor := new int[BOX_ELEMS];
    FindBoxColors(cm, id0, id1, id2, bestcolor);
    var base0, base1, base2 := id0 * BOX_C0_ELEMS, id1 * BOX_C1_ELEMS, id2 * BOX_C2_ELEMS;
    hide CacheValid, CellsNearest, StoredUpTo;
    StoreBox(cm, h, base0, base1, base2, bestcolor);
    CellStored(cm, h, base0, base1, base2, bestcolor[..], cell0 - base0, cell1 - base1, cell2 - base2);
  }

  // A cell of the stored box is filled.
  lemma CellStored(cm: Colormap, h: array3<int>, base0: int, base1: int, base2: int, best: seq<int>,
                   ic0: int, ic1: int, ic2: int)
    requires HistShape(h) && |best| == BOX_ELEMS && CellsNearest(cm, base0, base1, base2, best)
    requires 0 <= base0 <= 28 && 0 <= base1 <= 56 && 0 <= base2 <= 28
    requires 0 <= ic0 < 4 && 0 <= ic1 < 8 && 0 <= ic2 < 4 && StoredUpTo(h, base0, base1, base2, best, BOX_ELEMS)
    ensures h[base0 + ic0, base1 + ic1, base2 + ic2] != 0
  {
    hide IsNearestTo;
    assert h[base0 + ic0, base1 + ic1, base2 + ic2] == best[Slot(ic0, ic1, ic2)] + 1;
    assert IsNearest(cm, base0 + ic0, base1 + ic1, base2 + ic2, best[Slot(ic0, ic1, ic2)]);
    NearestIsIndex(cm, base0 + ic0, base1 + ic1, base2 + ic2, best[Slot(ic0, ic1, ic2)]);
  }

  lemma NearestIsIndex(cm: Colormap, c0: int, c1: int, c2: int, k: int)
    requires IsNearest(cm, c0, c1, c2, k)
    ensures 0 <= k < |cm|
  {}

  method StoreCell(cm: Colormap, h: array3<int>, base0: int, base1: int, base2: int,
                   ic0: int, ic1: int, ic2: int, bestcolor: array<int>, ptr: int)
    requires HistShape(h) && bestcolor.Length == BOX_ELEMS
    requires 0 <= base0 <= 28 && 0 <= base1 <= 56 && 0 <= base2 <= 28
    requires 0 <= ic0 < 4 && 0 <= ic1 < 8 && 0 <= ic2 < 4 && ptr == Slot(ic0, ic1, ic2)
    requires CellsNearest(cm, base0, base1, base2, bestcolor[..])
    requires CacheValid(cm, h) && StoredUpTo(h, base0, base1, base2, bestcolor[..], ptr)
    modifies h
    ensures CacheValid(cm, h) && StoredUpTo(h, base0, base1, base2, bestcolor[..], ptr + 1)
  {
    hide IsNearest;
    assert IsNearest(cm, base0 + ic0, base1 + ic1, base2 + ic2, bestcolor[..][Slot(ic0, ic1, ic2)]);
    h[base0 + ic0, base1 + ic1, base2 + ic2] := bestcolor[ptr] + 1;
  }

  // The closing loops of fill_inverse_cmap: one more than each best colour goes into the cache.
  method StoreBox(cm: Colormap, h: array3<int>, base0: int, base1: int, base2: int, bestcolor: array<int>)
    requires HistShape(h) && bestcolor.Length == BOX_ELEMS
    requires 0 <= base0 <= 28 && 0 <= base1 <= 56 && 0 <= base2 <= 28
    requires CellsNearest(cm, base0, base1, base2, bestcolor[..])
    requires CacheValid(cm, h)
    modifies h
    ensures CacheValid(cm, h)
    ensures StoredUpTo(h, base0, base1, base2, bestcolor[..], BOX_ELEMS)
  {
    assert StoredUpTo(h, base0, base1, base2, bestcolor[..], 0);
    hide IsNearest, CacheValid, StoredUpTo, CellsNearest;
    var ptr := 0;
    for ic0 := 0 to BOX_C0_ELEMS
      invariant ptr == Slot(ic0, 0, 0)
      invariant CacheValid(cm, h) && StoredUpTo(h, base0, base1, base2, bestcolor[..], ptr)
    {
      for ic1 := 0 to BOX_C1_ELEMS
        invariant ptr == Slot(ic0, ic1, 0)
        invariant CacheValid(cm, h) && StoredUpTo(h, base0, base1, base2, bestcolor[..], ptr)
      {
        for ic2 := 0 to BOX_C2_ELEMS
          invariant ptr == Slot(ic0, ic1, ic2)
          invariant CacheValid(cm, h) && StoredUpTo(h, base0, base1, base2, bestcolor[..], ptr)
        {
          StoreCell(cm, h, base0, base1, base2, ic0, ic1, ic2, bestcolor, ptr);
          ptr := ptr + 1;
        }
      }
    }
  }

  ghost predicate StoredUpTo(h: array3<int>, base0: int, base1: int, base2: int, bestcolor: seq<int>, t: int)
    requires HistShape(h) && |bestcolor| == BOX_ELEMS
    requires 0 <= base0 <= 28 && 0 <= base1 <= 56 && 0 <= base2 <= 28
    reads h
  {
    forall ic0, ic1, ic2 | 0 <= ic0 < 4 && 0 <= ic1 < 8 && 0 <= ic2 < 4 && Slot(ic0, ic1, ic2) < t ::
      h[base0 + ic0, base1 + ic1, base2 + ic2] == bestcolor[Slot(ic0, ic1, ic2)] + 1
  }
}
