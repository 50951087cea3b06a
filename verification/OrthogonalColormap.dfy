/**
  The colormap of the one-pass quantizer (jquant1.c): each component gets a number of equally
  spaced values, the map holds every combination of them, and a component's index table is
  premultiplied so that the sum over the components is the index of the combination.
  */
module OrthogonalColormap {
  import opened Arithmetic
  import opened Upsampling
  import opened ErrorDiffusion

  const MAX_COLORS := 256
  const RGB_ORDER: seq<nat> := [1, 0, 2]

  // ---- combinations in row-major order ----

  predicate Counts(ns: seq<nat>) {
    forall i | 0 <= i < |ns| :: ns[i] >= 2
  }

  // Combinations of the components from i on; the block size of component i - 1.
  function Tail(ns: seq<nat>, i: nat): (r: nat)
    requires i <= |ns| && Counts(ns)
    ensures r >= 1
    decreases |ns| - i
  {
    if i == |ns| then 1
    else
      ProductAtLeast(ns[i], Tail(ns, i + 1));
      ns[i] * Tail(ns, i + 1)
  }

  // The value number of component i in entry p of the map.
  function Digit(ns: seq<nat>, p: nat, i: nat): (d: nat)
    requires i < |ns| && Counts(ns)
    ensures d < ns[i]
  {
    p / Tail(ns, i + 1) % ns[i]
  }

  predicate Choice(ns: seq<nat>, vs: seq<nat>) {
    Counts(ns) && |vs| == |ns| && forall i | 0 <= i < |ns| :: vs[i] < ns[i]
  }

  // The sum of the premultiplied value numbers of the components from i on, and before m.
  function Place(ns: seq<nat>, vs: seq<nat>, i: nat): nat
    requires Choice(ns, vs) && i <= |ns|
    decreases |ns| - i
  {
    if i == |ns| then 0 else vs[i] * Tail(ns, i + 1) + Place(ns, vs, i + 1)
  }

  function Sum(ns: seq<nat>, vs: seq<nat>, m: nat): nat
    requires Choice(ns, vs) && m <= |ns|
  {
    if m == 0 then 0 else Sum(ns, vs, m - 1) + vs[m - 1] * Tail(ns, m)
  }

  lemma LevelBelow(n: nat, t: nat, v: nat, rest: nat)
    requires v < n && rest < t
    ensures v * t + rest < n * t
  {
    ProductMonotone(t, v + 1, n);
  }

  lemma {:induction false} PlaceBelow(ns: seq<nat>, vs: seq<nat>, i: nat)
    requires Choice(ns, vs) && i <= |ns|
    ensures Place(ns, vs, i) < Tail(ns, i)
    decreases |ns| - i
  {
    if i < |ns| {
      PlaceBelow(ns, vs, i + 1);
      LevelBelow(ns[i], Tail(ns, i + 1), vs[i], Place(ns, vs, i + 1));
    }
  }

  lemma {:induction false} SumAndPlace(ns: seq<nat>, vs: seq<nat>, m: nat)
    requires Choice(ns, vs) && m <= |ns|
    ensures Sum(ns, vs, m) + Place(ns, vs, m) == Place(ns, vs, 0)
  {
    if m > 0 {
      SumAndPlace(ns, vs, m - 1);
    }
  }

  // What is before component m is a multiple of the combinations from m on.
  lemma {:induction false} SumIsMultiple(ns: seq<nat>, vs: seq<nat>, m: nat) returns (q: nat)
    requires Choice(ns, vs) && m <= |ns|
    ensures Sum(ns, vs, m) == q * Tail(ns, m)
  {
    if m == 0 {
      q := 0;
    } else {
      var q' := SumIsMultiple(ns, vs, m - 1);
      q := q' * ns[m - 1] + vs[m - 1];
      OneLevel(q', ns[m - 1], Tail(ns, m), vs[m - 1]);
    }
  }

  lemma OneLevel(q: nat, n: nat, t: nat, v: nat)
    ensures q * (n * t) + v * t == (q * n + v) * t
  {}

  // The sum of the premultiplied value numbers is the place of their combination.
  lemma SumFinds(ns: seq<nat>, vs: seq<nat>, i: nat)
    requires Choice(ns, vs) && i < |ns|
    ensures Sum(ns, vs, |ns|) < Tail(ns, 0) && Digit(ns, Sum(ns, vs, |ns|), i) == vs[i]
  {
    SumAndPlace(ns, vs, |ns|);
    SumAndPlace(ns, vs, i);
    PlaceBelow(ns, vs, 0);
    PlaceBelow(ns, vs, i + 1);
    var q := SumIsMultiple(ns, vs, i);
    DigitAt(q, ns[i], Tail(ns, i + 1), vs[i], Place(ns, vs, i + 1), Place(ns, vs, 0));
  }

  lemma DigitAt(q: nat, n: nat, t: nat, v: nat, rest: nat, p: nat)
    requires v < n && rest < t && p == q * (n * t) + (v * t + rest)
    ensures p / t % n == v
  {
    OneLevel(q, n, t, v);
    QuotientIs(p, t, q * n + v);
    QuotientIs(q * n + v, n, q);
  }

  // Partial sums stay below the number of colours.
  lemma SumBelow(ns: seq<nat>, vs: seq<nat>, m: nat)
    requires Choice(ns, vs) && m <= |ns|
    ensures Sum(ns, vs, m) < Tail(ns, 0)
  {
    SumAndPlace(ns, vs, m);
    PlaceBelow(ns, vs, 0);
  }

  // ---- select_ncolors ----

  function Power(b: nat, e: nat): nat {
    if e == 0 then 1 else b * Power(b, e - 1)
  }

  lemma {:induction false} PowerGrows(b: nat, e: nat)
    requires b >= 1
    ensures Power(b, e) >= 1 && (e >= 1 ==> Power(b, e) >= b)
  {
    if e > 0 {
      PowerGrows(b, e - 1);
      ProductAtLeast(b, Power(b, e - 1));
    }
  }

  lemma {:induction false} PowerMonotone(a: nat, b: nat, e: nat)
    requires a <= b
    ensures Power(a, e) <= Power(b, e)
  {
    if e > 0 {
      PowerMonotone(a, b, e - 1);
      ProductMonotone(a, Power(a, e - 1), Power(b, e - 1));
      ProductMonotone(Power(b, e - 1), a, b);
    }
  }

  lemma {:induction false} EqualCounts(ns: seq<nat>, b: nat, i: nat)
    requires Counts(ns) && i <= |ns| && forall k | 0 <= k < |ns| :: ns[k] == b
    ensures Tail(ns, i) == Power(b, |ns| - i)
    decreases |ns| - i
  {
    if i < |ns| {
      EqualCounts(ns, b, i + 1);
    }
  }

  // The total with one more value for component j.
  lemma {:induction false} OneMoreValue(ns: seq<nat>, j: nat, i: nat)
    requires Counts(ns) && i <= |ns| && j < |ns|
    ensures Counts(ns[j := ns[j] + 1])
    ensures i > j ==> Tail(ns[j := ns[j] + 1], i) == Tail(ns, i)
    ensures i <= j ==> Tail(ns[j := ns[j] + 1], i) == Tail(ns, i) / ns[j] * (ns[j] + 1) && Tail(ns, i) % ns[j] == 0
    decreases |ns| - i
  {
    if i < |ns| {
      OneMoreValue(ns, j, i + 1);
      var t := Tail(ns, i + 1);
      if i == j {
        QuotientIs(ns[j] * t, ns[j], t);
      } else if i < j {
        ScaledQuotient(ns[i], t, ns[j]);
        OneLevelUp(ns[i], t / ns[j], ns[j] + 1);
      }
    }
  }

  lemma ScaledQuotient(a: nat, t: nat, n: nat)
    requires n > 0 && t % n == 0
    ensures (a * t) / n == a * (t / n) && (a * t) % n == 0
  {
    DivMod(t, n);
    ProductAssoc(a, n, t / n);
    QuotientIs(a * t, n, a * (t / n));
  }

  lemma OneLevelUp(a: nat, b: nat, c: nat)
    ensures a * (b * c) == (a * b) * c
  {}

  // iroot: the largest number of values every component can have.
  method FindRoot(nc: nat, maxColors: nat) returns (iroot: nat)
    requires nc >= 1
    ensures iroot >= 1 && maxColors < Power(iroot + 1, nc) && (iroot == 1 || Power(iroot, nc) <= maxColors)
  {
    var more := true;
    iroot := 1;
    while more
      invariant iroot >= 1 && (more ==> iroot == 1 || Power(iroot, nc) <= maxColors)
      invariant !more ==> iroot >= 2 && maxColors < Power(iroot, nc)
      invariant !more ==> iroot == 2 || Power(iroot - 1, nc) <= maxColors
      decreases more, maxColors + 1 - iroot
    {
      PowerGrows(iroot, nc);
      iroot := iroot + 1;
      var temp := iroot;
      assert Power(iroot, 1) == iroot * Power(iroot, 0) == iroot;
      for i := 1 to nc
        invariant temp == Power(iroot, i)
      {
        temp := temp * iroot;
      }
      PowerGrows(iroot, nc);
      more := temp <= maxColors;
    }
    iroot := iroot - 1;
  }

  // One pass over the components: more values for each in turn, until one does not fit.
  method Increment(nc: nat, maxColors: nat, rgb: bool, before: seq<nat>, total0: nat)
    returns (ns: seq<nat>, total: nat, changed: bool)
    requires |before| == nc >= 1 && Counts(before) && total0 == Tail(before, 0) <= maxColors && (rgb ==> nc == 3)
    ensures |ns| == nc && Counts(ns) && total == Tail(ns, 0) <= maxColors
    ensures changed ==> total > total0
    ensures !changed ==> ns == before && total0 / ns[First(rgb)] * (ns[First(rgb)] + 1) > maxColors
    ensures forall i | 0 <= i < nc :: ns[i] >= before[i]
  {
    hide Tail;
    ns, total, changed := before, total0, false;
    for i := 0 to nc
      invariant |ns| == nc && Counts(ns) && total == Tail(ns, 0) <= maxColors
      invariant i > 0 ==> changed && total > total0
      invariant i == 0 ==> !changed && ns == before && total == total0
      invariant forall k | 0 <= k < nc :: ns[k] >= before[k]
    {
      var j := if rgb then RGB_ORDER[i] else i;
      OneMoreValue(ns, j, 0);
      var temp := total / ns[j];
      Larger(total, ns[j], temp);
      temp := temp * (ns[j] + 1);
      if temp > maxColors {
        return;
      }
      ns := ns[j := ns[j] + 1];
      total := temp;
      changed := true;
    }
  }

  function First(rgb: bool): nat {
    if rgb then RGB_ORDER[0] else 0
  }

  lemma Larger(total: nat, n: nat, q: nat)
    requires n > 0 && total > 0 && total % n == 0 && q == total / n
    ensures q * (n + 1) > total
  {
    DivMod(total, n);
  }

  // select_ncolors.  It fails exactly if two values per component are too many.
  method SelectNColors(nc: nat, maxColors: nat, rgb: bool) returns (ok: bool, ns: seq<nat>, total: nat)
    requires nc >= 1 && (rgb ==> nc == 3)
    ensures ok <==> Power(2, nc) <= maxColors
    ensures ok ==> |ns| == nc && Counts(ns) && total == Tail(ns, 0) <= maxColors
    // All components get as many values as they can all have, and the first could not have more.
    ensures ok ==> forall i, b: nat | 0 <= i < nc && Power(b, nc) <= maxColors :: ns[i] >= b
    ensures ok ==> total / ns[First(rgb)] * (ns[First(rgb)] + 1) > maxColors
  {
    hide Tail;
    var iroot := FindRoot(nc, maxColors);
    PowerMonotone(2, if iroot >= 2 then iroot else 2, nc);
    ok, ns, total := iroot >= 2, seq(nc, i => iroot), 1;
    if !ok {
      return;
    }
    total := PowerByProduct(iroot, nc);
    EqualCounts(ns, iroot, 0);
    var changed := true;
    while changed
      invariant |ns| == nc && Counts(ns) && total == Tail(ns, 0) <= maxColors
      invariant forall i | 0 <= i < nc :: ns[i] >= iroot
      invariant !changed ==> total / ns[First(rgb)] * (ns[First(rgb)] + 1) > maxColors
      decreases changed, maxColors - total
    {
      ns, total, changed := Increment(nc, maxColors, rgb, ns, total);
    }
    forall i, b: nat | 0 <= i < nc && Power(b, nc) <= maxColors
      ensures ns[i] >= b
    {
      if b > iroot {
        PowerMonotone(iroot + 1, b, nc);
      }
    }
  }

  method PowerByProduct(b: nat, e: nat) returns (p: nat)
    ensures p == Power(b, e)
  {
    p := 1;
    for i := 0 to e
      invariant p == Power(b, i)
    {
      p := p * b;
    }
  }

  // ---- create_colormap ----

  function OutputValue(j: nat, maxj: nat): (v: Sample)
    requires j <= maxj && maxj > 0
  {
    ValueInRange(j, maxj);
    (j * 255 + maxj / 2) / maxj
  }

  lemma ValueInRange(j: nat, maxj: nat)
    requires j <= maxj && maxj > 0
    ensures 0 <= (j * 255 + maxj / 2) / maxj <= 255
  {
    DivMod(j * 255 + maxj / 2, maxj);
    if (j * 255 + maxj / 2) / maxj >= 256 {
      ProductMonotone(maxj, 256, (j * 255 + maxj / 2) / maxj);
    }
  }

  // The values are spread evenly: each is the integer nearest to its share of the range, from 0 up
  // to 255.
  lemma ValuesSpread(j: nat, maxj: nat)
    requires j <= maxj && maxj > 0
    ensures -(maxj as int) <= 2 * (maxj * OutputValue(j, maxj) - 255 * j) <= maxj
    ensures OutputValue(0, maxj) == 0 && OutputValue(maxj, maxj) == 255
  {
    DivMod(j * 255 + maxj / 2, maxj);
    QuotientIs(maxj / 2, maxj, 0);
    QuotientIs(maxj * 255 + maxj / 2, maxj, 255);
  }

  // Entry p of the map, for component i.
  function MapValue(ns: seq<nat>, p: nat, i: nat): Sample
    requires Counts(ns) && i < |ns|
  {
    OutputValue(Digit(ns, p, i), ns[i] - 1)
  }

  // In the row of component i, entries with value number below j are right, and of those with
  // number j the ones before ptr.
  ghost predicate Filled(row: seq<Sample>, ns: seq<nat>, i: nat, j: nat, ptr: nat)
    requires Counts(ns) && i < |ns| && |row| == Tail(ns, 0)
  {
    forall p | 0 <= p < |row| && (Digit(ns, p, i) < j || (Digit(ns, p, i) == j && p < ptr)) ::
      row[p] == MapValue(ns, p, i)
  }

  // Position r from the beginning of block j in group g, of n blocks of t entries each.
  lemma InBlock(n: nat, t: nat, g: nat, j: nat, r: nat, p: nat)
    requires t > 0 && j < n && r < n * t && p == g * (n * t) + j * t + r
    ensures p / t % n == j <==> r < t
  {
    OneLevel(g, n, t, j);
    ShiftQuotient(r, t, g * n + j);
    QuotientBelow(n, t, r);
    Residue(n, g, j, r / t);
    if r < t {
      QuotientIs(r, t, 0);
    } else {
      QuotientPositive(r, t);
    }
  }

  lemma QuotientBelow(n: nat, t: nat, r: nat)
    requires t > 0 && r < n * t
    ensures r / t < n
  {
    var q := r / t;
    DivMod(r, t);
    if q >= n {
      ProductMonotone(t, n, q);
    }
  }

  lemma QuotientPositive(r: nat, t: nat)
    requires 0 < t <= r
    ensures r / t > 0
  {
    DivMod(r, t);
  }

  lemma Residue(n: nat, g: nat, j: nat, m: nat)
    requires j < n && m < n
    ensures (m + (g * n + j)) % n == j <==> m == 0
  {
    ShiftRemainder(j + m, n, g);
    if j + m < n {
      QuotientIs(j + m, n, 0);
    } else {
      QuotientIs(j + m, n, 1);
    }
  }

  // The map consists of whole groups of every component.
  lemma {:induction false} Groups(ns: seq<nat>, i: nat) returns (g: nat)
    requires Counts(ns) && i <= |ns|
    ensures Tail(ns, 0) == g * Tail(ns, i)
  {
    if i == 0 {
      g := 1;
    } else {
      g := Groups(ns, i - 1);
      OneLevelUp(g, ns[i - 1], Tail(ns, i));
      g := g * ns[i - 1];
    }
  }

  // The innermost loop of create_colormap.
  method WriteBlock(row: array<Sample>, ptr: nat, blksize: nat, val: Sample)
    requires ptr + blksize <= row.Length
    modifies row
    ensures forall p | 0 <= p < row.Length :: row[p] == if ptr <= p < ptr + blksize then val else old(row[p])
  {
    for k := 0 to blksize
      invariant forall p | 0 <= p < row.Length :: row[p] == if ptr <= p < ptr + k then val else old(row[p])
    {
      row[ptr + k] := val;
    }
  }

  lemma NextBlock(before: seq<Sample>, after: seq<Sample>, ns: seq<nat>, i: nat, j: nat, g: nat, ptr: nat, val: Sample)
    requires Counts(ns) && i < |ns| && |before| == |after| == Tail(ns, 0) && j < ns[i]
        && val == OutputValue(j, ns[i] - 1)
    requires ptr == g * Tail(ns, i) + j * Tail(ns, i + 1)
    requires Filled(before, ns, i, j, ptr)
    requires forall p | 0 <= p < |before| :: after[p] == if ptr <= p < ptr + Tail(ns, i + 1) then val else before[p]
    ensures Filled(after, ns, i, j, ptr + Tail(ns, i))
  {
    hide Tail, MapValue, OutputValue, Digit;
    TailShrinks(ns, i);
    forall p | 0 <= p < |after| && (Digit(ns, p, i) < j || (Digit(ns, p, i) == j && p < ptr + Tail(ns, i)))
      ensures after[p] == MapValue(ns, p, i)
    {
      if ptr <= p < ptr + Tail(ns, i) {
        DigitInBlock(ns, i, g, j, ptr, p);
        ValueOfDigit(ns, p, i);
      }
    }
  }

  lemma TailShrinks(ns: seq<nat>, i: nat)
    requires Counts(ns) && i < |ns|
    ensures Tail(ns, i + 1) <= Tail(ns, i)
  {
    hide Tail;
    TailStep(ns, i);
    ProductAtLeast(Tail(ns, i + 1), ns[i]);
  }

  lemma DigitInBlock(ns: seq<nat>, i: nat, g: nat, j: nat, ptr: nat, p: nat)
    requires Counts(ns) && i < |ns| && j < ns[i] && ptr == g * Tail(ns, i) + j * Tail(ns, i + 1)
    requires ptr <= p < ptr + Tail(ns, i)
    ensures Digit(ns, p, i) == j <==> p < ptr + Tail(ns, i + 1)
  {
    hide Tail;
    TailStep(ns, i);
    InBlock(ns[i], Tail(ns, i + 1), g, j, p - ptr, p);
  }

  lemma ValueOfDigit(ns: seq<nat>, p: nat, i: nat)
    requires Counts(ns) && i < |ns|
    ensures MapValue(ns, p, i) == OutputValue(Digit(ns, p, i), ns[i] - 1)
  {}

  lemma NextGroup(g: nat, size: nat)
    ensures (g + 1) * size == g * size + size
  {}

  // A block of the last group ends inside the map.
  lemma BlockFits(n: nat, t: nat, g: nat, groups: nat, j: nat)
    requires j < n && t > 0
    ensures g * (n * t) + j * t < groups * (n * t) <==> g < groups
    ensures g < groups ==> g * (n * t) + j * t + t <= groups * (n * t)
  {
    ProductMonotone(t, j + 1, n);
    if g < groups {
      ProductMonotone(n * t, g + 1, groups);
    } else {
      ProductMonotone(n * t, groups, g);
    }
  }

  // One value of one component: a block in every group.
  method FillValue(row: array<Sample>, ghost ns: seq<nat>, ghost i: nat, j: nat, val: Sample, total: nat, blkdist: nat,
                   blksize: nat)
    requires Counts(ns) && i < |ns| && row.Length == total == Tail(ns, 0) && j < ns[i]
        && val == OutputValue(j, ns[i] - 1)
    requires blkdist == Tail(ns, i) && blksize == Tail(ns, i + 1) && Filled(row[..], ns, i, j, 0)
    modifies row
    ensures Filled(row[..], ns, i, j + 1, 0)
  {
    hide Filled, Tail;
    TailStep(ns, i);
    ghost var groups := Groups(ns, i);
    ghost var g: nat := 0;
    var ptr: nat := j * blksize;
    NoneBefore(row[..], ns, i, j, ptr);
    BlockFits(ns[i], blksize, 0, groups, j);
    while ptr < total
      invariant ptr == g * (ns[i] * blksize) + j * blksize && (ptr < total <==> g < groups)
      invariant Filled(row[..], ns, i, j, ptr)
      decreases groups - g
    {
      BlockFits(ns[i], blksize, g, groups, j);
      ghost var before := row[..];
      WriteBlock(row, ptr, blksize, val);
      NextBlock(before, row[..], ns, i, j, g, ptr, val);
      NextGroup(g, ns[i] * blksize);
      ptr := ptr + blkdist;
      g := g + 1;
      BlockFits(ns[i], blksize, g, groups, j);
    }
    AllOfValue(row[..], ns, i, j, ptr);
  }

  lemma TailStep(ns: seq<nat>, i: nat)
    requires Counts(ns) && i < |ns|
    ensures Tail(ns, i) == ns[i] * Tail(ns, i + 1)
  {}

  // No entry before the first block of value j has this value.
  lemma NoneBefore(row: seq<Sample>, ns: seq<nat>, i: nat, j: nat, ptr: nat)
    requires Counts(ns) && i < |ns| && |row| == Tail(ns, 0) && j < ns[i] && ptr == j * Tail(ns, i + 1)
    requires Filled(row, ns, i, j, 0)
    ensures Filled(row, ns, i, j, ptr)
  {
    forall p | 0 <= p < |row| && p < ptr
      ensures Digit(ns, p, i) < j
    {
      BeforeBlock(ns[i], Tail(ns, i + 1), j, p);
    }
  }

  lemma BeforeBlock(n: nat, t: nat, j: nat, p: nat)
    requires t > 0 && j < n && p < j * t
    ensures p / t % n < j
  {
    DivMod(p, t);
    if p / t >= j {
      ProductMonotone(t, j, p / t);
    }
    QuotientIs(p / t, n, 0);
  }

  lemma AllOfValue(row: seq<Sample>, ns: seq<nat>, i: nat, j: nat, ptr: nat)
    requires Counts(ns) && i < |ns| && |row| == Tail(ns, 0) <= ptr && Filled(row, ns, i, j, ptr)
    ensures Filled(row, ns, i, j + 1, 0)
  {}

  // One component of create_colormap.
  method FillComponent(ns: seq<nat>, i: nat, total: nat, blkdist: nat) returns (row: array<Sample>, blksize: nat)
    requires Counts(ns) && i < |ns| && total == Tail(ns, 0) && blkdist == Tail(ns, i)
    ensures fresh(row) && row.Length == total && blksize == Tail(ns, i + 1)
    ensures forall p | 0 <= p < total :: row[p] == MapValue(ns, p, i)
  {
    row := new Sample[total];
    var nci := ns[i];
    QuotientIs(nci * Tail(ns, i + 1), nci, Tail(ns, i + 1));
    blksize := blkdist / nci;
    for j := 0 to nci
      invariant Filled(row[..], ns, i, j, 0)
    {
      var val := OutputValue(j, nci - 1);
      FillValue(row, ns, i, j, val, total, blkdist, blksize);
    }
  }

  // create_colormap, once the numbers of values are chosen: the rows of the map.
  method CreateColormap(ns: seq<nat>, total: nat) returns (colormap: seq<seq<Sample>>)
    requires Counts(ns) && total == Tail(ns, 0)
    ensures MapOk(ns, colormap)
  {
    hide Tail;
    colormap := [];
    var blkdist := total;
    for i := 0 to |ns|
      invariant blkdist == Tail(ns, i) && |colormap| == i
      invariant forall k | 0 <= k < i :: |colormap[k]| == total && forall p | 0 <= p < total ::
          colormap[k][p] == MapValue(ns, p, k)
    {
      var row, blksize := FillComponent(ns, i, total, blkdist);
      colormap := colormap + [row[..]];
      blkdist := blksize;
    }
  }

  // Every entry holds the values of its combination.
  ghost predicate MapOk(ns: seq<nat>, colormap: seq<seq<Sample>>) {
    && Counts(ns) && |colormap| == |ns|
    && forall k | 0 <= k < |ns| ::
         |colormap[k]| == Tail(ns, 0) && forall p | 0 <= p < Tail(ns, 0) :: colormap[k][p] == MapValue(ns, p, k)
  }

  // ---- create_colorindex ----

  function LargestInput(j: nat, maxj: nat): nat
    requires maxj > 0
  {
    ((2 * j + 1) * 255 + maxj) / (2 * maxj)
  }

  // v is the value number create_colorindex assigns to sample x.
  predicate Chosen(x: nat, n: nat, v: nat)
    requires n >= 2
  {
    v < n && x <= LargestInput(v, n - 1) && (v > 0 ==> x > LargestInput(v - 1, n - 1))
  }

  // The chosen value is at most half a step, and half a sample for rounding, away: with the
  // values 255 * v / maxj, twice the distance is at most 255 / maxj + 1.
  lemma ChosenIsNear(x: nat, n: nat, v: nat)
    requires n >= 2 && x <= 255 && Chosen(x, n, v)
    ensures -(255 + (n - 1)) <= 2 * (x * (n - 1) - 255 * v) <= 255 + (n - 1)
  {
    hide LargestInput;
    var m: nat := n - 1;
    NotAbove(x, v, m);
    if v > 0 {
      NotBelow(x, v - 1, m);
    }
    HalfStep(x * m, v, m);
  }

  lemma NotAbove(x: nat, v: nat, m: nat)
    requires m > 0 && x <= LargestInput(v, m)
    ensures 2 * (x * m) <= (2 * v + 1) * 255 + m
  {
    InputBounds(v, m);
    hide LargestInput;
    ProductMonotone(2 * m, x, LargestInput(v, m));
    TwiceProduct(m, x);
  }

  lemma NotBelow(x: nat, v: nat, m: nat)
    requires m > 0 && x > LargestInput(v, m)
    ensures 2 * (x * m) > (2 * v + 1) * 255 + m
  {
    InputBounds(v, m);
    hide LargestInput;
    ProductMonotone(2 * m, LargestInput(v, m) + 1, x);
    TwiceProduct(m, x);
  }

  lemma HalfStep(t: nat, v: nat, m: nat)
    requires 2 * t <= (2 * v + 1) * 255 + m && (v > 0 ==> 2 * t > (2 * v - 1) * 255 + m)
    ensures -(255 + m) <= 2 * (t - 255 * v) <= 255 + m
  {}

  lemma InputBounds(j: nat, m: nat)
    requires m > 0
    ensures (2 * m) * LargestInput(j, m) <= (2 * j + 1) * 255 + m < (2 * m) * (LargestInput(j, m) + 1)
  {
    DivMod((2 * j + 1) * 255 + m, 2 * m);
  }

  lemma TwiceProduct(m: nat, x: nat)
    ensures 2 * (x * m) == (2 * m) * x
  {}

  lemma LastInput(n: nat)
    requires n >= 2
    ensures LargestInput(n - 1, n - 1) >= 255
  {
    var m: nat := n - 1;
    DivMod((2 * m + 1) * 255 + m, 2 * m);
    if LargestInput(m, m) < 255 {
      ProductMonotone(2 * m, LargestInput(m, m) + 1, 255);
    }
  }

  // A component's row of the index table.
  ghost predicate IndexOk(n: nat, blksize: nat, index: seq<nat>)
    requires n >= 2
  {
    |index| == 256 && forall x | 0 <= x < 256 :: Premultiplied(x, n, blksize, index[x])
  }

  ghost predicate Premultiplied(x: nat, n: nat, blksize: nat, code: nat)
    requires n >= 2
  {
    exists v: nat :: Chosen(x, n, v) && code == v * blksize
  }

  // One component of create_colorindex.
  method IndexComponent(n: nat, blksize: nat) returns (index: seq<nat>)
    requires n >= 2
    ensures IndexOk(n, blksize, index)
  {
    LastInput(n);
    hide LargestInput;
    index := [];
    var val: nat, k := 0, LargestInput(0, n - 1);
    for j := 0 to 256
      invariant |index| == j && val < n && k == LargestInput(val, n - 1)
      invariant val > 0 ==> j > 0 && j - 1 > LargestInput(val - 1, n - 1)
      invariant forall x | 0 <= x < j :: Premultiplied(x, n, blksize, index[x])
    {
      while j > k
        invariant val < n && k == LargestInput(val, n - 1)
        invariant val > 0 ==> j > LargestInput(val - 1, n - 1)
        decreases n - val
      {
        val := val + 1;
        k := LargestInput(val, n - 1);
      }
      assert Chosen(j, n, val);
      assert Premultiplied(j, n, blksize, val * blksize);
      index := index + [val * blksize];
    }
  }

  method CreateColorIndex(ns: seq<nat>, total: nat) returns (colorindex: seq<seq<nat>>)
    requires Counts(ns) && total == Tail(ns, 0)
    ensures |colorindex| == |ns| && forall i | 0 <= i < |ns| :: IndexOk(ns[i], Tail(ns, i + 1), colorindex[i])
  {
    hide Tail, IndexOk;
    colorindex := [];
    var blksize := total;
    for i := 0 to |ns|
      invariant blksize == Tail(ns, i) && |colorindex| == i
      invariant forall k | 0 <= k < i :: IndexOk(ns[k], Tail(ns, k + 1), colorindex[k])
    {
      TailStep(ns, i);
      QuotientIs(ns[i] * Tail(ns, i + 1), ns[i], Tail(ns, i + 1));
      blksize := blksize / ns[i];
      var index := IndexComponent(ns[i], blksize);
      colorindex := colorindex + [index];
    }
  }

  // ---- the output of the dither ----

  // The levels the dither works with are these tables, for at most 256 colours.
  ghost predicate FromTables(levels: seq<Levels>, ns: seq<nat>) {
    && Counts(ns) && |levels| == |ns| && Tail(ns, 0) <= MAX_COLORS
    && MapOk(ns, seq(|ns|, i requires 0 <= i < |ns| => levels[i].value))
    && forall i | 0 <= i < |ns| :: IndexOk(ns[i], Tail(ns, i + 1), levels[i].index)
  }

  // create_colormap and create_colorindex together.
  method MakeLevels(ns: seq<nat>, total: nat) returns (levels: seq<Levels>)
    requires Counts(ns) && total == Tail(ns, 0) <= MAX_COLORS
    ensures FromTables(levels, ns)
  {
    hide Tail, IndexOk;
    var colormap := CreateColormap(ns, total);
    var colorindex := CreateColorIndex(ns, total);
    levels := seq(|ns|, i requires 0 <= i < |ns| => Levels(colorindex[i], colormap[i]));
    assert seq(|ns|, i requires 0 <= i < |ns| => levels[i].value) == colormap;
  }

  // Values and codes of one component.
  lemma LevelFacts(levels: seq<Levels>, ns: seq<nat>, i: nat)
    requires FromTables(levels, ns) && i < |ns|
    ensures |levels[i].value| == Tail(ns, 0)
        && forall p | 0 <= p < Tail(ns, 0) :: levels[i].value[p] == MapValue(ns, p, i)
    ensures |levels[i].index| == 256
    ensures forall x: Sample :: Premultiplied(x, ns[i], Tail(ns, i + 1), levels[i].index[x])
  {
    hide Tail, MapValue, Premultiplied;
    var colormap := seq(|ns|, i requires 0 <= i < |ns| => levels[i].value);
    assert colormap[i] == levels[i].value;
  }

  // A premultiplied value number is a place in the map with that value of its component.
  lemma CodeInMap(ns: seq<nat>, i: nat, v: nat)
    requires Counts(ns) && i < |ns| && v < ns[i]
    ensures v * Tail(ns, i + 1) < Tail(ns, 0) && Digit(ns, v * Tail(ns, i + 1), i) == v
  {
    hide Tail;
    TailStep(ns, i);
    LevelBelow(ns[i], Tail(ns, i + 1), v, 0);
    TailBelowTotal(ns, i);
    DigitAt(0, ns[i], Tail(ns, i + 1), v, 0, v * Tail(ns, i + 1));
  }

  lemma {:induction false} TailBelowTotal(ns: seq<nat>, i: nat)
    requires Counts(ns) && i <= |ns|
    ensures Tail(ns, i) <= Tail(ns, 0)
  {
    if i > 0 {
      TailBelowTotal(ns, i - 1);
      TailShrinks(ns, i - 1);
    }
  }

  lemma TablesValid(levels: seq<Levels>, ns: seq<nat>)
    requires FromTables(levels, ns)
    ensures LevelsOk(levels)
  {
    hide Tail, FromTables, MapValue;
    assert |levels| == |ns| && Counts(ns) by { TableShape(levels, ns); }
    forall i | 0 <= i < |ns|
      ensures levels[i].Valid()
    {
      LevelFacts(levels, ns, i);
      forall x: Sample
        ensures levels[i].index[x] < |levels[i].value|
      {
        assert Premultiplied(x, ns[i], Tail(ns, i + 1), levels[i].index[x]);
        var v: nat :| Chosen(x, ns[i], v) && levels[i].index[x] == v * Tail(ns, i + 1);
        CodeInMap(ns, i, v);
      }
    }
  }

  lemma TableShape(levels: seq<Levels>, ns: seq<nat>)
    requires FromTables(levels, ns)
    ensures |levels| == |ns| && Counts(ns) && Tail(ns, 0) <= MAX_COLORS
  {}

  // Every code of a scan is picked for some sample.
  lemma {:induction false} DiffusePicks(q: Levels, pixels: seq<Sample>, errors: seq<int>, k: nat, m: nat)
    requires q.Valid() && |errors| == |pixels| && k <= |pixels| && Bounded(errors) && m < k
    ensures exists x: Sample :: Diffuse(q, pixels, errors, k).codes[m] == q.Pick(x)
  {
    if m < k - 1 {
      DiffusePicks(q, pixels, errors, k - 1, m);
    } else {
      var t := Diffuse(q, pixels, errors, k - 1);
      var x := Corrected(pixels[k - 1], t.cur[k]);
      assert Diffuse(q, pixels, errors, k).codes[m] == q.Pick(x);
    }
  }

  // A code of a dithered row is a premultiplied value number.
  lemma CodeIsChosen(levels: seq<Levels>, ns: seq<nat>, i: nat, plane: seq<Sample>, errors: seq<int>, odd: bool,
                     px: nat) returns (v: nat)
    requires FromTables(levels, ns) && i < |ns| && px < |plane| == |errors| && levels[i].Valid() && Bounded(errors)
    ensures v < ns[i] && RowCodes(levels[i], plane, errors, odd)[px] == v * Tail(ns, i + 1)
  {
    hide Tail, FromTables, MapValue, RowCodes, Bounded, Premultiplied;
    TableShape(levels, ns);
    LevelFacts(levels, ns, i);
    var x := CodePicked(levels[i], plane, errors, odd, px);
    v := ValueOfCode(x, ns[i], Tail(ns, i + 1), levels[i].index[x]);
  }

  lemma ValueOfCode(x: nat, n: nat, blksize: nat, code: nat) returns (v: nat)
    requires n >= 2 && Premultiplied(x, n, blksize, code)
    ensures v < n && code == v * blksize
  {
    v :| Chosen(x, n, v) && code == v * blksize;
  }

  // Codes come out in the order of the scan.
  lemma RowCodeAt(q: Levels, plane: seq<Sample>, errors: seq<int>, odd: bool, px: nat)
    requires q.Valid() && px < |plane| == |errors| && Bounded(errors)
    ensures Bounded(Turn(odd, errors))
    ensures RowCodes(q, plane, errors, odd)[px]
         == Diffuse(q, Turn(odd, plane), Turn(odd, errors), |plane|).codes[if odd then |plane| - 1 - px else px]
  {
    hide Diffuse, Bounded, Levels.Valid;
    TurnBounded(odd, errors);
  }

  lemma CodePicked(q: Levels, plane: seq<Sample>, errors: seq<int>, odd: bool, px: nat) returns (x: Sample)
    requires q.Valid() && px < |plane| == |errors| && Bounded(errors)
    ensures RowCodes(q, plane, errors, odd)[px] == q.index[x]
  {
    hide Diffuse, Bounded, RowCodes, Turn;
    var n := |plane|;
    TurnBounded(odd, errors);
    var m := if odd then n - 1 - px else px;
    RowCodeAt(q, plane, errors, odd, px);
    DiffusePicks(q, Turn(odd, plane), Turn(odd, errors), n, m);
    x :| Diffuse(q, Turn(odd, plane), Turn(odd, errors), n).codes[m] == q.Pick(x);
  }

  // The value numbers chosen for a pixel, component by component.
  ghost predicate Picks(levels: seq<Levels>, ns: seq<nat>, input: seq<seq<Sample>>, c: Carry, px: nat, vs: seq<nat>)
    requires LevelsOk(levels) && RowShape(input, |input|, |levels|) && c.Fits(|levels|, |input|) && px < |input|
    requires Counts(ns) && |ns| == |levels|
  {
    && |vs| <= |ns|
    && forall i | 0 <= i < |vs| ::
         vs[i] < ns[i] && RowCodes(levels[i], Plane(input, i), c.errors[i], c.odd)[px] == vs[i] * Tail(ns, i + 1)
  }

  lemma {:induction false} AllPicks(levels: seq<Levels>, ns: seq<nat>, input: seq<seq<Sample>>, c: Carry, px: nat,
                                    m: nat)
      returns (vs: seq<nat>)
    requires FromTables(levels, ns) && LevelsOk(levels) && m <= |ns|
    requires RowShape(input, |input|, |levels|) && c.Fits(|levels|, |input|) && px < |input|
    ensures Picks(levels, ns, input, c, px, vs) && |vs| == m
  {
    hide FromTables, RowCodes, Tail, Bounded;
    TableShape(levels, ns);
    if m == 0 {
      vs := [];
    } else {
      vs := AllPicks(levels, ns, input, c, px, m - 1);
      var v := CodeIsChosen(levels, ns, m - 1, Plane(input, m - 1), c.errors[m - 1], c.odd, px);
      vs := vs + [v];
    }
  }

  // Accumulated in eight bits, the codes give the sum: it stays below the number of colours.
  lemma {:induction false} OutputIsSum(levels: seq<Levels>, ns: seq<nat>, input: seq<seq<Sample>>, c: Carry, px: nat,
                                       vs: seq<nat>, m: nat)
    requires LevelsOk(levels) && Choice(ns, vs) && |ns| == |levels| && Tail(ns, 0) <= MAX_COLORS && m <= |ns|
    requires RowShape(input, |input|, |levels|) && c.Fits(|levels|, |input|) && px < |input|
    requires Picks(levels, ns, input, c, px, vs)
    ensures OutputRow(levels, input, c, m)[px] == Sum(ns, vs, m)
  {
    hide RowCodes, Tail, Bounded;
    if m > 0 {
      OutputIsSum(levels, ns, input, c, px, vs, m - 1);
      SumBelow(ns, vs, m);
    }
  }

  // What the dither writes is the index of a colour of the map: the one that has, in every component,
  // exactly the value the component's own code stands for.
  lemma OutputIsColor(levels: seq<Levels>, ns: seq<nat>, input: seq<seq<Sample>>, c: Carry, px: nat)
    requires FromTables(levels, ns) && LevelsOk(levels)
    requires RowShape(input, |input|, |levels|) && c.Fits(|levels|, |input|) && px < |input|
    ensures |levels| == |ns| && Counts(ns) && OutputRow(levels, input, c, |ns|)[px] < Tail(ns, 0)
    ensures forall i | 0 <= i < |ns| ::
      && |levels[i].value| == Tail(ns, 0)
      && RowCodes(levels[i], Plane(input, i), c.errors[i], c.odd)[px] < Tail(ns, 0)
      && levels[i].value[OutputRow(levels, input, c, |ns|)[px]]
         == levels[i].value[RowCodes(levels[i], Plane(input, i), c.errors[i], c.odd)[px]]
  {
    hide FromTables, RowCodes, Tail, Bounded, OutputRow, Sum, OutputValue, Digit;
    TableShape(levels, ns);
    var vs := AllPicks(levels, ns, input, c, px, |ns|);
    OutputIsSum(levels, ns, input, c, px, vs, |ns|);
    SumBelow(ns, vs, |ns|);
    forall i | 0 <= i < |ns|
      ensures |levels[i].value| == Tail(ns, 0)
      ensures RowCodes(levels[i], Plane(input, i), c.errors[i], c.odd)[px] < Tail(ns, 0)
      ensures levels[i].value[Sum(ns, vs, |ns|)]
          == levels[i].value[RowCodes(levels[i], Plane(input, i), c.errors[i], c.odd)[px]]
    {
      LevelFacts(levels, ns, i);
      SumFinds(ns, vs, i);
      CodeInMap(ns, i, vs[i]);
    }
  }
}
