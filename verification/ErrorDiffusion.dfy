/**
  Floyd-Steinberg dithering (quantize_fs_dither of jquant1.c).  The source keeps one row of
  errors and updates it in place, with three running registers, left to right and right to
  left in turn.  The reference scatters the errors over two rows, 7/16 to the next pixel and
  3/16, 5/16, 1/16 to the row below.
  */
module ErrorDiffusion {
  import opened Upsampling

  // One component's colour levels: index of a sample value, and the value of an index.
  datatype Levels = Levels(index: seq<nat>, value: seq<Sample>) {
    predicate Valid() {
      |index| == 256 && forall x: Sample :: index[x] < |value|
    }

    function Pick(x: Sample): nat
      requires Valid()
    {
      index[x]
    }

    function ErrorOf(x: Sample): (e: int)
      requires Valid()
      ensures -255 <= e <= 255
    {
      x - value[index[x]]
    }
  }

  // The sample with its correction: sixteenths, rounded, and limited to the sample range.
  function Corrected(x: Sample, sixteenths: int): Sample
    requires -16 * 255 <= sixteenths <= 16 * 255
  {
    RangeLimit(x + (sixteenths + 8) / 16)
  }

  // ---- the reference: two rows ----

  // Pixel number k of a scan (from 0) stands at place k + 1 of each row; the places 0 and
  // |pixels| + 1 are beside the image.
  datatype TwoRows = TwoRows(cur: seq<int>, next: seq<int>, codes: seq<nat>)

  // The state after the first k pixels of a scan have been dithered.
  function Diffuse(q: Levels, pixels: seq<Sample>, errors: seq<int>, k: nat): (t: TwoRows)
    requires q.Valid() && |errors| == |pixels| && k <= |pixels| && Bounded(errors)
    ensures |t.cur| == |t.next| == |pixels| + 2 && |t.codes| == k
    ensures k < |pixels| ==> Tame(t, errors, k)
  {
    if k == 0 then TwoRows([0] + errors + [0], seq(|pixels| + 2, i => 0), [])
    else
      var t := Diffuse(q, pixels, errors, k - 1);
      var x := Corrected(pixels[k - 1], t.cur[k]);
      var e := q.ErrorOf(x);
      TwoRows(t.cur[k + 1 := t.cur[k + 1] + 7 * e],
              t.next[k - 1 := t.next[k - 1] + 3 * e][k := t.next[k] + 5 * e][k + 1 := t.next[k + 1] + e],
              t.codes + [q.Pick(x)])
  }

  // Accumulated errors are at most nine times the largest sample value.
  predicate Bounded(errors: seq<int>) {
    forall i | 0 <= i < |errors| :: -9 * 255 <= errors[i] <= 9 * 255
  }

  // What the next pixel receives can be applied without leaving the range-limit table.
  predicate Tame(t: TwoRows, errors: seq<int>, k: nat)
    requires |t.cur| == |errors| + 2 && k < |errors|
  {
    && -7 * 255 <= t.cur[k + 1] - errors[k] <= 7 * 255
    && (forall j | k + 1 <= j < |errors| :: t.cur[j + 1] == errors[j])
  }

  // How large the errors of the row below have become.
  ghost predicate NextShape(next: seq<int>, k: nat)
    requires k + 1 < |next|
  {
    && (forall j | k + 1 < j < |next| :: next[j] == 0)
    && -255 <= next[k + 1] <= 255 && -6 * 255 <= next[k] <= 6 * 255
    && (forall j | 0 <= j < k :: -9 * 255 <= next[j] <= 9 * 255)
  }

  lemma {:induction false} DiffuseShape(q: Levels, pixels: seq<Sample>, errors: seq<int>, k: nat)
    requires q.Valid() && |errors| == |pixels| && k <= |pixels| && Bounded(errors)
    ensures NextShape(Diffuse(q, pixels, errors, k).next, k)
  {
    hide Corrected, Levels.ErrorOf, Tame, NextShape, Bounded;
    if k == 0 {
      NothingSpread(Diffuse(q, pixels, errors, 0).next);
    } else {
      DiffuseShape(q, pixels, errors, k - 1);
      var t := Diffuse(q, pixels, errors, k - 1);
      assert Tame(t, errors, k - 1);
      TameErrors(t, errors, k - 1);
      var x := Corrected(pixels[k - 1], t.cur[k]);
      SpreadShape(t.next, k, q.ErrorOf(x));
    }
  }

  lemma NothingSpread(next: seq<int>)
    requires |next| >= 2 && forall j | 0 <= j < |next| :: next[j] == 0
    ensures NextShape(next, 0)
  {}

  // The error of one pixel more.
  lemma SpreadShape(next: seq<int>, k: nat, e: int)
    requires 1 <= k && k + 1 < |next| && NextShape(next, k - 1) && -255 <= e <= 255
    ensures NextShape(next[k - 1 := next[k - 1] + 3 * e][k := next[k] + 5 * e][k + 1 := next[k + 1] + e], k)
  {}

  // ---- both directions, all components ----

  // A row in scan order; odd rows are scanned from right to left.
  function Turn<T>(odd: bool, s: seq<T>): (r: seq<T>)
    ensures |r| == |s| && forall i | 0 <= i < |s| :: r[i] == s[if odd then |s| - 1 - i else i]
  {
    if odd then seq(|s|, i requires 0 <= i < |s| => s[|s| - 1 - i]) else s
  }

  lemma TurnBounded(odd: bool, errors: seq<int>)
    requires Bounded(errors)
    ensures Bounded(Turn(odd, errors))
  {}

  // One component of one row: the codes and the errors for the row below, column by column.
  function ScatterRow(q: Levels, pixels: seq<Sample>, errors: seq<int>, odd: bool): (seq<nat>, seq<int>)
    requires q.Valid() && |errors| == |pixels| && Bounded(errors)
  {
    TurnBounded(odd, errors);
    var t := Diffuse(q, Turn(odd, pixels), Turn(odd, errors), |pixels|);
    (Turn(odd, t.codes), Turn(odd, t.next[1..|pixels| + 1]))
  }

  // The errors stay bounded from row to row.
  lemma ScatterBounded(q: Levels, pixels: seq<Sample>, errors: seq<int>, odd: bool)
    requires q.Valid() && |errors| == |pixels| && Bounded(errors)
    ensures |ScatterRow(q, pixels, errors, odd).0| == |ScatterRow(q, pixels, errors, odd).1| == |pixels|
    ensures Bounded(ScatterRow(q, pixels, errors, odd).1)
  {
    TurnBounded(odd, errors);
    var n := |pixels|;
    DiffuseShape(q, Turn(odd, pixels), Turn(odd, errors), n);
    var next := Diffuse(q, Turn(odd, pixels), Turn(odd, errors), n).next;
    assert Bounded(next[1..n + 1]);
    TurnBounded(odd, next[1..n + 1]);
  }

  // ---- what dithering a row means ----

  // An error at place i; beside the image there is none.
  function At(e: seq<int>, i: int): int {
    if 0 <= i < |e| then e[i] else 0
  }

  // x is the sample nearest to y sixteenths: rounded, halves upwards, or at an end of the range.
  predicate Rounds(x: Sample, y: int) {
    -8 <= y - 16 * x <= 7 || (x == 0 && y < 0) || (x == 255 && y > 16 * 255)
  }

  // Sixteenths of a sample in column c with what it receives: d is 1 in a scan from left to right,
  // -1 from right to left.
  function Received(plane: seq<Sample>, errors: seq<int>, e: seq<int>, d: int, c: int): int
    requires |errors| == |plane| && 0 <= c < |plane|
  {
    16 * plane[c] + errors[c] + 7 * At(e, c - d)
  }

  // The rule of Floyd and Steinberg for one component of a row, all columns at once: codes and
  // representation errors e of the pixels, and what the row below receives.
  ghost predicate FloydSteinberg(q: Levels, plane: seq<Sample>, errors: seq<int>, odd: bool, codes: seq<nat>,
                                 e: seq<int>, next: seq<int>)
    requires q.Valid()
  {
    var d := if odd then -1 else 1;
    && |plane| == |errors| == |codes| == |e| == |next|
    && (forall c | 0 <= c < |plane| :: PixelRule(q, plane, errors, d, codes, e, c))
    && (forall c | 0 <= c < |plane| :: next[c] == 5 * e[c] + 3 * At(e, c + d) + At(e, c - d))
  }

  // The value chosen for a pixel is the one of its corrected sample, and leaves the error.
  ghost predicate PixelRule(q: Levels, plane: seq<Sample>, errors: seq<int>, d: int, codes: seq<nat>, e: seq<int>,
                            c: nat)
    requires q.Valid() && |plane| == |errors| == |codes| == |e| && c < |plane|
  {
    Chosen(q, Received(plane, errors, e, d, c), codes[c], e[c])
  }

  ghost predicate Chosen(q: Levels, sixteenths: int, code: nat, e: int)
    requires q.Valid()
  {
    exists x: Sample :: Rounds(x, sixteenths) && code == q.index[x] && e == x - q.value[q.index[x]]
  }

  // A corrected sample is as near as a sample can be.
  lemma RoundsToNearest(x: Sample, y: int, t: Sample)
    requires Rounds(x, y)
    ensures Gap(y, 16 * x) <= Gap(y, 16 * t)
  {}

  lemma CorrectedRounds(x: Sample, sixteenths: int)
    requires -16 * 255 <= sixteenths <= 16 * 255
    ensures Rounds(Corrected(x, sixteenths), 16 * x + sixteenths)
  {}

  // The representation errors of the first k pixels of a scan.
  function ScanErrors(q: Levels, pixels: seq<Sample>, errors: seq<int>, k: nat): (e: seq<int>)
    requires q.Valid() && |errors| == |pixels| && k <= |pixels| && Bounded(errors)
    ensures |e| == k
  {
    if k == 0 then []
    else
      var t := Diffuse(q, pixels, errors, k - 1);
      TameErrors(t, errors, k - 1);
      ScanErrors(q, pixels, errors, k - 1) + [q.ErrorOf(Corrected(pixels[k - 1], t.cur[k]))]
  }

  // Scattering in scan order: what each place of the two rows has received so far.
  ghost predicate Spread(t: TwoRows, errors: seq<int>, e: seq<int>) {
    && |t.cur| == |t.next| == |errors| + 2 && |e| <= |errors|
    && (forall p | 0 <= p < |errors| :: t.cur[p + 1] == errors[p] + 7 * At(e, p - 1))
    && (forall p | 0 <= p < |errors| + 2 :: t.next[p] == 3 * At(e, p) + 5 * At(e, p - 1) + At(e, p - 2))
  }

  lemma ScanErrorsStep(q: Levels, pixels: seq<Sample>, errors: seq<int>, k: nat)
    requires q.Valid() && |errors| == |pixels| && k < |pixels| && Bounded(errors)
    ensures var t, e := Diffuse(q, pixels, errors, k), ScanErrors(q, pixels, errors, k + 1);
            && -16 * 255 <= t.cur[k + 1] <= 16 * 255
            && e == ScanErrors(q, pixels, errors, k) + [q.ErrorOf(Corrected(pixels[k], t.cur[k + 1]))]
  {
    hide Corrected, Levels.ErrorOf, Levels.Valid, Bounded, Diffuse;
    TameErrors(Diffuse(q, pixels, errors, k), errors, k);
  }

  lemma {:induction false} DiffuseSpreads(q: Levels, pixels: seq<Sample>, errors: seq<int>, k: nat)
    requires q.Valid() && |errors| == |pixels| && k <= |pixels| && Bounded(errors)
    ensures Spread(Diffuse(q, pixels, errors, k), errors, ScanErrors(q, pixels, errors, k))
  {
    hide Corrected, Levels.ErrorOf, Levels.Pick, Levels.Valid, Bounded, Diffuse, ScanErrors, Spread;
    if k == 0 {
      NothingScattered(q, pixels, errors);
    } else {
      DiffuseSpreads(q, pixels, errors, k - 1);
      StepFacts(q, pixels, errors, k - 1);
      ScanErrorsStep(q, pixels, errors, k - 1);
      var t, u := Diffuse(q, pixels, errors, k - 1), Diffuse(q, pixels, errors, k);
      SpreadStep(t, u, errors, ScanErrors(q, pixels, errors, k - 1),
        q.ErrorOf(Corrected(pixels[k - 1], t.cur[k])));
    }
  }

  lemma NothingScattered(q: Levels, pixels: seq<Sample>, errors: seq<int>)
    requires q.Valid() && |errors| == |pixels| && Bounded(errors)
    ensures Spread(Diffuse(q, pixels, errors, 0), errors, ScanErrors(q, pixels, errors, 0))
  {
    hide Levels.Valid, Bounded;
  }

  // Adding x to the entries from m on in these shares.
  lemma Added(s: seq<int>, m: nat, x: int, p: nat)
    requires m + 2 < |s| && p < |s|
    ensures s[m := s[m] + 3 * x][m + 1 := s[m + 1] + 5 * x][m + 2 := s[m + 2] + x][p]
            == s[p] + if p == m then 3 * x else if p == m + 1 then 5 * x else if p == m + 2 then x else 0
  {}

  lemma AtAppends(e: seq<int>, x: int, i: int)
    ensures At(e + [x], i) == if i == |e| then x else At(e, i)
  {}

  lemma SpreadStep(t: TwoRows, u: TwoRows, errors: seq<int>, e: seq<int>, x: int)
    requires Spread(t, errors, e) && |e| < |errors|
    requires u.cur == t.cur[|e| + 2 := t.cur[|e| + 2] + 7 * x]
    requires u.next == t.next[|e| := t.next[|e|] + 3 * x][|e| + 1 := t.next[|e| + 1] + 5 * x]
                             [|e| + 2 := t.next[|e| + 2] + x]
    ensures Spread(u, errors, e + [x])
  {
    hide At;
    var e' := e + [x];
    forall p | 0 <= p < |errors| ensures u.cur[p + 1] == errors[p] + 7 * At(e', p - 1) {
      AtAppends(e, x, p - 1);
      AtAppends(e, x, |e|);
      BeyondEnd(e, |e|);
    }
    forall p | 0 <= p < |errors| + 2 ensures u.next[p] == 3 * At(e', p) + 5 * At(e', p - 1) + At(e', p - 2) {
      Added(t.next, |e|, x, p);
      AtAppends(e, x, p);
      AtAppends(e, x, p - 1);
      AtAppends(e, x, p - 2);
      BeyondEnd(e, |e|);
    }
  }

  lemma BeyondEnd(e: seq<int>, i: int)
    requires i >= |e|
    ensures At(e, i) == 0
  {}

  // A scanned pixel follows the rule.
  lemma {:induction false} ScanFollows(q: Levels, pixels: seq<Sample>, errors: seq<int>, k: nat, c: nat)
    requires q.Valid() && |errors| == |pixels| && c < k <= |pixels| && Bounded(errors)
    ensures var e, codes := ScanErrors(q, pixels, errors, k), Diffuse(q, pixels, errors, k).codes;
            Chosen(q, 16 * pixels[c] + errors[c] + 7 * At(e, c - 1), codes[c], e[c])
    decreases k
  {
    hide Corrected, Bounded, Rounds, Diffuse, ScanErrors;
    StepFacts(q, pixels, errors, k - 1);
    ScanErrorsStep(q, pixels, errors, k - 1);
    if c == k - 1 {
      DiffuseSpreads(q, pixels, errors, k - 1);
      var t := Diffuse(q, pixels, errors, k - 1);
      CorrectedRounds(pixels[c], t.cur[k]);
    } else {
      ScanFollows(q, pixels, errors, k - 1, c);
    }
  }

  // The errors of a row by column.
  function RowErrors(q: Levels, plane: seq<Sample>, errors: seq<int>, odd: bool): (e: seq<int>)
    requires q.Valid() && |errors| == |plane| && Bounded(errors)
    ensures |e| == |plane|
  {
    TurnBounded(odd, errors);
    Turn(odd, ScanErrors(q, Turn(odd, plane), Turn(odd, errors), |plane|))
  }

  // Scattering pixel by pixel, in either direction, is the rule of Floyd and Steinberg.
  lemma ScatterFollows(q: Levels, plane: seq<Sample>, errors: seq<int>, odd: bool)
    requires q.Valid() && |errors| == |plane| && Bounded(errors)
    ensures var r := ScatterRow(q, plane, errors, odd);
            FloydSteinberg(q, plane, errors, odd, r.0, RowErrors(q, plane, errors, odd), r.1)
  {
    hide Diffuse, ScanErrors, Bounded, PixelRule, Levels.Valid, At, Spread, Tame;
    TurnBounded(odd, errors);
    var n, d := |plane|, if odd then -1 else 1;
    var pixels, scanned := Turn(odd, plane), Turn(odd, errors);
    var t, f := Diffuse(q, pixels, scanned, n), ScanErrors(q, pixels, scanned, n);
    var e := RowErrors(q, plane, errors, odd);
    DiffuseSpreads(q, pixels, scanned, n);
    forall c | 0 <= c < n
      ensures PixelRule(q, plane, errors, d, Turn(odd, t.codes), e, c)
    {
      var k := if odd then n - 1 - c else c;
      ScanFollows(q, pixels, scanned, n, k);
      TurnedPixel(q, plane, errors, odd, t.codes, f, c);
    }
    TurnedNext(t, scanned, f, odd);
  }

  lemma TurnedPixel(q: Levels, plane: seq<Sample>, errors: seq<int>, odd: bool, codes: seq<nat>, f: seq<int>, c: nat)
    requires q.Valid() && |errors| == |plane| == |codes| == |f| && c < |plane|
    requires var k := if odd then |plane| - 1 - c else c;
             Chosen(q, 16 * Turn(odd, plane)[k] + Turn(odd, errors)[k] + 7 * At(f, k - 1), codes[k], f[k])
    ensures PixelRule(q, plane, errors, if odd then -1 else 1, Turn(odd, codes), Turn(odd, f), c)
  {
    hide Chosen, At, Turn, Levels.Valid;
    var k := if odd then |plane| - 1 - c else c;
    TurnedAt(odd, f, c, 1);
    TurnAt(odd, plane, c);
    TurnAt(odd, errors, c);
    TurnAt(odd, codes, c);
    TurnAt(odd, f, c);
    assert Received(plane, errors, Turn(odd, f), if odd then -1 else 1, c)
        == 16 * Turn(odd, plane)[k] + Turn(odd, errors)[k] + 7 * At(f, k - 1);
  }

  lemma TurnAt<T>(odd: bool, s: seq<T>, c: nat)
    requires c < |s|
    ensures var k := if odd then |s| - 1 - c else c;
            0 <= k < |s| && |Turn(odd, s)| == |s| && Turn(odd, s)[k] == s[c] && Turn(odd, s)[c] == s[k]
  {}

  // A neighbour in the scan is a neighbour in the row.
  lemma TurnedAt(odd: bool, f: seq<int>, c: nat, i: int)
    requires c < |f|
    ensures var d, k := if odd then -1 else 1, if odd then |f| - 1 - c else c;
            At(Turn(odd, f), c - d * i) == At(f, k - i)
  {}

  lemma TurnedNext(t: TwoRows, scanned: seq<int>, f: seq<int>, odd: bool)
    requires Spread(t, scanned, f) && |f| == |scanned|
    ensures var d, e := if odd then -1 else 1, Turn(odd, f);
            forall c | 0 <= c < |f| ::
              Turn(odd, t.next[1..|f| + 1])[c] == 5 * e[c] + 3 * At(e, c + d) + At(e, c - d)
  {
    hide Turn, At, Spread;
    SpreadAt(t, scanned, f, 0);
    var d, e := if odd then -1 else 1, Turn(odd, f);
    forall c | 0 <= c < |f|
      ensures Turn(odd, t.next[1..|f| + 1])[c] == 5 * e[c] + 3 * At(e, c + d) + At(e, c - d)
    {
      TurnedNextAt(t, scanned, f, odd, c);
    }
  }

  lemma TurnedNextAt(t: TwoRows, scanned: seq<int>, f: seq<int>, odd: bool, c: nat)
    requires Spread(t, scanned, f) && |f| == |scanned| && c < |f|
    ensures var d, e := if odd then -1 else 1, Turn(odd, f);
            Turn(odd, t.next[1..|f| + 1])[c] == 5 * e[c] + 3 * At(e, c + d) + At(e, c - d)
  {
    hide Spread, Turn, At;
    var k := if odd then |f| - 1 - c else c;
    var d, e := if odd then -1 else 1, Turn(odd, f);
    TurnedAt(odd, f, c, 1);
    TurnedAt(odd, f, c, -1);
    assert At(e, c - d) == At(f, k - 1);
    assert c - d * -1 == c + d && At(e, c + d) == At(f, k + 1);
    SpreadAt(t, scanned, f, k + 1);
    TurnAt(odd, t.next[1..|f| + 1], c);
    TurnAt(odd, f, c);
    AtInside(f, k);
    assert t.next[1..|f| + 1][k] == t.next[k + 1];
  }

  lemma AtInside(f: seq<int>, k: nat)
    requires k < |f|
    ensures At(f, k) == f[k]
  {}

  lemma SpreadAt(t: TwoRows, errors: seq<int>, e: seq<int>, p: nat)
    requires Spread(t, errors, e) && p < |errors| + 2
    ensures |t.next| == |errors| + 2 && t.next[p] == 3 * At(e, p) + 5 * At(e, p - 1) + At(e, p - 2)
  {}

  // ---- no error is lost ----

  function Sum(s: seq<int>): int {
    if s == [] then 0 else Sum(s[..|s| - 1]) + s[|s| - 1]
  }

  lemma {:induction false} SumCombines(a: seq<int>, b: seq<int>, c: seq<int>, s: seq<int>, x: int, y: int, z: int)
    requires |a| == |b| == |c| == |s|
    requires forall i | 0 <= i < |s| :: s[i] == x * a[i] + y * b[i] + z * c[i]
    ensures Sum(s) == x * Sum(a) + y * Sum(b) + z * Sum(c)
  {
    if s != [] {
      var n := |s| - 1;
      SumCombines(a[..n], b[..n], c[..n], s[..n], x, y, z);
    }
  }

  // The errors shifted by one place: one of them falls out.
  function ShiftedBy(e: seq<int>, d: int): (r: seq<int>)
    ensures |r| == |e| && forall c | 0 <= c < |e| :: r[c] == At(e, c + d)
  {
    seq(|e|, c requires 0 <= c < |e| => At(e, c + d))
  }

  lemma OneTerm(x: int)
    ensures Sum([x]) == x
  {
    assert [x][..0] == [];
  }

  lemma {:induction false} SumOfShifted(e: seq<int>)
    requires |e| > 0
    ensures Sum(ShiftedBy(e, -1)) == Sum(e) - e[|e| - 1]
    ensures Sum(ShiftedBy(e, 1)) == Sum(e) - e[0]
  {
    var n := |e| - 1;
    if n > 0 {
      var front, up := e[..n], ShiftedBy(e, 1)[..n];
      SumOfShifted(front);
      assert ShiftedBy(e, -1)[..n] == ShiftedBy(front, -1);
      assert ShiftedBy(e, -1)[n] == e[n - 1] && ShiftedBy(e, 1)[n] == 0;
      assert up[..n - 1] == ShiftedBy(front, 1)[..n - 1];
      assert up[n - 1] == e[n] && ShiftedBy(front, 1)[n - 1] == 0;
      assert Sum(up) == Sum(ShiftedBy(front, 1)) + e[n];
    } else {
      assert ShiftedBy(e, -1)[0] == 0 && ShiftedBy(e, 1)[0] == 0;
      assert ShiftedBy(e, -1) == [0] && ShiftedBy(e, 1) == [0] && e == [e[0]];
      OneTerm(0);
      OneTerm(e[0]);
    }
  }

  function Values(q: Levels, codes: seq<nat>): (v: seq<int>)
    requires forall i | 0 <= i < |codes| :: codes[i] < |q.value|
    ensures |v| == |codes|
  {
    seq(|codes|, i requires 0 <= i < |codes| => q.value[codes[i]])
  }

  // What rounding to whole samples, or limiting to the sample range, takes off a pixel.
  function Slack(q: Levels, plane: seq<Sample>, errors: seq<int>, odd: bool, codes: seq<nat>, e: seq<int>):
      (r: seq<int>)
    requires |plane| == |errors| == |codes| == |e| && forall i | 0 <= i < |codes| :: codes[i] < |q.value|
    ensures |r| == |plane|
    ensures forall c | 0 <= c < |r| ::
              r[c] == Received(plane, errors, e, if odd then -1 else 1, c) - 16 * (e[c] + q.value[codes[c]])
  {
    var d := if odd then -1 else 1;
    seq(|plane|, c requires 0 <= c < |plane| =>
      Received(plane, errors, e, d, c) - 16 * (e[c] + q.value[codes[c]]))
  }

  // What the samples exceed the chosen values by, with the errors received, is handed on: to the
  // row below, beside the image, or lost in rounding, which takes less than a sixteenth of eight;
  // more only where a corrected sample leaves the range.
  lemma ErrorConserved(q: Levels, plane: seq<Sample>, errors: seq<int>, odd: bool, codes: seq<nat>, e: seq<int>,
                       next: seq<int>)
    requires q.Valid() && FloydSteinberg(q, plane, errors, odd, codes, e, next) && |plane| > 0
    ensures forall i | 0 <= i < |codes| :: codes[i] < |q.value|
    ensures var slack := Slack(q, plane, errors, odd, codes, e);
            var first, last := if odd then e[|e| - 1] else e[0], if odd then e[0] else e[|e| - 1];
            && 16 * (Sum(plane) - Sum(Values(q, codes))) + Sum(errors) == Sum(next) + 3 * first + 8 * last + Sum(slack)
            && forall c | 0 <= c < |plane| :: SlackOf(slack[c], e[c] + q.value[codes[c]])
  {
    hide PixelRule, Levels.Valid, SlackOf, Sum, Slack, FloydSteinberg, Values;
    CodesInRange(q, plane, errors, odd, codes, e, next);
    SumHandedOn(q, plane, errors, odd, codes, e, next);
    SumOfSlack(q, plane, errors, odd, codes, e);
    SumOfShifted(e);
  }

  lemma SumHandedOn(q: Levels, plane: seq<Sample>, errors: seq<int>, odd: bool, codes: seq<nat>, e: seq<int>,
                    next: seq<int>)
    requires q.Valid() && FloydSteinberg(q, plane, errors, odd, codes, e, next)
    ensures var d := if odd then -1 else 1;
            Sum(next) == 5 * Sum(e) + 3 * Sum(ShiftedBy(e, d)) + Sum(ShiftedBy(e, -d))
  {
    hide PixelRule, Levels.Valid, Sum, At;
    var d := if odd then -1 else 1;
    SumCombines(e, ShiftedBy(e, d), ShiftedBy(e, -d), next, 5, 3, 1);
  }

  lemma SumOfSlack(q: Levels, plane: seq<Sample>, errors: seq<int>, odd: bool, codes: seq<nat>, e: seq<int>)
    requires |plane| == |errors| == |codes| == |e| && forall i | 0 <= i < |codes| :: codes[i] < |q.value|
    ensures var d := if odd then -1 else 1;
            Sum(Slack(q, plane, errors, odd, codes, e))
            == 16 * (Sum(plane) - Sum(Values(q, codes)) - Sum(e)) + Sum(errors) + 7 * Sum(ShiftedBy(e, -d))
  {
    hide Sum, At;
    var d := if odd then -1 else 1;
    var slack := Slack(q, plane, errors, odd, codes, e);
    var rest := seq(|plane|, c requires 0 <= c < |plane| => plane[c] - q.value[codes[c]] - e[c]);
    SumCombines(plane, Values(q, codes), e, rest, 1, -1, -1);
    forall c | 0 <= c < |plane| ensures slack[c] == 16 * rest[c] + 1 * errors[c] + 7 * ShiftedBy(e, -d)[c] {
      assert ShiftedBy(e, -d)[c] == At(e, c - d);
      assert slack[c] == 16 * plane[c] + errors[c] + 7 * At(e, c - d) - 16 * (e[c] + q.value[codes[c]]);
    }
    SumCombines(rest, errors, ShiftedBy(e, -d), slack, 16, 1, 7);
  }

  // Rounding takes a remainder; limiting takes more, at an end of the range.
  predicate SlackOf(slack: int, x: int) {
    -8 <= slack <= 7 || (slack < 0 && x == 0) || (slack > 0 && x == 255)
  }

  lemma CodesInRange(q: Levels, plane: seq<Sample>, errors: seq<int>, odd: bool, codes: seq<nat>, e: seq<int>,
                     next: seq<int>)
    requires q.Valid() && FloydSteinberg(q, plane, errors, odd, codes, e, next)
    ensures |plane| == |errors| == |codes| == |e| && forall i | 0 <= i < |codes| :: codes[i] < |q.value|
    ensures forall c | 0 <= c < |plane| ::
              SlackOf(Slack(q, plane, errors, odd, codes, e)[c], e[c] + q.value[codes[c]])
  {
    var d := if odd then -1 else 1;
    forall c | 0 <= c < |plane|
      ensures codes[c] < |q.value|
      ensures SlackOf(Received(plane, errors, e, d, c) - 16 * (e[c] + q.value[codes[c]]), e[c] + q.value[codes[c]])
    {
      assert PixelRule(q, plane, errors, d, codes, e, c);
    }
  }

  // ---- the single row of the source ----

  // The column at place j of a scan (columns are numbered from 1).
  function Col(odd: bool, width: nat, j: int): int {
    if odd then width + 1 - j else j
  }

  // Between two pixels of a scan: row[] and the registers together hold what the two rows of the
  // reference hold.  Behind place k stand the errors for the row below, ahead of it those of this row.
  ghost predicate InPlace(row: seq<int>, before: seq<int>, t: TwoRows, odd: bool, width: nat, k: nat,
                          cur: int, belowerr: int, bpreverr: int)
  {
    && |row| == |before| == |t.cur| == |t.next| == width + 2 && k <= width
    && (k < width ==> cur + row[Col(odd, width, k + 1)] == t.cur[k + 1])
    && bpreverr == t.next[k] && belowerr == t.next[k + 1]
    && (forall j | 0 <= j < k :: row[Col(odd, width, j)] == t.next[j])
    && (forall j | k < j <= width + 1 :: row[Col(odd, width, j)] == before[Col(odd, width, j)])
  }

  // The errors of a component in scan order.
  function Scan(odd: bool, width: nat, row: seq<int>): (r: seq<int>)
    requires |row| == width + 2
    ensures |r| == width
  {
    Turn(odd, row[1..width + 1])
  }

  lemma ScanAt(odd: bool, width: nat, row: seq<int>, j: nat)
    requires |row| == width + 2 && j < width
    ensures Scan(odd, width, row)[j] == row[Col(odd, width, j + 1)]
  {}

  // The registers and the row after a pixel with error e.
  lemma Shifted(row: seq<int>, before: seq<int>, t: TwoRows, u: TwoRows, odd: bool, width: nat, k: nat,
                cur: int, belowerr: int, bpreverr: int, e: int)
    requires k < width && InPlace(row, before, t, odd, width, k, cur, belowerr, bpreverr)
    requires u.cur == t.cur[k + 2 := t.cur[k + 2] + 7 * e]
    requires u.next == t.next[k := t.next[k] + 3 * e][k + 1 := t.next[k + 1] + 5 * e][k + 2 := t.next[k + 2] + e]
    requires t.next[k + 2] == 0 && (k + 1 < width ==> t.cur[k + 2] == before[Col(odd, width, k + 2)])
    ensures InPlace(row[Col(odd, width, k) := bpreverr + 3 * e], before, u, odd, width, k + 1, 7 * e, e,
        belowerr + 5 * e)
  {
    var after := row[Col(odd, width, k) := bpreverr + 3 * e];
    ColDiffer(odd, width, k);
    hide Col;
    assert forall j | 0 <= j < k + 1 :: after[Col(odd, width, j)] == u.next[j];
  }

  lemma ColDiffer(odd: bool, width: nat, k: nat)
    requires k <= width + 1
    ensures forall j | 0 <= j <= width + 1 :: 0 <= Col(odd, width, j) <= width + 1
    ensures forall j | 0 <= j <= width + 1 && j != k :: Col(odd, width, j) != Col(odd, width, k)
  {}

  // One pixel: the registers after it.
  lemma InPlaceStep(q: Levels, pixels: seq<Sample>, row: seq<int>, before: seq<int>, odd: bool, k: nat,
                    cur: int, belowerr: int, bpreverr: int)
    requires q.Valid() && |before| == |pixels| + 2 && Bounded(Scan(odd, |pixels|, before)) && k < |pixels|
    requires InPlace(row, before, Diffuse(q, pixels, Scan(odd, |pixels|, before), k), odd, |pixels|, k, cur, belowerr,
        bpreverr)
    ensures |row| == |pixels| + 2 && -16 * 255 <= cur + row[Col(odd, |pixels|, k + 1)] <= 16 * 255
    ensures var x := Corrected(pixels[k], cur + row[Col(odd, |pixels|, k + 1)]);
            var e := q.ErrorOf(x);
            var t := Diffuse(q, pixels, Scan(odd, |pixels|, before), k + 1);
            && t.codes == Diffuse(q, pixels, Scan(odd, |pixels|, before), k).codes + [q.Pick(x)]
            && InPlace(row[Col(odd, |pixels|, k) := bpreverr + 3 * e], before, t, odd, |pixels|, k + 1, 7 * e, e,
              belowerr + 5 * e)
  {
    hide Corrected, Levels.ErrorOf, Scan, Turn, Levels.Pick, InPlace, Col, Diffuse, Tame, Bounded;
    var n := |pixels|;
    var errors := Scan(odd, n, before);
    var t, u := Diffuse(q, pixels, errors, k), Diffuse(q, pixels, errors, k + 1);
    StepFacts(q, pixels, errors, k);
    if k + 1 < n {
      ScanAt(odd, n, before, k + 1);
    }
    InPlaceHead(row, before, t, odd, n, k, cur, belowerr, bpreverr);
    Shifted(row, before, t, u, odd, n, k, cur, belowerr, bpreverr, q.ErrorOf(Corrected(pixels[k], t.cur[k + 1])));
  }

  // What one step of the reference does.
  lemma StepFacts(q: Levels, pixels: seq<Sample>, errors: seq<int>, k: nat)
    requires q.Valid() && |errors| == |pixels| && Bounded(errors) && k < |pixels|
    ensures var t, u := Diffuse(q, pixels, errors, k), Diffuse(q, pixels, errors, k + 1);
            && -16 * 255 <= t.cur[k + 1] <= 16 * 255 && t.next[k + 2] == 0
            && (k + 1 < |pixels| ==> t.cur[k + 2] == errors[k + 1])
            && var x := Corrected(pixels[k], t.cur[k + 1]);
               var e := q.ErrorOf(x);
               && u.cur == t.cur[k + 2 := t.cur[k + 2] + 7 * e]
               && u.next == t.next[k := t.next[k] + 3 * e][k + 1 := t.next[k + 1] + 5 * e][k + 2 := t.next[k + 2] + e]
               && u.codes == t.codes + [q.Pick(x)]
  {
    hide Corrected, Levels.ErrorOf, Levels.Pick, Bounded, Levels.Valid;
    DiffuseShape(q, pixels, errors, k);
    assert Tame(Diffuse(q, pixels, errors, k), errors, k);
    TameErrors(Diffuse(q, pixels, errors, k), errors, k);
  }

  lemma TameErrors(t: TwoRows, errors: seq<int>, k: nat)
    requires |t.cur| == |errors| + 2 && k < |errors| && Bounded(errors) && Tame(t, errors, k)
    ensures -16 * 255 <= t.cur[k + 1] <= 16 * 255
  {}

  lemma InPlaceHead(row: seq<int>, before: seq<int>, t: TwoRows, odd: bool, width: nat, k: nat,
                    cur: int, belowerr: int, bpreverr: int)
    requires k < width && InPlace(row, before, t, odd, width, k, cur, belowerr, bpreverr)
    ensures |row| == width + 2 && cur + row[Col(odd, width, k + 1)] == t.cur[k + 1]
  {}

  // A row's pixels, component by component.
  predicate RowShape(input: seq<seq<Sample>>, width: nat, nc: nat) {
    |input| == width && forall c | 0 <= c < width :: |input[c]| == nc
  }

  function Plane(input: seq<seq<Sample>>, ci: nat): (r: seq<Sample>)
    requires forall c | 0 <= c < |input| :: ci < |input[c]|
    ensures |r| == |input|
  {
    seq(|input|, c requires 0 <= c < |input| => input[c][ci])
  }

  // Output samples accumulate the components' codes, in eight bits.
  function AddCode(before: Sample, code: nat): Sample {
    (before + code) % 256
  }

  // ---- whole rows and images, by the two-row reference ----

  // Errors carried from row to row, for each component, and the direction of the next row.
  datatype Carry = Carry(errors: seq<seq<int>>, odd: bool) {
    predicate Fits(nc: nat, width: nat) {
      |errors| == nc && forall ci | 0 <= ci < nc :: |errors[ci]| == width && Bounded(errors[ci])
    }
  }

  ghost predicate LevelsOk(levels: seq<Levels>) {
    forall ci | 0 <= ci < |levels| :: levels[ci].Valid()
  }

  // The output row after the first m components.
  ghost function OutputRow(levels: seq<Levels>, input: seq<seq<Sample>>, c: Carry, m: nat): (r: seq<Sample>)
    requires LevelsOk(levels) && m <= |levels| && RowShape(input, |input|, |levels|) && c.Fits(|levels|, |input|)
    ensures |r| == |input|
  {
    if m == 0 then seq(|input|, i => 0)
    else
      var before := OutputRow(levels, input, c, m - 1);
      var codes := RowCodes(levels[m - 1], Plane(input, m - 1), c.errors[m - 1], c.odd);
      seq(|input|, i requires 0 <= i < |input| => AddCode(before[i], codes[i]))
  }

  // The codes of one component in a row.
  ghost function RowCodes(q: Levels, plane: seq<Sample>, errors: seq<int>, odd: bool): (codes: seq<nat>)
    requires q.Valid() && |errors| == |plane| && Bounded(errors)
    ensures |codes| == |plane|
  {
    ScatterBounded(q, plane, errors, odd);
    ScatterRow(q, plane, errors, odd).0
  }

  // What the row below receives; it is scanned the other way.
  ghost function NextCarry(levels: seq<Levels>, input: seq<seq<Sample>>, c: Carry): (d: Carry)
    requires LevelsOk(levels) && RowShape(input, |input|, |levels|) && c.Fits(|levels|, |input|)
    ensures d.Fits(|levels|, |input|)
  {
    NextFits(levels, input, c);
    Carry(seq(|levels|,
      ci requires 0 <= ci < |levels| => ScatterRow(levels[ci], Plane(input, ci), c.errors[ci], c.odd).1), !c.odd)
  }

  lemma NextFits(levels: seq<Levels>, input: seq<seq<Sample>>, c: Carry)
    requires LevelsOk(levels) && RowShape(input, |input|, |levels|) && c.Fits(|levels|, |input|)
    ensures forall ci | 0 <= ci < |levels| ::
              var next := ScatterRow(levels[ci], Plane(input, ci), c.errors[ci], c.odd).1;
              |next| == |input| && Bounded(next)
  {
    forall ci | 0 <= ci < |levels|
      ensures var next := ScatterRow(levels[ci], Plane(input, ci), c.errors[ci], c.odd).1;
              |next| == |input| && Bounded(next)
    {
      ScatterBounded(levels[ci], Plane(input, ci), c.errors[ci], c.odd);
    }
  }

  // Codes and representation errors of one component of a row.
  datatype Part = Part(codes: seq<nat>, e: seq<int>)

  // The codes of the first m components of a pixel, added up.
  function CodeSum(parts: seq<Part>, col: nat, m: nat): nat
    requires m <= |parts| && forall i | 0 <= i < |parts| :: col < |parts[i].codes|
  {
    if m == 0 then 0 else CodeSum(parts, col, m - 1) + parts[m - 1].codes[col]
  }

  // A row and what it hands on, when every component follows the rule of Floyd and Steinberg.
  ghost predicate RowDithers(levels: seq<Levels>, input: seq<seq<Sample>>, c: Carry, out: seq<Sample>, d: Carry)
    requires LevelsOk(levels) && RowShape(input, |input|, |levels|)
  {
    && d.odd == !c.odd && |c.errors| == |d.errors| == |levels|
    && exists parts: seq<Part> :: Dithered(levels, input, c, out, d, parts)
  }

  ghost predicate Dithered(levels: seq<Levels>, input: seq<seq<Sample>>, c: Carry, out: seq<Sample>, d: Carry,
                           parts: seq<Part>)
    requires LevelsOk(levels) && RowShape(input, |input|, |levels|) && |c.errors| == |d.errors| == |levels|
  {
    && |parts| == |levels| && |out| == |input| && (forall ci | 0 <= ci < |levels| :: |parts[ci].codes| == |input|)
    && (forall ci | 0 <= ci < |levels| ::
          FloydSteinberg(levels[ci], Plane(input, ci), c.errors[ci], c.odd, parts[ci].codes, parts[ci].e, d.errors[ci]))
    && forall col | 0 <= col < |input| :: out[col] == CodeSum(parts, col, |levels|) % 256
  }

  // Codes and errors by the two-row reference.
  ghost function RowPart(levels: seq<Levels>, input: seq<seq<Sample>>, c: Carry, ci: nat): (r: Part)
    requires LevelsOk(levels) && RowShape(input, |input|, |levels|) && c.Fits(|levels|, |input|) && ci < |levels|
    ensures |r.codes| == |input|
  {
    Part(RowCodes(levels[ci], Plane(input, ci), c.errors[ci], c.odd),
         RowErrors(levels[ci], Plane(input, ci), c.errors[ci], c.odd))
  }

  ghost function Parts(levels: seq<Levels>, input: seq<seq<Sample>>, c: Carry): (r: seq<Part>)
    requires LevelsOk(levels) && RowShape(input, |input|, |levels|) && c.Fits(|levels|, |input|)
    ensures |r| == |levels|
    ensures forall ci | 0 <= ci < |r| :: r[ci] == RowPart(levels, input, c, ci) && |r[ci].codes| == |input|
  {
    seq(|levels|, ci requires 0 <= ci < |levels| => RowPart(levels, input, c, ci))
  }

  lemma OutputStep(levels: seq<Levels>, input: seq<seq<Sample>>, c: Carry, m: nat, col: nat)
    requires LevelsOk(levels) && RowShape(input, |input|, |levels|) && c.Fits(|levels|, |input|)
    requires m < |levels| && col < |input|
    ensures OutputRow(levels, input, c, m + 1)[col]
         == AddCode(OutputRow(levels, input, c, m)[col], RowPart(levels, input, c, m).codes[col])
  {
    hide RowErrors, RowCodes, AddCode, Bounded, Levels.Valid, Plane;
  }

  lemma OutputBegins(levels: seq<Levels>, input: seq<seq<Sample>>, c: Carry, col: nat)
    requires LevelsOk(levels) && RowShape(input, |input|, |levels|) && c.Fits(|levels|, |input|) && col < |input|
    ensures OutputRow(levels, input, c, 0)[col] == 0
  {}

  lemma AddedCode(sum: nat, code: nat)
    ensures AddCode(sum % 256, code) == (sum + code) % 256
  {}

  lemma {:induction false} CodesAddUp(levels: seq<Levels>, input: seq<seq<Sample>>, c: Carry, m: nat, col: nat)
    requires LevelsOk(levels) && RowShape(input, |input|, |levels|) && c.Fits(|levels|, |input|)
    requires m <= |levels| && col < |input|
    ensures OutputRow(levels, input, c, m)[col] == CodeSum(Parts(levels, input, c), col, m) % 256
  {
    hide RowPart, Parts, OutputRow, AddCode;
    if m == 0 {
      OutputBegins(levels, input, c, col);
    } else {
      CodesAddUp(levels, input, c, m - 1, col);
      OutputStep(levels, input, c, m - 1, col);
      AddedCode(CodeSum(Parts(levels, input, c), col, m - 1), Parts(levels, input, c)[m - 1].codes[col]);
    }
  }

  lemma RowFollows(levels: seq<Levels>, input: seq<seq<Sample>>, c: Carry)
    requires LevelsOk(levels) && RowShape(input, |input|, |levels|) && c.Fits(|levels|, |input|)
    ensures RowDithers(levels, input, c, OutputRow(levels, input, c, |levels|), NextCarry(levels, input, c))
  {
    hide OutputRow, FloydSteinberg, CodeSum, Bounded, RowPart, Parts, ScatterRow;
    var parts := Parts(levels, input, c);
    forall col | 0 <= col < |input|
      ensures OutputRow(levels, input, c, |levels|)[col] == CodeSum(parts, col, |levels|) % 256
    {
      CodesAddUp(levels, input, c, |levels|, col);
    }
    forall ci | 0 <= ci < |levels|
      ensures FloydSteinberg(levels[ci], Plane(input, ci), c.errors[ci], c.odd, parts[ci].codes, parts[ci].e,
                             NextCarry(levels, input, c).errors[ci])
    {
      PartFollows(levels, input, c, ci);
    }
    assert Dithered(levels, input, c, OutputRow(levels, input, c, |levels|), NextCarry(levels, input, c), parts);
  }

  lemma PartFollows(levels: seq<Levels>, input: seq<seq<Sample>>, c: Carry, ci: nat)
    requires LevelsOk(levels) && RowShape(input, |input|, |levels|) && c.Fits(|levels|, |input|) && ci < |levels|
    ensures var part := RowPart(levels, input, c, ci);
            FloydSteinberg(levels[ci], Plane(input, ci), c.errors[ci], c.odd, part.codes, part.e,
                           NextCarry(levels, input, c).errors[ci])
  {
    hide FloydSteinberg, Bounded, Levels.Valid, Plane, RowErrors, ScatterRow;
    ScatterFollows(levels[ci], Plane(input, ci), c.errors[ci], c.odd);
  }

  // Some rows: their output and what the next row receives.
  ghost function DitherRows(levels: seq<Levels>, rows: seq<seq<seq<Sample>>>, width: nat,
                            c: Carry): (r: (seq<seq<Sample>>, Carry))
    requires LevelsOk(levels) && c.Fits(|levels|, width)
        && forall r | 0 <= r < |rows| :: RowShape(rows[r], width, |levels|)
    ensures r.1.Fits(|levels|, width)
    decreases |rows|
  {
    if rows == [] then ([], c)
    else
      var last := rows[|rows| - 1];
      var (out, d) := DitherRows(levels, rows[..|rows| - 1], width, c);
      assert RowShape(last, width, |levels|);
      (out + [OutputRow(levels, last, d, |levels|)], NextCarry(levels, last, d))
  }

  // A row of which the first m components have been dithered.
  ghost predicate RowUnderway(levels: seq<Levels>, input: seq<seq<Sample>>, c: Carry, m: nat, errors: seq<seq<int>>,
                              out: seq<Sample>)
    requires LevelsOk(levels) && m <= |levels| && RowShape(input, |input|, |levels|) && c.Fits(|levels|, |input|)
  {
    && |errors| == |levels| && out == OutputRow(levels, input, c, m)
    && (forall i | 0 <= i < m :: errors[i] == NextCarry(levels, input, c).errors[i])
    && (forall i | m <= i < |levels| :: errors[i] == c.errors[i])
  }

  lemma RowStep(levels: seq<Levels>, input: seq<seq<Sample>>, c: Carry, m: nat, errors: seq<seq<int>>, out: seq<Sample>,
                next: seq<int>, out': seq<Sample>)
    requires LevelsOk(levels) && m < |levels| && RowShape(input, |input|, |levels|) && c.Fits(|levels|, |input|)
    requires RowUnderway(levels, input, c, m, errors, out)
    requires RowDithered(levels[m], Plane(input, m), errors[m], c.odd, out, next, out')
    ensures RowUnderway(levels, input, c, m + 1, errors[m := next], out')
  {
    hide ScatterRow, Plane, AddCode, Bounded, Levels.Valid;
  }

  lemma RowBegins(levels: seq<Levels>, input: seq<seq<Sample>>, c: Carry, out: seq<Sample>)
    requires LevelsOk(levels) && RowShape(input, |input|, |levels|) && c.Fits(|levels|, |input|)
    requires |out| == |input| && forall i | 0 <= i < |out| :: out[i] == 0
    ensures RowUnderway(levels, input, c, 0, c.errors, out)
  {}

  lemma StillToDo(levels: seq<Levels>, input: seq<seq<Sample>>, c: Carry, m: nat, errors: seq<seq<int>>,
                  out: seq<Sample>)
    requires LevelsOk(levels) && m < |levels| && RowShape(input, |input|, |levels|) && c.Fits(|levels|, |input|)
    requires RowUnderway(levels, input, c, m, errors, out)
    ensures |errors| == |levels| && errors[m] == c.errors[m] && Bounded(errors[m])
  {}

  lemma RowEnds(levels: seq<Levels>, input: seq<seq<Sample>>, c: Carry, errors: seq<seq<int>>, out: seq<Sample>)
    requires LevelsOk(levels) && RowShape(input, |input|, |levels|) && c.Fits(|levels|, |input|)
    requires RowUnderway(levels, input, c, |levels|, errors, out)
    ensures Carry(errors, !c.odd) == NextCarry(levels, input, c) && out == OutputRow(levels, input, c, |levels|)
  {
    var next := NextCarry(levels, input, c);
    assert errors == next.errors;
  }

  class Ditherer {
    const width: nat
    const nc: nat
    const levels: seq<Levels>       // colorindex[] and sv_colormap[]
    const fserrors: array2<int>
    var onOddRow: bool

    ghost predicate Static() {
      && |levels| == nc && (forall ci | 0 <= ci < nc :: levels[ci].Valid())
      && fserrors.Length0 == nc && fserrors.Length1 == width + 2 && width >= 1
    }

    ghost function Row(ci: nat): (r: seq<int>)
      requires Static() && ci < nc
      reads fserrors
      ensures |r| == width + 2 && forall i | 0 <= i < width + 2 :: r[i] == fserrors[ci, i]
    {
      seq(width + 2, i requires 0 <= i < width + 2 reads fserrors => fserrors[ci, i])
    }

    // The errors carried into the next row, column by column.
    ghost function Errors(ci: nat): (r: seq<int>)
      requires Static() && ci < nc
      reads fserrors
      ensures |r| == width
    {
      Row(ci)[1..width + 1]
    }

    ghost predicate Valid()
      reads this, fserrors
    {
      Static() && forall ci | 0 <= ci < nc :: Bounded(Errors(ci))
    }

    // start_pass_1_quant for this dither mode: clear the errors, begin with an even row.
    constructor (width: nat, nc: nat, levels: seq<Levels>)
      requires width >= 1 && |levels| == nc && forall ci | 0 <= ci < nc :: levels[ci].Valid()
      ensures Valid() && this.width == width && this.nc == nc && this.levels == levels && !onOddRow && fresh(fserrors)
      ensures forall ci | 0 <= ci < nc :: Errors(ci) == seq(width, i => 0)
    {
      this.width, this.nc, this.levels := width, nc, levels;
      fserrors := new int[nc, width + 2]((_, _) => 0);
      onOddRow := false;
    }

    // One component of one row.
    method DitherComponent(ci: nat, input: seq<seq<Sample>>, out: array<Sample>)
      requires Static() && ci < nc && Bounded(Errors(ci)) && RowShape(input, width, nc) && out.Length == width
      modifies fserrors, out
      ensures RowDithered(levels[ci], Plane(input, ci), old(Errors(ci)), onOddRow, old(out[..]), Errors(ci), out[..])
      ensures forall i | 0 <= i < nc && i != ci :: Row(i) == old(Row(i))
    {
      hide Underway, Bounded, RowDithered, Plane, Scan, Levels.Valid;
      ghost var before, outBefore, q, plane := Row(ci), out[..], levels[ci], Plane(input, ci);
      var odd := onOddRow;
      var dir := if odd then -1 else 1;
      var pos := if odd then width + 1 else 0;
      var cur, belowerr, bpreverr := 0, 0, 0;
      Starts(q, plane, before, outBefore, odd);
      var k := 0;
      while k < width
        invariant 0 <= k <= width && pos == Col(odd, width, k)
        invariant Underway(q, plane, Row(ci), out[..], before, outBefore, odd, k, cur, belowerr, bpreverr)
        invariant forall i | 0 <= i < nc && i != ci :: Row(i) == old(Row(i))
      {
        pos, cur, belowerr, bpreverr :=
          DitherPixel(ci, input, out, k, pos, dir, cur, belowerr, bpreverr, before, outBefore);
        k := k + 1;
      }
      Ends(q, plane, Row(ci), out[..], before, outBefore, odd, cur, belowerr, bpreverr);
      Unload(ci, pos, bpreverr);
    }

    // The last register goes into the last entry of the row.
    method Unload(ci: nat, pos: int, bpreverr: int)
      requires Static() && ci < nc && 0 <= pos < width + 2
      modifies fserrors
      ensures Row(ci) == old(Row(ci))[pos := bpreverr]
      ensures forall i | 0 <= i < nc && i != ci :: Row(i) == old(Row(i))
    {
      fserrors[ci, pos] := bpreverr;
    }

    ghost function Now(): Carry
      requires Static()
      reads this, fserrors
    {
      Carry(AllErrors(), onOddRow)
    }

    ghost function AllErrors(): (r: seq<seq<int>>)
      requires Static()
      reads fserrors
      ensures |r| == nc && forall ci | 0 <= ci < nc :: r[ci] == Errors(ci)
    {
      seq(nc, ci requires 0 <= ci < nc reads fserrors => Errors(ci))
    }

    method DitherNext(ci: nat, input: seq<seq<Sample>>, out: array<Sample>, ghost c: Carry)
      requires Static() && ci < nc && RowShape(input, width, nc) && out.Length == width && c.Fits(nc, width)
          && onOddRow == c.odd
      requires RowUnderway(levels, input, c, ci, AllErrors(), out[..])
      modifies fserrors, out
      ensures RowUnderway(levels, input, c, ci + 1, AllErrors(), out[..])
    {
      hide RowUnderway, RowDithered, Bounded, Levels.Valid, Carry.Fits;
      ghost var errors, before := AllErrors(), out[..];
      StillToDo(levels, input, c, ci, errors, before);
      DitherComponent(ci, input, out);
      RowStep(levels, input, c, ci, errors, before, Errors(ci), out[..]);
      assert AllErrors() == errors[ci := Errors(ci)];
    }

    // One row of quantize_fs_dither.
    method DitherRow(input: seq<seq<Sample>>) returns (row: seq<Sample>)
      requires Valid() && RowShape(input, width, nc)
      modifies fserrors, this`onOddRow
      ensures Valid() && old(Now()).Fits(nc, width)
      ensures row == OutputRow(levels, input, old(Now()), nc) && Now() == NextCarry(levels, input, old(Now()))
      ensures LevelsOk(levels) && RowDithers(levels, input, old(Now()), row, Now())
    {
      hide RowUnderway, Bounded, OutputRow, NextCarry, Static, Valid, Row, Errors, AllErrors, Carry.Fits, LevelsOk;
      hide RowDithers;
      Fitting();
      ghost var c := Now();
      var out := new Sample[width](_ => 0);
      var ci := 0;
      RowBegins(levels, input, c, out[..]);
      while ci < nc
        invariant 0 <= ci <= nc && onOddRow == c.odd && c.Fits(nc, width)
        invariant RowUnderway(levels, input, c, ci, AllErrors(), out[..])
      {
        DitherNext(ci, input, out, c);
        ci := ci + 1;
      }
      RowEnds(levels, input, c, AllErrors(), out[..]);
      onOddRow := !onOddRow;
      row := out[..];
      Settled(NextCarry(levels, input, c));
      RowFollows(levels, input, c);
    }

    lemma Fitting()
      requires Valid()
      ensures Static() && Now().Fits(nc, width) && LevelsOk(levels) && |levels| == nc
    {}

    lemma Settled(d: Carry)
      requires Static() && AllErrors() == d.errors && d.Fits(nc, width)
      ensures Valid()
    {}

    // quantize_fs_dither: for any number of rows, what it computes in its single row of errors is
    // what scattering over two rows gives, and every row follows the rule of Floyd and Steinberg,
    // with the errors the row above has handed on.
    method QuantizeFsDither(rows: seq<seq<seq<Sample>>>) returns (out: seq<seq<Sample>>, ghost carries: seq<Carry>)
      requires Valid() && forall r | 0 <= r < |rows| :: RowShape(rows[r], width, nc)
      modifies fserrors, this`onOddRow
      ensures Valid() && old(Now()).Fits(nc, width)
      ensures (out, Now()) == DitherRows(levels, rows, width, old(Now()))
      ensures |carries| == |rows| + 1 && carries[0] == old(Now()) && carries[|rows|] == Now()
      ensures LevelsOk(levels) && |out| == |rows|
              && forall r | 0 <= r < |rows| :: RowDithers(levels, rows[r], carries[r], out[r], carries[r + 1])
    {
      hide Bounded, OutputRow, NextCarry, Static, Valid, Now, LevelsOk, RowDithers;
      Fitting();
      out, carries := [], [Now()];
      assert rows[..0] == [];
      for r := 0 to |rows|
        invariant Valid() && old(Now()).Fits(nc, width)
            && (out, Now()) == DitherRows(levels, rows[..r], width, old(Now()))
        invariant |carries| == r + 1 && carries[0] == old(Now()) && carries[r] == Now() && |out| == r
        invariant forall k | 0 <= k < r :: RowDithers(levels, rows[k], carries[k], out[k], carries[k + 1])
      {
        var row := DitherRow(rows[r]);
        assert rows[..r + 1][..r] == rows[..r] && rows[..r + 1][r] == rows[r];
        out, carries := out + [row], carries + [Now()];
      }
      assert rows[..|rows|] == rows;
    }

    // Choose a pixel's level: its code goes to the output, its representation error is returned.
    method PickLevel(ci: nat, input: seq<seq<Sample>>, out: array<Sample>, c: nat, sixteenths: int) returns (e: int)
      requires Static() && ci < nc && RowShape(input, width, nc) && out.Length == width && c < width
      requires -16 * 255 <= sixteenths <= 16 * 255
      modifies out
      ensures var x := Corrected(input[c][ci], sixteenths);
              e == levels[ci].ErrorOf(x) && out[..] == old(out[..])[c := AddCode(old(out[c]), levels[ci].Pick(x))]
    {
      var cur := (sixteenths + 8) / 16;
      cur := cur + input[c][ci];
      cur := RangeLimit(cur);
      var pixcode := levels[ci].index[cur];
      out[c] := AddCode(out[c], pixcode);
      e := cur - levels[ci].value[pixcode];
    }

    // Spread the error e of a pixel over the row and the registers.
    method Propagate(ci: nat, pos: int, e: int, belowerr: int, bpreverr: int)
      returns (cur': int, belowerr': int, bpreverr': int)
      requires Static() && ci < nc && 0 <= pos < width + 2
      modifies fserrors
      ensures cur' == 7 * e && belowerr' == e && bpreverr' == belowerr + 5 * e
      ensures Row(ci) == old(Row(ci))[pos := bpreverr + 3 * e]
      ensures forall i | 0 <= i < nc && i != ci :: Row(i) == old(Row(i))
    {
      cur' := e;
      var bnexterr, delta := cur', cur' * 2;
      cur' := cur' + delta;
      fserrors[ci, pos] := bpreverr + cur';
      cur' := cur' + delta;
      bpreverr' := belowerr + cur';
      belowerr' := bnexterr;
      cur' := cur' + delta;
    }

    // One pixel of the scan.
    method DitherPixel(ci: nat, input: seq<seq<Sample>>, out: array<Sample>, k: nat, pos: int, dir: int,
                       cur: int, belowerr: int, bpreverr: int, ghost before: seq<int>, ghost outBefore: seq<Sample>)
      returns (pos': int, cur': int, belowerr': int, bpreverr': int)
      requires Static() && ci < nc && RowShape(input, width, nc) && out.Length == width && k < width
      requires pos == Col(onOddRow, width, k) && dir == (if onOddRow then -1 else 1)
      requires |before| == width + 2 && Bounded(Scan(onOddRow, width, before))
      requires Underway(levels[ci], Plane(input, ci), Row(ci), out[..], before, outBefore, onOddRow, k, cur, belowerr,
          bpreverr)
      modifies fserrors, out
      ensures pos' == Col(onOddRow, width, k + 1)
      ensures Underway(levels[ci], Plane(input, ci), Row(ci), out[..], before, outBefore, onOddRow, k + 1, cur',
          belowerr', bpreverr')
      ensures forall i | 0 <= i < nc && i != ci :: Row(i) == old(Row(i))
    {
      hide Underway, Scan, Bounded, Corrected, Levels.ErrorOf, Levels.Pick, AddCode;
      var c := pos + dir - 1;
      Proceeds(levels[ci], Plane(input, ci), Row(ci), out[..], before, outBefore, onOddRow, k, cur, belowerr, bpreverr);
      var e := PickLevel(ci, input, out, c, cur + fserrors[ci, pos + dir]);
      cur', belowerr', bpreverr' := Propagate(ci, pos, e, belowerr, bpreverr);
      pos' := pos + dir;
    }
  }

  // The state between two pixels of a scan of one component.
  ghost predicate Underway(q: Levels, plane: seq<Sample>, row: seq<int>, out: seq<Sample>, before: seq<int>,
                           outBefore: seq<Sample>,
                           odd: bool, k: nat, cur: int, belowerr: int, bpreverr: int)
    requires q.Valid() && |before| == |plane| + 2 && k <= |plane| && Bounded(Scan(odd, |plane|, before))
  {
    var t := Diffuse(q, Turn(odd, plane), Scan(odd, |plane|, before), k);
    && InPlace(row, before, t, odd, |plane|, k, cur, belowerr, bpreverr)
    && CodesOut(out, outBefore, t.codes, odd, |plane|)
  }

  // After the scan, errors and output are those of the two-row reference.
  ghost predicate RowDithered(q: Levels, plane: seq<Sample>, errors: seq<int>, odd: bool, outBefore: seq<Sample>,
                              errors': seq<int>, out: seq<Sample>)
    requires q.Valid() && |errors| == |plane| && Bounded(errors)
  {
    var (codes, next) := ScatterRow(q, plane, errors, odd);
    && |codes| == |out| == |outBefore| == |plane| && errors' == next && Bounded(next)
    && forall c | 0 <= c < |plane| :: out[c] == AddCode(outBefore[c], codes[c])
  }

  lemma Starts(q: Levels, plane: seq<Sample>, before: seq<int>, outBefore: seq<Sample>, odd: bool)
    requires q.Valid() && |before| == |plane| + 2 && Bounded(before[1..|plane| + 1]) && |plane| == |outBefore| >= 1
    ensures Bounded(Scan(odd, |plane|, before))
    ensures Underway(q, plane, before, outBefore, before, outBefore, odd, 0, 0, 0, 0)
  {
    TurnBounded(odd, before[1..|plane| + 1]);
    StartInPlace(q, Turn(odd, plane), before, odd);
  }

  lemma Proceeds(q: Levels, plane: seq<Sample>, row: seq<int>, out: seq<Sample>, before: seq<int>,
                 outBefore: seq<Sample>,
                 odd: bool, k: nat, cur: int, belowerr: int, bpreverr: int)
    requires q.Valid() && |before| == |plane| + 2 && k < |plane| && Bounded(Scan(odd, |plane|, before))
    requires Underway(q, plane, row, out, before, outBefore, odd, k, cur, belowerr, bpreverr)
    ensures var c := Col(odd, |plane|, k + 1) - 1;
            && 0 <= c < |plane| == |out| && |row| == |plane| + 2 && -16 * 255 <= cur + row[c + 1] <= 16 * 255
            && var x := Corrected(plane[c], cur + row[c + 1]);
               var e := q.ErrorOf(x);
               Underway(q, plane, row[Col(odd, |plane|, k) := bpreverr + 3 * e], out[c := AddCode(out[c], q.Pick(x))],
                        before, outBefore, odd, k + 1, 7 * e, e, belowerr + 5 * e)
  {
    hide Diffuse, InPlace, CodesOut, Scan, Bounded, Levels.Valid, Corrected, Levels.ErrorOf, Levels.Pick, Turn, AddCode,
         Col;
    var pixels, errors := Turn(odd, plane), Scan(odd, |plane|, before);
    var c := Col(odd, |plane|, k + 1) - 1;
    PixelAt(odd, plane, k);
    var t := Diffuse(q, pixels, errors, k);
    Lengths(row, before, t, odd, |plane|, k, cur, belowerr, bpreverr, out, outBefore, t.codes);
    InPlaceStep(q, pixels, row, before, odd, k, cur, belowerr, bpreverr);
    CodesAppend(out, outBefore, t.codes, q.Pick(Corrected(pixels[k], cur + row[c + 1])), odd, |plane|);
  }

  lemma PixelAt(odd: bool, plane: seq<Sample>, k: nat)
    requires k < |plane|
    ensures var c := Col(odd, |plane|, k + 1) - 1;
            0 <= c < |plane| && Turn(odd, plane)[k] == plane[c] && |Turn(odd, plane)| == |plane|
  {}

  lemma Lengths(row: seq<int>, before: seq<int>, t: TwoRows, odd: bool, width: nat, k: nat, cur: int, belowerr: int,
                bpreverr: int,
                out: seq<Sample>, outBefore: seq<Sample>, codes: seq<nat>)
    requires InPlace(row, before, t, odd, width, k, cur, belowerr, bpreverr)
        && CodesOut(out, outBefore, codes, odd, width)
    ensures |row| == width + 2 && |out| == width
  {}

  lemma Ends(q: Levels, plane: seq<Sample>, row: seq<int>, out: seq<Sample>, before: seq<int>, outBefore: seq<Sample>,
             odd: bool, cur: int, belowerr: int, bpreverr: int)
    requires q.Valid() && |before| == |plane| + 2 && |plane| >= 1
    requires Bounded(before[1..|plane| + 1]) && Bounded(Scan(odd, |plane|, before))
    requires Underway(q, plane, row, out, before, outBefore, odd, |plane|, cur, belowerr, bpreverr)
    ensures |row| == |plane| + 2
    ensures var after := row[Col(odd, |plane|, |plane|) := bpreverr];
            RowDithered(q, plane, before[1..|plane| + 1], odd, outBefore, after[1..|plane| + 1], out)
  {
    var after := row[Col(odd, |plane|, |plane|) := bpreverr];
    var errors := before[1..|plane| + 1];
    ScatterBounded(q, plane, errors, odd);
    EndInPlace(q, plane, before, row, after, odd, cur, belowerr, bpreverr);
    CodesDone(q, plane, errors, out, outBefore, Diffuse(q, Turn(odd, plane), Scan(odd, |plane|, before), |plane|).codes,
      odd);
    hide Diffuse, Turn;
  }

  // The place (from 0) of a column (from 0) in a scan.
  function Place(odd: bool, width: nat, c: int): int {
    if odd then width - 1 - c else c
  }

  // The output row after some pixels of a scan: their codes have been added.
  ghost predicate CodesOut(out: seq<Sample>, before: seq<Sample>, codes: seq<nat>, odd: bool, width: nat) {
    && |out| == |before| == width && |codes| <= width
    && forall c | 0 <= c < width ::
         out[c] == if Place(odd, width, c) < |codes| then AddCode(before[c], codes[Place(odd, width, c)]) else before[c]
  }

  lemma CodesAppend(out: seq<Sample>, before: seq<Sample>, codes: seq<nat>, code: nat, odd: bool, width: nat)
    requires CodesOut(out, before, codes, odd, width) && |codes| < width
    ensures var c := Col(odd, width, |codes| + 1) - 1;
            CodesOut(out[c := AddCode(out[c], code)], before, codes + [code], odd, width)
  {}

  lemma StartInPlace(q: Levels, pixels: seq<Sample>, before: seq<int>, odd: bool)
    requires q.Valid() && |before| == |pixels| + 2 && Bounded(Scan(odd, |pixels|, before)) && |pixels| >= 1
    ensures InPlace(before, before, Diffuse(q, pixels, Scan(odd, |pixels|, before), 0), odd, |pixels|, 0, 0, 0, 0)
  {
    ScanAt(odd, |pixels|, before, 0);
  }

  lemma RowUnloaded(row: seq<int>, before: seq<int>, t: TwoRows, odd: bool, n: nat, cur: int, belowerr: int,
                    bpreverr: int)
    requires n >= 1 && InPlace(row, before, t, odd, n, n, cur, belowerr, bpreverr)
    ensures |row| == |t.next| == n + 2
    ensures var after := row[Col(odd, n, n) := bpreverr]; forall j | 0 <= j <= n :: after[Col(odd, n, j)] == t.next[j]
  {}

  // The last register unloaded, the row holds the errors for the row below.
  lemma EndInPlace(q: Levels, plane: seq<Sample>, before: seq<int>, row: seq<int>, after: seq<int>, odd: bool, cur: int,
                   belowerr: int, bpreverr: int)
    requires q.Valid() && |before| == |after| == |plane| + 2 && |plane| >= 1 && Bounded(before[1..|plane| + 1])
    requires Bounded(Scan(odd, |plane|, before))
    requires InPlace(row, before, Diffuse(q, Turn(odd, plane), Scan(odd, |plane|, before), |plane|), odd, |plane|,
        |plane|, cur, belowerr, bpreverr)
    requires after == row[Col(odd, |plane|, |plane|) := bpreverr]
    ensures after[1..|plane| + 1] == ScatterRow(q, plane, before[1..|plane| + 1], odd).1
  {
    hide Diffuse, Bounded, Levels.Valid, InPlace, Scan, Turn, ScatterRow;
    var n := |plane|;
    var t := Diffuse(q, Turn(odd, plane), Scan(odd, n, before), n);
    RowUnloaded(row, before, t, odd, n, cur, belowerr, bpreverr);
    TurnedRow(after, t.next, odd, n);
    ScatterIs(q, plane, before, odd);
  }

  lemma ScatterIs(q: Levels, plane: seq<Sample>, before: seq<int>, odd: bool)
    requires q.Valid() && |before| == |plane| + 2 && Bounded(before[1..|plane| + 1])
    requires Bounded(Scan(odd, |plane|, before))
    ensures ScatterRow(q, plane, before[1..|plane| + 1], odd).1 ==
              Turn(odd, Diffuse(q, Turn(odd, plane), Scan(odd, |plane|, before), |plane|).next[1..|plane| + 1])
  {
    hide Diffuse, Bounded, Levels.Valid, Turn;
    assert Scan(odd, |plane|, before) == Turn(odd, before[1..|plane| + 1]);
  }

  lemma TurnedRow(after: seq<int>, next: seq<int>, odd: bool, n: nat)
    requires |after| == |next| == n + 2 && forall j | 0 <= j <= n :: after[Col(odd, n, j)] == next[j]
    ensures after[1..n + 1] == Turn(odd, next[1..n + 1])
  {
    hide Col, Turn;
    var body, turned := after[1..n + 1], Turn(odd, next[1..n + 1]);
    forall c | 0 <= c < n ensures body[c] == turned[c] {
      var j := if odd then n - c else c + 1;
      ColumnAt(odd, n, c);
      assert turned[c] == next[1..n + 1][j - 1];
    }
  }

  lemma ColumnAt(odd: bool, n: nat, c: nat)
    requires c < n
    ensures Col(odd, n, if odd then n - c else c + 1) == c + 1
  {}

  lemma CodesDone(q: Levels, plane: seq<Sample>, errors: seq<int>, out: seq<Sample>, before: seq<Sample>,
                  codes: seq<nat>, odd: bool)
    requires |codes| == |plane| && CodesOut(out, before, codes, odd, |plane|)
    ensures forall c | 0 <= c < |plane| :: out[c] == AddCode(before[c], Turn(odd, codes)[c])
  {
    assert forall c | 0 <= c < |plane| :: Turn(odd, codes)[c] == codes[Place(odd, |plane|, c)];
  }
}
