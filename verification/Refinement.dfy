/**
  Successive-approximation refinement of AC coefficients (section G.1.2.3 of ITU-T T.81)
  as decode_mcu_AC_refine of jdphuff.c performs it: correction bits for coefficients that
  are already non-zero, and new coefficients of the bit being coded.

  The scan functions track the corrections in a block and the new coefficients in a list
  of their own, as the code does with newnz_pos[] so that it can undo them.
  */
module Refinement {
  import opened Arithmetic
  import opened BitStrings
  import opened HuffmanCode
  import opened Coefficients

  predicate IsCoef(c: int) {
    -0x8000 <= c < 0x8000
  }

  // The bit of weight p1 in the two's complement representation of c is clear.
  predicate BitClear(c: int, p1: nat)
    requires p1 > 0
  {
    c / p1 % 2 == 0
  }

  // Apply a correction bit of one, unless the bit is already there.
  function Correct(c: int, p1: nat): int
    requires p1 > 0
  {
    if BitClear(c, p1) then ToCoef(if c >= 0 then c + p1 else c - p1) else c
  }

  // Adding or subtracting the bit's weight flips the bit; the 16-bit wrap-around does not matter.
  lemma StepFlipsBit(c: int, p1: nat)
    requires p1 > 0 && BitClear(c, p1)
    ensures !BitClear(c + p1, p1) && !BitClear(c - p1, p1)
  {
    var q := c / p1;
    ShiftQuotient(c, p1, 1);
    ShiftQuotient(c, p1, -1);
    assert c + 1 * p1 == c + p1;
    assert c - 1 * p1 == c - p1;
    ParityChanges(q, (c + p1) / p1, 1);
    ParityChanges(q, (c - p1) / p1, -1);
  }

  lemma ParityChanges(q: int, q': int, step: int)
    requires q' == q + step
    ensures step % 2 == 0 ==> (q' % 2 == 0 <==> q % 2 == 0)
    ensures step == 1 || step == -1 ==> (q' % 2 == 0 <==> q % 2 != 0)
  {}

  lemma ToCoefWraps(x: int)
    requires -0x1_8000 <= x < 0x1_8000
    ensures ToCoef(x) == x || ToCoef(x) == x + 0x1_0000 || ToCoef(x) == x - 0x1_0000
  {}

  lemma WrapKeepsBit(x: int, p1: nat, even: nat)
    requires p1 > 0 && even % 2 == 0 && even * p1 == 0x1_0000
    ensures BitClear(x + 0x1_0000, p1) == BitClear(x, p1)
  {
    ShiftQuotient(x, p1, even);
    ParityChanges(x / p1, (x + 0x1_0000) / p1, even);
  }

  lemma ToCoefKeepsBit(x: int, p1: nat, h: nat)
    requires p1 > 0 && (2 * h) * p1 == 0x1_0000 && -0x1_8000 <= x < 0x1_8000
    ensures BitClear(ToCoef(x), p1) == BitClear(x, p1)
  {
    hide ToCoef;
    ToCoefWraps(x);
    WrapKeepsBit(x, p1, 2 * h);
    WrapKeepsBit(x - 0x1_0000, p1, 2 * h);
  }

  lemma ZeroIsClear(p1: nat)
    requires p1 > 0
    ensures BitClear(0, p1)
  {
    ShiftQuotient(0, p1, 0);
    assert 0 / p1 == 0;
  }

  // Correcting twice is correcting once, and a non-zero coefficient stays non-zero.
  lemma CorrectIdempotent(c: int, al: nat)
    requires al <= 13 && IsCoef(c) && c != 0
    ensures var p1 := Pow2(al);
            && Correct(Correct(c, p1), p1) == Correct(c, p1)
            && Correct(c, p1) != 0 && IsCoef(Correct(c, p1))
  {
    hide BitClear, Pow2;
    var p1, h := Pow2(al), Pow2(15 - al);
    Pow2Bound(al);
    Modulus(al);
    ZeroIsClear(p1);
    if BitClear(c, p1) {
      StepFlipsBit(c, p1);
      ToCoefKeepsBit(c + p1, p1, h);
      ToCoefKeepsBit(c - p1, p1, h);
    }
  }

  lemma Modulus(al: nat)
    requires al <= 13
    ensures (2 * Pow2(15 - al)) * Pow2(al) == 0x1_0000
  {
    Pow2Adds(al, 15 - al);
    Pow2Of15();
    Doubled(Pow2(15 - al), Pow2(al));
  }

  lemma Doubled(h: nat, p: nat)
    ensures (2 * h) * p == 2 * (p * h)
  {}

  lemma {:induction false} Pow2Bound(al: nat)
    requires al <= 13
    ensures 1 <= Pow2(al) <= 0x2000
  {
    Pow2Adds(al, 13 - al);
    assert Pow2(13) == 0x2000 by {
      Pow2Adds(7, 6);
      assert Pow2(7) == 128 && Pow2(6) == 64;
    }
    ProductAtLeast(Pow2(al), Pow2(13 - al));
  }

  lemma Pow2Of15()
    ensures Pow2(15) == 0x8000
  {
    Pow2Adds(8, 7);
    assert Pow2(8) == 256 && Pow2(7) == 128;
  }

  // On a coefficient refined so far down to the next bit, a correction raises the magnitude
  // by the bit's weight, which is what the standard asks for.
  lemma CorrectionRaisesMagnitude(c: int, al: nat)
    requires al <= 13 && c != 0 && c % (2 * Pow2(al)) == 0
    requires -0x8000 <= c - Pow2(al) && c + Pow2(al) < 0x8000
    ensures Correct(c, Pow2(al)) == if c > 0 then c + Pow2(al) else c - Pow2(al)
  {
    Pow2Bound(al);
    EvenQuotient(c, Pow2(al));
    hide BitClear, Pow2;
  }

  lemma EvenQuotient(c: int, p1: nat)
    requires p1 > 0 && c % (2 * p1) == 0
    ensures BitClear(c, p1)
  {
    DivMod(c, 2 * p1);
    var q := c / (2 * p1);
    assert c == 0 + (2 * q) * p1 by { Triple(p1, q); }
    ShiftQuotient(0, p1, 2 * q);
    assert 0 / p1 == 0;
  }

  lemma Triple(p: nat, q: int)
    ensures (2 * p) * q == (2 * q) * p
  {}

  // ---- the scans ----

  // A block lists 64 coefficients in natural order.
  predicate IsBlock(b: seq<int>) {
    |b| == DCTSIZE2 && forall i | 0 <= i < DCTSIZE2 :: IsCoef(b[i])
  }

  // Scan parameters: last coefficient of the band, and the bit position being coded.
  datatype Scan = Scan(se: nat, al: nat) {
    predicate Valid() {
      se < DCTSIZE2 && al <= 13
    }

    // A coefficient number, but no further than just past the band.
    function Cap(k: nat): nat {
      if k <= se then k else se + 1
    }

    function P1(): nat {
      Pow2(al)
    }
  }

  // Read the correction bit of non-zero coefficient k.
  function Fix(sc: Scan, s: seq<Bit>, pos: nat, k: nat, blk: seq<int>): (r: seq<int>)
    requires sc.Valid() && k < DCTSIZE2 && IsBlock(blk) && blk[NaturalOrder(k)] != 0
    ensures IsBlock(r)
  {
    FixFacts(sc, k, blk);
    if Value(s, pos, 1) == 1 then blk[NaturalOrder(k) := Correct(blk[NaturalOrder(k)], sc.P1())] else blk
  }

  ghost predicate SameZeros(a: seq<int>, b: seq<int>) {
    |a| == |b| && forall i | 0 <= i < |a| :: a[i] == 0 <==> b[i] == 0
  }

  // Equal at all coefficients before number k, or from number k on.
  ghost predicate Kept(k: nat, a: seq<int>, b: seq<int>) {
    |a| == |b| == DCTSIZE2 && forall i | 0 <= i < DCTSIZE2 && ZigZagNumber(i) < k :: a[i] == b[i]
  }

  ghost predicate Untouched(k: nat, a: seq<int>, b: seq<int>) {
    |a| == |b| == DCTSIZE2 && forall i | 0 <= i < DCTSIZE2 && ZigZagNumber(i) >= k :: a[i] == b[i]
  }

  lemma FixFacts(sc: Scan, k: nat, blk: seq<int>)
    requires sc.Valid() && k < DCTSIZE2 && IsBlock(blk) && blk[NaturalOrder(k)] != 0
    ensures sc.P1() > 0
    ensures var r := blk[NaturalOrder(k) := Correct(blk[NaturalOrder(k)], sc.P1())];
            IsBlock(r) && SameZeros(blk, r) && Kept(k, blk, r) && Untouched(k + 1, blk, r)
  {
    CorrectIdempotent(blk[NaturalOrder(k)], sc.al);
    OrderInverts(k);
    hide NaturalOrder, ZigZagNumber, Correct;
  }

  // Pass over non-zero coefficients, reading their correction bits, and over r zero ones;
  // stop at the next zero coefficient or past the band.
  datatype Skim = Skim(blk: seq<int>, pos: nat, k: nat)

  function Skip(sc: Scan, s: seq<Bit>, pos: nat, k: nat, r: nat, blk: seq<int>): (x: Skim)
    requires sc.Valid() && IsBlock(blk) && k <= sc.se + 1
    ensures k <= x.k <= sc.se + 1 && IsBlock(x.blk)
    decreases sc.se + 1 - k
  {
    if k > sc.se then Skim(blk, pos, k)
    else if blk[NaturalOrder(k)] != 0 then
      var fixed := Fix(sc, s, pos, k, blk);
      Skip(sc, s, pos + 1, k + 1, r, fixed)
    else if r == 0 then Skim(blk, pos, k)
    else Skip(sc, s, pos, k + 1, r - 1, blk)
  }

  // A coefficient that becomes non-zero in this scan.
  datatype New = New(index: Index, value: int)

  // One Huffman symbol of the band: an end-of-band run, or a zero run (with its correction
  // bits) that leads to a new coefficient or, for ZRL, to nothing.
  datatype Event = EndOfBand(pos: nat, eobrun: nat) | Run(skim: Skim, news: seq<New>)

  function NextEvent(t: Spec, sc: Scan, s: seq<Bit>, pos: nat, k: nat, blk: seq<int>): (e: Event)
    requires t.Shape() && t.Legal() && sc.Valid() && IsBlock(blk) && k <= sc.se
    ensures e.Run? ==> k <= e.skim.k <= sc.se + 1 && IsBlock(e.skim.blk)
    ensures e.EndOfBand? ==> e.eobrun > 0
  {
    var (len, sym) := t.Decode(s, pos);
    var r, n := sym / 16, sym % 16;
    if n == 0 && r != 15 then EndOfBand(pos + len + r, Pow2(r) + Value(s, pos + len, r))
    else if n == 0 then Run(Skip(sc, s, pos + len, k, r, blk), [])
    else
      var x := Skip(sc, s, pos + len + 1, k, r, blk);
      var v := if Value(s, pos + len, 1) == 1 then sc.P1() else 0 - sc.P1();
      Run(x, [New(NaturalOrder(x.k), ToCoef(v))])
  }

  // The coded part of the band: corrections, new coefficients, and the end-of-band run if one begins.
  datatype Band = Band(blk: seq<int>, news: seq<New>, pos: nat, eobrun: nat, k: nat)

  function BandScan(t: Spec, sc: Scan, s: seq<Bit>, pos: nat, k: nat, blk: seq<int>): (b: Band)
    requires t.Shape() && t.Legal() && sc.Valid() && IsBlock(blk) && k <= sc.se + 2
    ensures k <= b.k && IsBlock(b.blk)
    ensures b.eobrun > 0 ==> b.k <= sc.se
    decreases sc.se + 2 - k
  {
    if k > sc.se then Band(blk, [], pos, 0, k)
    else
      match NextEvent(t, sc, s, pos, k, blk)
      case EndOfBand(p, run) => Band(blk, [], p, run, k)
      case Run(x, news) =>
        var rest := BandScan(t, sc, s, x.pos, x.k + 1, x.blk);
        Band(rest.blk, news + rest.news, rest.pos, rest.eobrun, rest.k)
  }

  // Past the end of band: correction bits only.
  function TailScan(sc: Scan, s: seq<Bit>, pos: nat, k: nat, blk: seq<int>): (x: Skim)
    requires sc.Valid() && IsBlock(blk) && k <= sc.se + 1
    ensures x.k == sc.se + 1 && IsBlock(x.blk)
    decreases sc.se + 1 - k
  {
    if k > sc.se then Skim(blk, pos, k)
    else if blk[NaturalOrder(k)] != 0 then
      var fixed := Fix(sc, s, pos, k, blk);
      TailScan(sc, s, pos + 1, k + 1, fixed)
    else TailScan(sc, s, pos, k + 1, blk)
  }

  // One block: corrected coefficients, new coefficients, bits used, remaining end-of-band run.
  datatype Refined = Refined(blk: seq<int>, news: seq<New>, pos: nat, eobrun: nat)

  // From a band on: the end-of-band logic if a run is in progress.
  function Finish(sc: Scan, s: seq<Bit>, b: Band): Refined
    requires sc.Valid() && IsBlock(b.blk) && (b.eobrun > 0 ==> b.k <= sc.se + 1)
  {
    if b.eobrun > 0 then
      var x := TailScan(sc, s, b.pos, b.k, b.blk);
      Refined(x.blk, b.news, x.pos, b.eobrun - 1)
    else Refined(b.blk, b.news, b.pos, 0)
  }

  function Refine(t: Spec, sc: Scan, ss: nat, s: seq<Bit>, blk: seq<int>, eobrun: nat): Refined
    requires t.Shape() && t.Legal() && sc.Valid() && IsBlock(blk) && 1 <= ss <= sc.se
  {
    Finish(sc, s, if eobrun == 0 then BandScan(t, sc, s, 0, ss, blk) else Band(blk, [], 0, eobrun, ss))
  }

  // The block with its new coefficients put in.
  function Overlay(blk: seq<int>, news: seq<New>): (r: seq<int>)
    requires |blk| == DCTSIZE2
    ensures |r| == DCTSIZE2
    decreases |news|
  {
    if news == [] then blk
    else Overlay(blk, news[..|news| - 1])[news[|news| - 1].index := news[|news| - 1].value]
  }

  // ---- what the scans leave alone ----

  lemma FixKeeps(sc: Scan, s: seq<Bit>, pos: nat, k: nat, blk: seq<int>)
    requires sc.Valid() && k < DCTSIZE2 && IsBlock(blk) && blk[NaturalOrder(k)] != 0
    ensures var r := Fix(sc, s, pos, k, blk);
            SameZeros(blk, r) && Kept(k, blk, r) && Untouched(k + 1, blk, r)
  {
    hide NaturalOrder, ZigZagNumber, Correct, Value;
    FixFacts(sc, k, blk);
  }

  lemma KeepsCompose(k: nat, k1: nat, m: nat, m1: nat, a: seq<int>, b: seq<int>, c: seq<int>)
    requires SameZeros(a, b) && SameZeros(b, c)
    requires Kept(k, a, b) && Kept(k1, b, c) && k <= k1
    requires Untouched(m, a, b) && Untouched(m1, b, c) && m <= m1
    ensures SameZeros(a, c) && Kept(k, a, c) && Untouched(m1, a, c)
  {
    hide ZigZagNumber;
  }

  lemma {:induction false} SkipKeeps(sc: Scan, s: seq<Bit>, pos: nat, k: nat, r: nat, blk: seq<int>)
    requires sc.Valid() && IsBlock(blk) && k <= sc.se + 1
    ensures var x := Skip(sc, s, pos, k, r, blk);
            && SameZeros(blk, x.blk) && Kept(k, blk, x.blk) && Untouched(x.k, blk, x.blk)
            && (x.k <= sc.se ==> blk[NaturalOrder(x.k)] == 0)
    decreases sc.se + 1 - k
  {
    hide NaturalOrder, ZigZagNumber, Fix;
    if k <= sc.se {
      if blk[NaturalOrder(k)] != 0 {
        var fixed := Fix(sc, s, pos, k, blk);
        FixKeeps(sc, s, pos, k, blk);
        SkipKeeps(sc, s, pos + 1, k + 1, r, fixed);
        var x := Skip(sc, s, pos + 1, k + 1, r, fixed);
        KeepsCompose(k, k + 1, k + 1, x.k, blk, fixed, x.blk);
      } else if r > 0 {
        SkipKeeps(sc, s, pos, k + 1, r - 1, blk);
      }
    }
  }

  lemma {:induction false} TailKeeps(sc: Scan, s: seq<Bit>, pos: nat, k: nat, blk: seq<int>)
    requires sc.Valid() && IsBlock(blk) && k <= sc.se + 1
    ensures var x := TailScan(sc, s, pos, k, blk);
            SameZeros(blk, x.blk) && Kept(k, blk, x.blk) && Untouched(x.k, blk, x.blk)
    decreases sc.se + 1 - k
  {
    hide NaturalOrder, ZigZagNumber, Fix;
    if k <= sc.se {
      if blk[NaturalOrder(k)] != 0 {
        var fixed := Fix(sc, s, pos, k, blk);
        FixKeeps(sc, s, pos, k, blk);
        TailKeeps(sc, s, pos + 1, k + 1, fixed);
        var x := TailScan(sc, s, pos + 1, k + 1, fixed);
        KeepsCompose(k, k + 1, k + 1, x.k, blk, fixed, x.blk);
      } else {
        TailKeeps(sc, s, pos, k + 1, blk);
      }
    }
  }

  // ---- blocks covered by an end-of-band run ----

  // How many of the coefficients number k .. j - 1 are not zero.
  function NonZeros(blk: seq<int>, k: nat, j: nat): nat
    requires |blk| == DCTSIZE2 && k <= j <= DCTSIZE2
    decreases j - k
  {
    if k == j then 0 else (if blk[NaturalOrder(k)] != 0 then 1 else 0) + NonZeros(blk, k + 1, j)
  }

  lemma {:induction false} NonZerosSame(a: seq<int>, b: seq<int>, k: nat, j: nat)
    requires SameZeros(a, b) && |a| == DCTSIZE2 && k <= j <= DCTSIZE2
    ensures NonZeros(a, k, j) == NonZeros(b, k, j)
    decreases j - k
  {
    hide NaturalOrder;
    if k < j {
      NonZerosSame(a, b, k + 1, j);
    }
  }

  lemma {:induction false} TailCounts(sc: Scan, s: seq<Bit>, pos: nat, k: nat, blk: seq<int>)
    requires sc.Valid() && IsBlock(blk) && k <= sc.se + 1
    ensures TailScan(sc, s, pos, k, blk).pos == pos + NonZeros(blk, k, sc.se + 1)
    decreases sc.se + 1 - k
  {
    hide NaturalOrder, ZigZagNumber, Fix, SameZeros;
    if k <= sc.se {
      if blk[NaturalOrder(k)] != 0 {
        var fixed := Fix(sc, s, pos, k, blk);
        FixKeeps(sc, s, pos, k, blk);
        NonZerosSame(blk, fixed, k + 1, sc.se + 1);
        TailCounts(sc, s, pos + 1, k + 1, fixed);
      } else {
        TailCounts(sc, s, pos, k + 1, blk);
      }
    }
  }

  // In a block that a run covers nothing becomes non-zero, one bit is read for every coefficient
  // that is not zero, and the run gets shorter by one.
  lemma RunCovers(t: Spec, sc: Scan, ss: nat, s: seq<Bit>, blk: seq<int>, eobrun: nat)
    requires t.Shape() && t.Legal() && sc.Valid() && IsBlock(blk) && 1 <= ss <= sc.se && eobrun > 0
    ensures var r := Refine(t, sc, ss, s, blk, eobrun);
            r.eobrun == eobrun - 1 && r.news == [] && r.pos == NonZeros(blk, ss, sc.se + 1)
  {
    hide TailScan, BandScan, IsBlock;
    TailCounts(sc, s, 0, ss, blk);
  }

  // ---- what a symbol leaves alone ----

  lemma EventKeeps(t: Spec, sc: Scan, s: seq<Bit>, pos: nat, k: nat, blk: seq<int>)
    requires t.Shape() && t.Legal() && sc.Valid() && IsBlock(blk) && k <= sc.se
    ensures var e := NextEvent(t, sc, s, pos, k, blk);
            e.Run? ==> SameZeros(blk, e.skim.blk) && Kept(k, blk, e.skim.blk) && Untouched(e.skim.k, blk, e.skim.blk)
  {
    hide SameZeros, Kept, Untouched, NaturalOrder, Skip, Value, IsBlock;
    var (len, sym) := t.Decode(s, pos);
    if sym % 16 != 0 {
      SkipKeeps(sc, s, pos + len + 1, k, sym / 16, blk);
    } else if sym / 16 == 15 {
      SkipKeeps(sc, s, pos + len, k, sym / 16, blk);
    }
  }

  lemma {:induction false} BandKeeps(t: Spec, sc: Scan, s: seq<Bit>, pos: nat, k: nat, blk: seq<int>)
    requires t.Shape() && t.Legal() && sc.Valid() && IsBlock(blk) && k <= sc.se + 2
    ensures var b := BandScan(t, sc, s, pos, k, blk);
            SameZeros(blk, b.blk) && Kept(k, blk, b.blk) && Untouched(sc.Cap(b.k), blk, b.blk)
    decreases sc.se + 2 - k
  {
    hide NextEvent, ZigZagNumber;
    if k <= sc.se {
      EventKeeps(t, sc, s, pos, k, blk);
      match NextEvent(t, sc, s, pos, k, blk)
      case EndOfBand(_, _) =>
      case Run(x, _) =>
        BandKeeps(t, sc, s, x.pos, x.k + 1, x.blk);
        var rest := BandScan(t, sc, s, x.pos, x.k + 1, x.blk);
        KeepsCompose(k, x.k + 1, x.k, sc.Cap(rest.k), blk, x.blk, rest.blk);
    }
  }

  // ---- retrying ----

  // b is a with some corrections of f already carried out; coefficients before number k are done.
  ghost predicate Between(k: nat, a: seq<int>, b: seq<int>, f: seq<int>) {
    && |a| == |b| == |f| == DCTSIZE2
    && forall i | 0 <= i < DCTSIZE2 ::
         b[i] == a[i] || (ZigZagNumber(i) >= k && a[i] != 0 && b[i] == f[i] && f[i] != 0)
  }

  lemma FixRetry(sc: Scan, s: seq<Bit>, pos: nat, k: nat, a: seq<int>, b: seq<int>, f: seq<int>)
    requires sc.Valid() && k < DCTSIZE2 && IsBlock(a) && IsBlock(b) && a[NaturalOrder(k)] != 0
    requires Between(k, a, b, f) && Kept(k + 1, Fix(sc, s, pos, k, a), f)
    ensures b[NaturalOrder(k)] != 0
    ensures Between(k + 1, Fix(sc, s, pos, k, a), Fix(sc, s, pos, k, b), f)
  {
    OrderInverts(k);
    CorrectIdempotent(a[NaturalOrder(k)], sc.al);
    forall i: nat | i < DCTSIZE2 && ZigZagNumber(i) == k ensures i == NaturalOrder(k) {
      NumberInverts(i);
    }
    hide NaturalOrder, ZigZagNumber, Correct, Value;
    var i0 := NaturalOrder(k);
    assert f[i0] == Fix(sc, s, pos, k, a)[i0];
  }

  lemma {:induction false} SkipRetry(sc: Scan, s: seq<Bit>, pos: nat, k: nat, r: nat, a: seq<int>, b: seq<int>,
                                     f: seq<int>)
    requires sc.Valid() && IsBlock(a) && IsBlock(b) && k <= sc.se + 1
    requires Between(k, a, b, f)
    requires var x := Skip(sc, s, pos, k, r, a); Kept(x.k, x.blk, f)
    ensures var x, y := Skip(sc, s, pos, k, r, a), Skip(sc, s, pos, k, r, b);
            y.pos == x.pos && y.k == x.k && Between(x.k, x.blk, y.blk, f)
    decreases sc.se + 1 - k
  {
    hide NaturalOrder, ZigZagNumber, Fix;
    if k <= sc.se {
      if a[NaturalOrder(k)] != 0 {
        var fixed := Fix(sc, s, pos, k, a);
        SkipKeeps(sc, s, pos + 1, k + 1, r, fixed);
        var x := Skip(sc, s, pos + 1, k + 1, r, fixed);
        KeptCompose(k + 1, x.k, fixed, x.blk, f);
        FixRetry(sc, s, pos, k, a, b, f);
        SkipRetry(sc, s, pos + 1, k + 1, r, fixed, Fix(sc, s, pos, k, b), f);
      } else {
        assert b[NaturalOrder(k)] == 0;
        if r > 0 {
          AdvanceZero(k, a, b, f);
          SkipRetry(sc, s, pos, k + 1, r - 1, a, b, f);
        }
      }
    }
  }

  lemma KeptCompose(k: nat, m: nat, a: seq<int>, b: seq<int>, c: seq<int>)
    requires k <= m && Kept(k, a, b) && Kept(m, b, c)
    ensures Kept(k, a, c)
  {
    hide ZigZagNumber;
  }

  lemma AdvanceZero(k: nat, a: seq<int>, b: seq<int>, f: seq<int>)
    requires k < DCTSIZE2 && Between(k, a, b, f) && a[NaturalOrder(k)] == 0
    ensures Between(k + 1, a, b, f)
  {
    forall i: nat | i < DCTSIZE2 && ZigZagNumber(i) == k ensures i == NaturalOrder(k) {
      NumberInverts(i);
    }
    hide ZigZagNumber, NaturalOrder;
  }

  lemma {:induction false} TailRetry(sc: Scan, s: seq<Bit>, pos: nat, k: nat, a: seq<int>, b: seq<int>, f: seq<int>)
    requires sc.Valid() && IsBlock(a) && IsBlock(b) && k <= sc.se + 1
    requires Between(k, a, b, f)
    requires var x := TailScan(sc, s, pos, k, a); Kept(x.k, x.blk, f)
    ensures var x, y := TailScan(sc, s, pos, k, a), TailScan(sc, s, pos, k, b);
            y.pos == x.pos && Between(x.k, x.blk, y.blk, f)
    decreases sc.se + 1 - k
  {
    hide NaturalOrder, ZigZagNumber, Fix;
    if k <= sc.se {
      if a[NaturalOrder(k)] != 0 {
        var fixed := Fix(sc, s, pos, k, a);
        TailKeeps(sc, s, pos + 1, k + 1, fixed);
        var x := TailScan(sc, s, pos + 1, k + 1, fixed);
        KeptCompose(k + 1, x.k, fixed, x.blk, f);
        FixRetry(sc, s, pos, k, a, b, f);
        TailRetry(sc, s, pos + 1, k + 1, fixed, Fix(sc, s, pos, k, b), f);
      } else {
        assert b[NaturalOrder(k)] == 0;
        AdvanceZero(k, a, b, f);
        TailRetry(sc, s, pos, k + 1, a, b, f);
      }
    }
  }

  lemma EventRetry(t: Spec, sc: Scan, s: seq<Bit>, pos: nat, k: nat, a: seq<int>, b: seq<int>, f: seq<int>)
    requires t.Shape() && t.Legal() && sc.Valid() && IsBlock(a) && IsBlock(b) && k <= sc.se
    requires Between(k, a, b, f)
    requires var e := NextEvent(t, sc, s, pos, k, a); e.Run? ==> Kept(e.skim.k, e.skim.blk, f)
    ensures var e, g := NextEvent(t, sc, s, pos, k, a), NextEvent(t, sc, s, pos, k, b);
            if e.EndOfBand? then g == e
            else g.Run? && g.news == e.news && g.skim.pos == e.skim.pos && g.skim.k == e.skim.k
                 && Between(e.skim.k, e.skim.blk, g.skim.blk, f)
  {
    hide Between, Kept, NaturalOrder, Skip, Value, IsBlock;
    var (len, sym) := t.Decode(s, pos);
    var r, n := sym / 16, sym % 16;
    if n != 0 {
      SkipRetry(sc, s, pos + len + 1, k, r, a, b, f);
    } else if r == 15 {
      SkipRetry(sc, s, pos + len, k, r, a, b, f);
    }
  }

  // Step over the coefficient at which a run ended: it is zero, or lies just past the band.
  lemma BetweenNext(k: nat, a: seq<int>, b: seq<int>, f: seq<int>)
    requires Between(k, a, b, f)
    requires k < DCTSIZE2 ==> a[NaturalOrder(k)] == 0 || a[NaturalOrder(k)] == f[NaturalOrder(k)]
    ensures Between(k + 1, a, b, f)
  {
    forall i: nat | i < DCTSIZE2 && ZigZagNumber(i) == k ensures i == NaturalOrder(k) {
      NumberInverts(i);
    }
    hide ZigZagNumber, NaturalOrder;
  }

  lemma RunNext(sc: Scan, k: nat, a: seq<int>, b: seq<int>, f: seq<int>)
    requires sc.Valid() && k <= sc.se + 1 && Between(k, a, b, f) && Untouched(sc.se + 1, a, f)
    requires k <= sc.se ==> a[NaturalOrder(k)] == 0
    ensures Between(k + 1, a, b, f)
  {
    if k == sc.se + 1 && k < DCTSIZE2 {
      OrderInverts(k);
    }
    hide NaturalOrder, ZigZagNumber, Between;
    BetweenNext(k, a, b, f);
  }

  lemma EventStopsAtZero(t: Spec, sc: Scan, s: seq<Bit>, pos: nat, k: nat, blk: seq<int>)
    requires t.Shape() && t.Legal() && sc.Valid() && IsBlock(blk) && k <= sc.se
    ensures var e := NextEvent(t, sc, s, pos, k, blk);
            e.Run? && e.skim.k <= sc.se ==> blk[NaturalOrder(e.skim.k)] == 0 && e.skim.blk[NaturalOrder(e.skim.k)] == 0
  {
    hide NaturalOrder, Skip, Value, IsBlock, Spec.Decode, Pow2;
    var (len, sym) := t.Decode(s, pos);
    if sym % 16 != 0 {
      SkipStopsAtZero(sc, s, pos + len + 1, k, sym / 16, blk);
    } else if sym / 16 == 15 {
      SkipStopsAtZero(sc, s, pos + len, k, sym / 16, blk);
    }
  }

  lemma SkipStopsAtZero(sc: Scan, s: seq<Bit>, pos: nat, k: nat, r: nat, blk: seq<int>)
    requires sc.Valid() && IsBlock(blk) && k <= sc.se
    ensures var x := Skip(sc, s, pos, k, r, blk);
            x.k <= sc.se ==> blk[NaturalOrder(x.k)] == 0 && x.blk[NaturalOrder(x.k)] == 0
  {
    hide Kept, Untouched, NaturalOrder, Skip;
    SkipKeeps(sc, s, pos, k, r, blk);
    var x := Skip(sc, s, pos, k, r, blk);
    ZeroKept(blk, x.blk, NaturalOrder(x.k));
  }

  lemma ZeroKept(a: seq<int>, b: seq<int>, i: Index)
    requires SameZeros(a, b) && |a| == DCTSIZE2
    ensures a[i] == 0 <==> b[i] == 0
  {}

  lemma UntouchedCompose(m: nat, n: nat, a: seq<int>, b: seq<int>, f: seq<int>)
    requires m <= n && Untouched(m, a, b) && Untouched(n, a, f)
    ensures Untouched(n, b, f)
  {
    hide ZigZagNumber;
  }

  lemma {:induction false} BandRetry(t: Spec, sc: Scan, s: seq<Bit>, pos: nat, k: nat, a: seq<int>, b: seq<int>,
                                     f: seq<int>)
    requires t.Shape() && t.Legal() && sc.Valid() && IsBlock(a) && IsBlock(b) && k <= sc.se + 2
    requires Between(k, a, b, f) && Untouched(sc.se + 1, a, f)
    requires var x := BandScan(t, sc, s, pos, k, a); Kept(x.k, x.blk, f)
    ensures var x, y := BandScan(t, sc, s, pos, k, a), BandScan(t, sc, s, pos, k, b);
            && y.news == x.news && y.pos == x.pos && y.eobrun == x.eobrun && y.k == x.k
            && Between(x.k, x.blk, y.blk, f)
    decreases sc.se + 2 - k
  {
    hide NextEvent, Between, Kept, Untouched, NaturalOrder, IsBlock, SameZeros;
    if k <= sc.se {
      EventKeeps(t, sc, s, pos, k, a);
      var e := NextEvent(t, sc, s, pos, k, a);
      if e.EndOfBand? {
        EventRetry(t, sc, s, pos, k, a, b, f);
      } else {
        var x := e.skim;
        var rest := BandScan(t, sc, s, x.pos, x.k + 1, x.blk);
        BandKeeps(t, sc, s, x.pos, x.k + 1, x.blk);
        KeptCompose(x.k + 1, rest.k, x.blk, rest.blk, f);
        KeptWeaken(x.k, x.blk, f);
        EventRetry(t, sc, s, pos, k, a, b, f);
        EventStopsAtZero(t, sc, s, pos, k, a);
        UntouchedCompose(x.k, sc.se + 1, a, x.blk, f);
        var y := NextEvent(t, sc, s, pos, k, b).skim;
        RunNext(sc, x.k, x.blk, y.blk, f);
        BandRetry(t, sc, s, x.pos, x.k + 1, x.blk, y.blk, f);
      }
    }
  }

  lemma KeptWeaken(k: nat, a: seq<int>, f: seq<int>)
    requires Kept(k + 1, a, f)
    ensures Kept(k, a, f)
  {}

  // A block that an abandoned attempt has left: some corrections done, nothing else changed.
  ghost predicate Partial(a: seq<int>, b: seq<int>, f: seq<int>) {
    && |a| == |b| == |f| == DCTSIZE2
    && forall i | 0 <= i < DCTSIZE2 :: b[i] == a[i] || (a[i] != 0 && b[i] == f[i] && f[i] != 0)
  }

  lemma RefineKeeps(t: Spec, sc: Scan, ss: nat, s: seq<Bit>, blk: seq<int>, eobrun: nat)
    requires t.Shape() && t.Legal() && sc.Valid() && IsBlock(blk) && 1 <= ss <= sc.se
    ensures var r := Refine(t, sc, ss, s, blk, eobrun);
            SameZeros(blk, r.blk) && Kept(ss, blk, r.blk) && Untouched(sc.se + 1, blk, r.blk)
  {
    hide NaturalOrder, BandScan, TailScan;
    var b := if eobrun == 0 then BandScan(t, sc, s, 0, ss, blk) else Band(blk, [], 0, eobrun, ss);
    BandKeeps(t, sc, s, 0, ss, blk);
    if b.eobrun > 0 {
      TailKeeps(sc, s, b.pos, b.k, b.blk);
      var x := TailScan(sc, s, b.pos, b.k, b.blk);
      KeepsCompose(ss, b.k, sc.Cap(b.k), sc.se + 1, blk, b.blk, x.blk);
    } else {
      UntouchedWeaken(sc.Cap(b.k), sc.se + 1, blk, b.blk);
    }
  }

  lemma UntouchedWeaken(m: nat, n: nat, a: seq<int>, b: seq<int>)
    requires m <= n && Untouched(m, a, b)
    ensures Untouched(n, a, b)
  {}

  // Refining what an abandoned attempt has left comes to the same in every respect.
  lemma RefineRetry(t: Spec, sc: Scan, ss: nat, s: seq<Bit>, a: seq<int>, b: seq<int>, eobrun: nat)
    requires t.Shape() && t.Legal() && sc.Valid() && IsBlock(a) && IsBlock(b) && 1 <= ss <= sc.se
    requires Partial(a, b, Refine(t, sc, ss, s, a, eobrun).blk)
    ensures Refine(t, sc, ss, s, b, eobrun) == Refine(t, sc, ss, s, a, eobrun)
  {
    hide NaturalOrder, ZigZagNumber, BandScan, TailScan, IsBlock, SameZeros;
    RefineKeeps(t, sc, ss, s, a, eobrun);
    var f := Refine(t, sc, ss, s, a, eobrun).blk;
    assert Between(ss, a, b, f);
    var x := if eobrun == 0 then BandScan(t, sc, s, 0, ss, a) else Band(a, [], 0, eobrun, ss);
    var y := if eobrun == 0 then BandScan(t, sc, s, 0, ss, b) else Band(b, [], 0, eobrun, ss);
    if x.eobrun > 0 {
      var xt := TailScan(sc, s, x.pos, x.k, x.blk);
      TailKeeps(sc, s, x.pos, x.k, x.blk);
      assert xt.blk == f;
      if eobrun == 0 {
        BandRetry(t, sc, s, 0, ss, a, b, f);
      }
      TailRetry(sc, s, y.pos, y.k, x.blk, y.blk, f);
      BetweenDone(xt.k, f, TailScan(sc, s, y.pos, y.k, y.blk).blk);
    } else {
      BandRetry(t, sc, s, 0, ss, a, b, f);
      BetweenDone(x.k, f, y.blk);
    }
  }

  lemma BetweenDone(k: nat, f: seq<int>, b: seq<int>)
    requires Between(k, f, b, f)
    ensures b == f
  {}

  // ---- the scale of the coefficients ----

  lemma ToCoefKeepsMultiple(x: int, p1: nat, h: nat)
    requires p1 > 0 && (2 * h) * p1 == 0x1_0000 && -0x1_8000 <= x < 0x1_8000
    ensures ToCoef(x) % p1 == x % p1
  {
    hide ToCoef;
    ToCoefWraps(x);
    ShiftRemainder(x, p1, 2 * h);
    ShiftRemainder(x, p1, -2 * h);
    assert (-2 * h) * p1 == -0x1_0000;
  }

  lemma CorrectKeepsMultiple(c: int, al: nat)
    requires al <= 13 && IsCoef(c)
    ensures Pow2(al) > 0
    ensures Correct(c, Pow2(al)) % Pow2(al) == c % Pow2(al)
  {
    hide BitClear, Pow2, ToCoef;
    var p1 := Pow2(al);
    Pow2Bound(al);
    Modulus(al);
    ShiftRemainder(c, p1, 1);
    ShiftRemainder(c, p1, -1);
    assert c + 1 * p1 == c + p1;
    assert c - 1 * p1 == c - p1;
    ToCoefKeepsMultiple(c + p1, p1, Pow2(15 - al));
    ToCoefKeepsMultiple(c - p1, p1, Pow2(15 - al));
  }

  // Every coefficient is a multiple of the weight of the last bit coded.
  predicate Scaled(blk: seq<int>, p1: nat)
    requires p1 > 0
  {
    forall i | 0 <= i < |blk| :: blk[i] % p1 == 0
  }

  lemma FixScaled(sc: Scan, s: seq<Bit>, pos: nat, k: nat, blk: seq<int>)
    requires sc.Valid() && k < DCTSIZE2 && IsBlock(blk) && blk[NaturalOrder(k)] != 0
    requires sc.P1() > 0 && Scaled(blk, sc.P1())
    ensures Scaled(Fix(sc, s, pos, k, blk), sc.P1())
  {
    hide NaturalOrder, Correct, Value, Pow2;
    CorrectKeepsMultiple(blk[NaturalOrder(k)], sc.al);
  }

  lemma {:induction false} SkipScaled(sc: Scan, s: seq<Bit>, pos: nat, k: nat, r: nat, blk: seq<int>)
    requires sc.Valid() && IsBlock(blk) && k <= sc.se + 1 && sc.P1() > 0 && Scaled(blk, sc.P1())
    ensures Scaled(Skip(sc, s, pos, k, r, blk).blk, sc.P1())
    decreases sc.se + 1 - k
  {
    hide NaturalOrder, Fix, Scaled, Pow2;
    if k <= sc.se {
      if blk[NaturalOrder(k)] != 0 {
        FixScaled(sc, s, pos, k, blk);
        SkipScaled(sc, s, pos + 1, k + 1, r, Fix(sc, s, pos, k, blk));
      } else if r > 0 {
        SkipScaled(sc, s, pos, k + 1, r - 1, blk);
      }
    }
  }

  lemma {:induction false} TailScaled(sc: Scan, s: seq<Bit>, pos: nat, k: nat, blk: seq<int>)
    requires sc.Valid() && IsBlock(blk) && k <= sc.se + 1 && sc.P1() > 0 && Scaled(blk, sc.P1())
    ensures Scaled(TailScan(sc, s, pos, k, blk).blk, sc.P1())
    decreases sc.se + 1 - k
  {
    hide NaturalOrder, Fix, Scaled, Pow2;
    if k <= sc.se {
      if blk[NaturalOrder(k)] != 0 {
        FixScaled(sc, s, pos, k, blk);
        TailScaled(sc, s, pos + 1, k + 1, Fix(sc, s, pos, k, blk));
      } else {
        TailScaled(sc, s, pos, k + 1, blk);
      }
    }
  }

  // New coefficients are plus or minus the weight of the bit being coded.
  ghost predicate UnitNews(news: seq<New>, p1: int) {
    forall j | 0 <= j < |news| :: news[j].value == p1 || news[j].value == -p1
  }

  lemma EventScaled(t: Spec, sc: Scan, s: seq<Bit>, pos: nat, k: nat, blk: seq<int>)
    requires t.Shape() && t.Legal() && sc.Valid() && IsBlock(blk) && k <= sc.se
    requires sc.P1() > 0 && Scaled(blk, sc.P1())
    ensures var e := NextEvent(t, sc, s, pos, k, blk);
            e.Run? ==> Scaled(e.skim.blk, sc.P1()) && UnitNews(e.news, sc.P1())
  {
    hide NaturalOrder, Skip, Value, IsBlock, Scaled, Pow2, Spec.Decode;
    Pow2Bound(sc.al);
    var (len, sym) := t.Decode(s, pos);
    if sym % 16 != 0 {
      SkipScaled(sc, s, pos + len + 1, k, sym / 16, blk);
    } else if sym / 16 == 15 {
      SkipScaled(sc, s, pos + len, k, sym / 16, blk);
    }
  }

  lemma {:induction false} BandScaled(t: Spec, sc: Scan, s: seq<Bit>, pos: nat, k: nat, blk: seq<int>)
    requires t.Shape() && t.Legal() && sc.Valid() && IsBlock(blk) && k <= sc.se + 2
    requires sc.P1() > 0 && Scaled(blk, sc.P1())
    ensures var b := BandScan(t, sc, s, pos, k, blk);
            Scaled(b.blk, sc.P1()) && UnitNews(b.news, sc.P1())
    decreases sc.se + 2 - k
  {
    hide NextEvent, Scaled, Pow2, IsBlock;
    if k <= sc.se {
      EventScaled(t, sc, s, pos, k, blk);
      match NextEvent(t, sc, s, pos, k, blk)
      case EndOfBand(_, _) =>
      case Run(x, _) =>
        BandScaled(t, sc, s, x.pos, x.k + 1, x.blk);
    }
  }

  lemma {:induction false} OverlayScaled(blk: seq<int>, news: seq<New>, p1: nat)
    requires |blk| == DCTSIZE2 && p1 > 0 && Scaled(blk, p1) && UnitNews(news, p1)
    ensures Scaled(Overlay(blk, news), p1)
    decreases |news|
  {
    if news != [] {
      OverlayScaled(blk, news[..|news| - 1], p1);
      ShiftRemainder(0, p1, 1);
      ShiftRemainder(0, p1, -1);
    }
  }

  // A refinement scan leaves multiples of 2^Al if it finds multiples of 2^(Al+1): the
  // requirement of the next scan, under which CorrectionRaisesMagnitude applies.
  lemma RefineScaled(t: Spec, sc: Scan, ss: nat, s: seq<Bit>, blk: seq<int>, eobrun: nat)
    requires t.Shape() && t.Legal() && sc.Valid() && IsBlock(blk) && 1 <= ss <= sc.se
    requires Pow2(sc.al) > 0 && Scaled(blk, 2 * Pow2(sc.al))
    ensures var r := Refine(t, sc, ss, s, blk, eobrun);
            Scaled(Overlay(r.blk, r.news), Pow2(sc.al))
  {
    forall i | 0 <= i < |blk| ensures blk[i] % Pow2(sc.al) == 0 {
      HalfMultiple(blk[i], Pow2(sc.al));
    }
    hide BandScan, TailScan, IsBlock, Scaled, Pow2, UnitNews, Overlay;
    NoNews(sc.P1());
    var b := if eobrun == 0 then BandScan(t, sc, s, 0, ss, blk) else Band(blk, [], 0, eobrun, ss);
    BandScaled(t, sc, s, 0, ss, blk);
    if b.eobrun > 0 {
      TailScaled(sc, s, b.pos, b.k, b.blk);
    }
    var r := Refine(t, sc, ss, s, blk, eobrun);
    OverlayScaled(r.blk, r.news, sc.P1());
  }

  lemma NoNews(p1: int)
    ensures UnitNews([], p1)
  {}

  lemma HalfMultiple(c: int, p1: nat)
    requires p1 > 0 && c % (2 * p1) == 0
    ensures c % p1 == 0
  {
    DivMod(c, 2 * p1);
    var q := c / (2 * p1);
    assert c == 0 + (2 * q) * p1 by { Triple(p1, q); }
    ShiftRemainder(0, p1, 2 * q);
  }
}
