/**
  Encoding of AC refinement scans as section G.1.2.3 of ITU-T T.81 describes it: zero runs leading
  to coefficients that become non-zero, end-of-band runs over blocks, and a correction bit for every
  coefficient that is non-zero already.  Decoding is shown to give back every refined block.
  */
module RefinementEncoder {
  import opened BitStrings
  import opened HuffmanCode
  import opened HuffmanEncoder
  import opened Coefficients
  import opened Refinement

  type Block = b: seq<int> | IsBlock(b) witness seq(DCTSIZE2, i => 0)

  // Coefficient number k of a block.
  function Coef(b: Block, k: nat): int
    requires k < DCTSIZE2
  {
    b[NaturalOrder(k)]
  }

  // What one bit of weight p1 more can make of a coefficient.
  predicate OneBit(x: int, y: int, p1: int) {
    if x > 0 then y == x || y == x + p1
    else if x < 0 then y == x || y == x - p1
    else y == 0 || y == p1 || y == -p1
  }

  // b is a with one bit more in the band, in which a is a multiple of twice that bit.
  predicate Refines(sc: Scan, ss: nat, a: Block, b: Block)
    requires sc.Valid() && sc.P1() > 0
  {
    forall k | 0 <= k < DCTSIZE2 ::
      if ss <= k <= sc.se then Coef(a, k) % (2 * sc.P1()) == 0 && OneBit(Coef(a, k), Coef(b, k), sc.P1())
      else Coef(b, k) == Coef(a, k)
  }

  // ---- the items of a band ----

  // The next coefficient from k on that becomes non-zero; past the band if there is none.
  function NextNew(sc: Scan, a: Block, b: Block, k: nat): (j: nat)
    requires sc.Valid() && k <= sc.se + 1
    ensures k <= j <= sc.se + 1 && (j <= sc.se ==> Coef(a, j) == 0 && Coef(b, j) != 0)
    decreases sc.se + 1 - k
  {
    if k > sc.se || (Coef(a, k) == 0 && Coef(b, k) != 0) then k else NextNew(sc, a, b, k + 1)
  }

  // Coefficients k .. j - 1 that are zero before the scan.
  function ZerosIn(a: Block, k: nat, j: nat): nat
    requires k <= j <= DCTSIZE2
    decreases j - k
  {
    if k == j then 0 else (if Coef(a, k) == 0 then 1 else 0) + ZerosIn(a, k + 1, j)
  }

  // The place, from k on, of zero number r (from 0).
  function ZeroAt(a: Block, k: nat, r: nat, j: nat): (z: nat)
    requires k <= j <= DCTSIZE2 && r < ZerosIn(a, k, j)
    ensures k <= z < j
    decreases j - k
  {
    if Coef(a, k) != 0 then ZeroAt(a, k + 1, r, j)
    else if r == 0 then k
    else ZeroAt(a, k + 1, r - 1, j)
  }

  lemma {:induction false} ZeroIsThere(a: Block, k: nat, r: nat, j: nat)
    requires k <= j <= DCTSIZE2 && r < ZerosIn(a, k, j)
    ensures var z := ZeroAt(a, k, r, j);
            Coef(a, z) == 0 && ZerosIn(a, k, z) == r
    decreases j - k
  {
    hide Coef;
    if Coef(a, k) != 0 {
      ZeroIsThere(a, k + 1, r, j);
    } else if r > 0 {
      ZeroIsThere(a, k + 1, r - 1, j);
    }
  }

  // A correction bit for every coefficient that was non-zero before.
  function Corrections(a: Block, b: Block, k: nat, j: nat): seq<Item>
    requires k <= j <= DCTSIZE2
    decreases j - k
  {
    if k == j then []
    else if Coef(a, k) == 0 then Corrections(a, b, k + 1, j)
    else [Extra(if Coef(b, k) != Coef(a, k) then 1 else 0, 1)] + Corrections(a, b, k + 1, j)
  }

  // An end-of-band run over n blocks: its category, and what it is above the category's least.
  function EobItems(n: nat): seq<Item>
    requires n > 0
  {
    SizeBounds(n);
    [Symbol(16 * (Size(n) - 1))] + [Extra(n - Pow2(Size(n) - 1), Size(n) - 1)]
  }

  const ZRL := 0xF0

  function Sign(b: Block, j: nat): nat
    requires j < DCTSIZE2
  {
    if Coef(b, j) > 0 then 1 else 0
  }

  // From coefficient k on: a new coefficient after its run of zeros, with the sign, the correction
  // bits passed on the way behind it; sixteen zeros by themselves; an end-of-band run over `run`
  // blocks if no coefficient becomes non-zero any more.
  function BandItems(sc: Scan, a: Block, b: Block, k: nat, run: nat): seq<Item>
    requires sc.Valid() && k <= sc.se + 1 && run > 0
    decreases sc.se + 1 - k
  {
    var j := NextNew(sc, a, b, k);
    if k > sc.se then []
    else if j > sc.se then EobItems(run)
    else if ZerosIn(a, k, j) >= 16 then
      var z := ZeroAt(a, k, 15, j);
      [Symbol(ZRL)] + (Corrections(a, b, k, z) + BandItems(sc, a, b, z + 1, run))
    else
      [Symbol(16 * ZerosIn(a, k, j) + 1)]
      + ([Extra(Sign(b, j), 1)] + (Corrections(a, b, k, j) + BandItems(sc, a, b, j + 1, run)))
  }

  // Where the coded part of the band ends: behind its last new coefficient.
  function BandEnd(sc: Scan, a: Block, b: Block, k: nat): (e: nat)
    requires sc.Valid() && k <= sc.se + 1
    ensures k <= e <= sc.se + 1
    decreases sc.se + 1 - k
  {
    var j := NextNew(sc, a, b, k);
    if j > sc.se then k else BandEnd(sc, a, b, j + 1)
  }

  // The coefficients that become non-zero.
  function NewsFrom(sc: Scan, a: Block, b: Block, k: nat): seq<New>
    requires sc.Valid() && k <= sc.se + 1
    decreases sc.se + 1 - k
  {
    var j := NextNew(sc, a, b, k);
    if j > sc.se then [] else [New(NaturalOrder(j), Coef(b, j))] + NewsFrom(sc, a, b, j + 1)
  }

  // One block: the coded part of its band, unless a run covers it, and correction bits for the rest.
  function BlockItems(sc: Scan, ss: nat, a: Block, b: Block, left: nat, run: nat): seq<Item>
    requires sc.Valid() && ss <= sc.se && run > 0
  {
    if left > 0 then Corrections(a, b, ss, sc.se + 1)
    else BandItems(sc, a, b, ss, run) + Corrections(a, b, BandEnd(sc, a, b, ss), sc.se + 1)
  }

  // Blocks still covered by the run after this one.
  function LeftAfter(sc: Scan, ss: nat, a: Block, b: Block, left: nat, run: nat): nat
    requires sc.Valid() && ss <= sc.se && run > 0
  {
    if left > 0 then left - 1 else if BandEnd(sc, a, b, ss) <= sc.se then run - 1 else 0
  }

  // A block can be coded here: nothing becomes non-zero under a run, and a run is not too long.
  predicate BlockCoded(t: Spec, sc: Scan, ss: nat, a: Block, b: Block, left: nat, run: nat)
    requires t.Shape() && t.Legal() && sc.Valid() && sc.P1() > 0 && ss <= sc.se
  {
    && 0 < run < 0x8000 && Refines(sc, ss, a, b) && (left > 0 ==> NextNew(sc, a, b, ss) > sc.se)
    && AllCoded(t, BlockItems(sc, ss, a, b, left, run))
  }

  // ---- reading corrections ----

  // The block with everything before coefficient k corrected.
  function Blend(a: Block, b: Block, k: nat): (r: Block)
  {
    seq(DCTSIZE2, i requires 0 <= i < DCTSIZE2 => if ZigZagNumber(i) < k && a[i] != 0 then b[i] else a[i])
  }

  lemma BlendAt(a: Block, b: Block, k: nat, m: nat)
    requires m < DCTSIZE2
    ensures Coef(Blend(a, b, k), m) == if m < k && Coef(a, m) != 0 then Coef(b, m) else Coef(a, m)
  {
    OrderInverts(m);
    hide NaturalOrder, ZigZagNumber;
  }

  lemma BlendZero(a: Block, b: Block, k: nat)
    requires k < DCTSIZE2 && Coef(a, k) == 0
    ensures Blend(a, b, k + 1) == Blend(a, b, k)
  {
    var x, y := Blend(a, b, k), Blend(a, b, k + 1);
    forall i | 0 <= i < DCTSIZE2 ensures x[i] == y[i] {
      NumberInverts(i);
      hide NaturalOrder, ZigZagNumber;
    }
  }

  lemma BlendStep(a: Block, b: Block, k: nat)
    requires k < DCTSIZE2 && Coef(a, k) != 0
    ensures Blend(a, b, k)[NaturalOrder(k) := Coef(b, k)] == Blend(a, b, k + 1)
  {
    OrderInverts(k);
    var x, y := Blend(a, b, k)[NaturalOrder(k) := Coef(b, k)], Blend(a, b, k + 1);
    forall i | 0 <= i < DCTSIZE2 ensures x[i] == y[i] {
      NumberInverts(i);
      hide NaturalOrder, ZigZagNumber;
    }
  }

  // The correction bit of a coefficient is applied.
  lemma FixReads(sc: Scan, ss: nat, s: seq<Bit>, pos: nat, k: nat, a: Block, b: Block)
    requires sc.Valid() && sc.P1() > 0 && Refines(sc, ss, a, b) && ss <= k <= sc.se && Coef(a, k) != 0
    requires Value(s, pos, 1) == if Coef(b, k) != Coef(a, k) then 1 else 0
    ensures Blend(a, b, k)[NaturalOrder(k)] == Coef(a, k)
    ensures Fix(sc, s, pos, k, Blend(a, b, k)) == Blend(a, b, k + 1)
  {
    BlendAt(a, b, k, k);
    BlendStep(a, b, k);
    hide NaturalOrder, ZigZagNumber, Value, Correct, Blend, Pow2;
    var x, y := Coef(a, k), Coef(b, k);
    assert IsCoef(x) && IsCoef(y);
    if y != x {
      CorrectedTo(x, y, sc.al);
    } else {
      assert Blend(a, b, k)[NaturalOrder(k) := y] == Blend(a, b, k);
    }
  }

  lemma CorrectedTo(x: int, y: int, al: nat)
    requires al <= 13 && IsCoef(x) && IsCoef(y) && x != 0 && x != y && Pow2(al) > 0 && x % (2 * Pow2(al)) == 0
    requires OneBit(x, y, Pow2(al))
    ensures Correct(x, Pow2(al)) == y
  {
    Pow2Bound(al);
    EvenQuotient(x, Pow2(al));
    hide BitClear, Pow2;
  }

  lemma CorrectionBits(t: Spec, s: seq<Bit>, pos: nat, a: Block, b: Block, k: nat, j: nat, rest: seq<Item>)
    requires t.Shape() && t.Legal() && k < j <= DCTSIZE2 && Coef(a, k) != 0
    requires AllCoded(t, Corrections(a, b, k, j) + rest) && BitsAt(s, pos, Bits(t, Corrections(a, b, k, j) + rest))
    ensures Value(s, pos, 1) == if Coef(b, k) != Coef(a, k) then 1 else 0
    ensures AllCoded(t, Corrections(a, b, k + 1, j) + rest)
    ensures BitsAt(s, pos + 1, Bits(t, Corrections(a, b, k + 1, j) + rest))
    ensures |Bits(t, Corrections(a, b, k, j) + rest)| == 1 + |Bits(t, Corrections(a, b, k + 1, j) + rest)|
  {
    hide NaturalOrder, Bits, AllCoded, BitsAt, Value, Spec.Shape, Spec.Legal;
    var bit := if Coef(b, k) != Coef(a, k) then 1 else 0;
    var more := Corrections(a, b, k + 1, j);
    assert Corrections(a, b, k, j) + rest == [Extra(bit, 1)] + (more + rest);
    ReadExtra(t, s, pos, bit, 1, more + rest);
  }

  // Passing over coefficients up to the zero number r, all correction bits on the way are read.
  lemma {:induction false} SkipReads(t: Spec, sc: Scan, ss: nat, s: seq<Bit>, pos: nat, a: Block, b: Block, k: nat,
                                     j: nat, r: nat, rest: seq<Item>)
    requires t.Shape() && t.Legal() && sc.Valid() && sc.P1() > 0 && Refines(sc, ss, a, b)
    requires ss <= k <= j <= sc.se && Coef(a, j) == 0 && ZerosIn(a, k, j) == r
    requires AllCoded(t, Corrections(a, b, k, j) + rest) && BitsAt(s, pos, Bits(t, Corrections(a, b, k, j) + rest))
    ensures var x := Skip(sc, s, pos, k, r, Blend(a, b, k));
            && x.k == j && x.blk == Blend(a, b, j) && AllCoded(t, rest) && BitsAt(s, x.pos, Bits(t, rest))
            && pos + |Bits(t, Corrections(a, b, k, j) + rest)| == x.pos + |Bits(t, rest)|
    decreases j - k
  {
    hide NaturalOrder, ZigZagNumber, Bits, AllCoded, BitsAt, Value, Fix, Blend, Refines, Spec.Shape, Spec.Legal;
    BlendAt(a, b, k, k);
    if k == j {
      assert [] + rest == rest;
    } else if Coef(a, k) != 0 {
      CorrectionBits(t, s, pos, a, b, k, j, rest);
      FixReads(sc, ss, s, pos, k, a, b);
      SkipReads(t, sc, ss, s, pos + 1, a, b, k + 1, j, r, rest);
    } else {
      BlendZero(a, b, k);
      SkipReads(t, sc, ss, s, pos, a, b, k + 1, j, r - 1, rest);
    }
  }

  // Behind the coded part of the band only correction bits are read.
  lemma {:induction false} TailReads(t: Spec, sc: Scan, ss: nat, s: seq<Bit>, pos: nat, a: Block, b: Block, k: nat,
                                     rest: seq<Item>)
    requires t.Shape() && t.Legal() && sc.Valid() && sc.P1() > 0 && Refines(sc, ss, a, b) && ss <= k <= sc.se + 1
    requires AllCoded(t, Corrections(a, b, k, sc.se + 1) + rest)
    requires BitsAt(s, pos, Bits(t, Corrections(a, b, k, sc.se + 1) + rest))
    ensures var x := TailScan(sc, s, pos, k, Blend(a, b, k));
            && x.blk == Blend(a, b, sc.se + 1) && AllCoded(t, rest) && BitsAt(s, x.pos, Bits(t, rest))
            && pos + |Bits(t, Corrections(a, b, k, sc.se + 1) + rest)| == x.pos + |Bits(t, rest)|
    decreases sc.se + 1 - k
  {
    hide NaturalOrder, ZigZagNumber, Bits, AllCoded, BitsAt, Value, Fix, Blend, Refines, Spec.Shape, Spec.Legal;
    if k > sc.se {
      assert [] + rest == rest;
    } else {
      BlendAt(a, b, k, k);
      if Coef(a, k) != 0 {
        CorrectionBits(t, s, pos, a, b, k, sc.se + 1, rest);
        FixReads(sc, ss, s, pos, k, a, b);
        TailReads(t, sc, ss, s, pos + 1, a, b, k + 1, rest);
      } else {
        BlendZero(a, b, k);
        TailReads(t, sc, ss, s, pos, a, b, k + 1, rest);
      }
    }
  }

  // ---- reading bands ----

  lemma {:induction false} NextNewSame(sc: Scan, a: Block, b: Block, k: nat, m: nat)
    requires sc.Valid() && k <= sc.se + 1 && k <= m <= NextNew(sc, a, b, k)
    ensures NextNew(sc, a, b, m) == NextNew(sc, a, b, k)
    decreases m - k
  {
    hide NaturalOrder;
    if k < m {
      NextNewSame(sc, a, b, k + 1, m);
    }
  }

  lemma RunCategory(n: nat)
    requires 0 < n < 0x8000
    ensures 1 <= Size(n) <= 15 && Pow2(Size(n) - 1) <= n
  {
    SizeBounds(n);
    if Size(n) > 15 {
      SizeGrows(15, Size(n) - 1);
      Pow2Of15();
    }
  }

  lemma {:induction false} SizeGrows(m: nat, n: nat)
    requires m <= n
    ensures Pow2(m) <= Pow2(n)
    decreases n
  {
    if m < n {
      SizeGrows(m, n - 1);
    }
  }

  // An end-of-band run.
  lemma EobReads(t: Spec, sc: Scan, s: seq<Bit>, pos: nat, k: nat, cur: Block, run: nat, rest: seq<Item>)
    requires t.Shape() && t.Legal() && sc.Valid() && k <= sc.se && 0 < run < 0x8000
    requires AllCoded(t, EobItems(run) + rest) && BitsAt(s, pos, Bits(t, EobItems(run) + rest))
    ensures var e := NextEvent(t, sc, s, pos, k, cur);
            && e.EndOfBand? && e.eobrun == run && AllCoded(t, rest) && BitsAt(s, e.pos, Bits(t, rest))
            && pos + |Bits(t, EobItems(run) + rest)| == e.pos + |Bits(t, rest)|
  {
    hide Bits, AllCoded, BitsAt, Value, Spec.Shape, Spec.Legal, Spec.Decode, Size, Pow2, Skip;
    RunCategory(run);
    var r := Size(run) - 1;
    var extra := Extra(run - Pow2(r), r);
    assert EobItems(run) + rest == [Symbol(16 * r)] + ([extra] + rest);
    SymbolParts(r, 0);
    var len := ReadSymbol(t, s, pos, 16 * r, [extra] + rest);
    ReadExtra(t, s, pos + len, run - Pow2(r), r, rest);
  }

  // Sixteen zeros.
  lemma ZrlReads(t: Spec, sc: Scan, ss: nat, s: seq<Bit>, pos: nat, a: Block, b: Block, k: nat, z: nat, rest: seq<Item>)
    requires t.Shape() && t.Legal() && sc.Valid() && sc.P1() > 0 && Refines(sc, ss, a, b)
    requires ss <= k <= z <= sc.se && Coef(a, z) == 0 && ZerosIn(a, k, z) == 15
    requires var items := [Symbol(ZRL)] + (Corrections(a, b, k, z) + rest);
             AllCoded(t, items) && BitsAt(s, pos, Bits(t, items))
    ensures var e := NextEvent(t, sc, s, pos, k, Blend(a, b, k));
            && e.Run? && e.news == [] && e.skim.k == z && e.skim.blk == Blend(a, b, z + 1)
            && AllCoded(t, rest) && BitsAt(s, e.skim.pos, Bits(t, rest))
            && pos + |Bits(t, [Symbol(ZRL)] + (Corrections(a, b, k, z) + rest))| == e.skim.pos + |Bits(t, rest)|
  {
    hide Bits, AllCoded, BitsAt, Value, Spec.Shape, Spec.Legal, Spec.Decode, Pow2, Skip, Blend, Refines, NaturalOrder;
    var len := ReadSymbol(t, s, pos, ZRL, Corrections(a, b, k, z) + rest);
    SkipReads(t, sc, ss, s, pos + len, a, b, k, z, 15, rest);
    BlendZero(a, b, z);
  }

  lemma EventOfNew(t: Spec, sc: Scan, s: seq<Bit>, pos: nat, k: nat, cur: Block, len: nat, r: nat)
    requires t.Shape() && t.Legal() && sc.Valid() && sc.P1() > 0 && k <= sc.se
    requires r <= 15 && t.Decode(s, pos) == (len, 16 * r + 1)
    ensures var x := Skip(sc, s, pos + len + 1, k, r, cur);
            var v := if Value(s, pos + len, 1) == 1 then sc.P1() else 0 - sc.P1();
            NextEvent(t, sc, s, pos, k, cur) == Run(x, [New(NaturalOrder(x.k), ToCoef(v))])
  {
    hide Value, Spec.Shape, Spec.Legal, Spec.Decode, Pow2, Skip, NaturalOrder, ToCoef;
    SymbolParts(r, 1);
  }

  // A coefficient that becomes non-zero, behind a run of zeros.
  lemma NewReads(t: Spec, sc: Scan, ss: nat, s: seq<Bit>, pos: nat, a: Block, b: Block, k: nat, j: nat, rest: seq<Item>)
    requires t.Shape() && t.Legal() && sc.Valid() && sc.P1() > 0 && Refines(sc, ss, a, b)
    requires ss <= k <= j <= sc.se && Coef(a, j) == 0 && Coef(b, j) != 0 && ZerosIn(a, k, j) <= 15
    requires var items := [Symbol(16 * ZerosIn(a, k, j) + 1)]
                 + ([Extra(Sign(b, j), 1)] + (Corrections(a, b, k, j) + rest));
             AllCoded(t, items) && BitsAt(s, pos, Bits(t, items))
    ensures var e := NextEvent(t, sc, s, pos, k, Blend(a, b, k));
            && e.Run? && e.news == [New(NaturalOrder(j), Coef(b, j))] && e.skim.k == j
            && e.skim.blk == Blend(a, b, j + 1) && AllCoded(t, rest) && BitsAt(s, e.skim.pos, Bits(t, rest))
            && var items := [Symbol(16 * ZerosIn(a, k, j) + 1)]
                   + ([Extra(Sign(b, j), 1)] + (Corrections(a, b, k, j) + rest));
               pos + |Bits(t, items)| == e.skim.pos + |Bits(t, rest)|
  {
    hide Bits, AllCoded, BitsAt, Value, Spec.Shape, Spec.Legal, Spec.Decode, Pow2, Skip, Blend, Refines, NaturalOrder,
         ToCoef, NextEvent, Corrections, ZerosIn;
    var r := ZerosIn(a, k, j);
    var more := Corrections(a, b, k, j) + rest;
    NewValue(sc, ss, a, b, j);
    var len := ReadSymbol(t, s, pos, 16 * r + 1, [Extra(Sign(b, j), 1)] + more);
    ReadExtra(t, s, pos + len, Sign(b, j), 1, more);
    SkipReads(t, sc, ss, s, pos + len + 1, a, b, k, j, r, rest);
    EventOfNew(t, sc, s, pos, k, Blend(a, b, k), len, r);
    BlendZero(a, b, j);
  }

  lemma NewValue(sc: Scan, ss: nat, a: Block, b: Block, j: nat)
    requires sc.Valid() && sc.P1() > 0 && Refines(sc, ss, a, b) && ss <= j <= sc.se
    requires Coef(a, j) == 0 && Coef(b, j) != 0
    ensures ToCoef(if Coef(b, j) > 0 then sc.P1() else 0 - sc.P1()) == Coef(b, j)
  {
    Pow2Bound(sc.al);
    hide Pow2, NaturalOrder;
    assert OneBit(Coef(a, j), Coef(b, j), sc.P1());
  }

  // The coded part of a band has been read from coefficient k on.
  ghost predicate BandRead(t: Spec, sc: Scan, s: seq<Bit>, pos: nat, a: Block, b: Block, k: nat, run: nat,
                           rest: seq<Item>)
    requires t.Shape() && t.Legal() && sc.Valid() && k <= sc.se + 1 && run > 0
    requires AllCoded(t, BandItems(sc, a, b, k, run) + rest)
  {
    var e, band := BandEnd(sc, a, b, k), BandScan(t, sc, s, pos, k, Blend(a, b, k));
    && band.k == e && band.blk == Blend(a, b, e) && band.news == NewsFrom(sc, a, b, k)
    && band.eobrun == (if e <= sc.se then run else 0)
    && AllCoded(t, rest) && BitsAt(s, band.pos, Bits(t, rest))
    && pos + |Bits(t, BandItems(sc, a, b, k, run) + rest)| == band.pos + |Bits(t, rest)|
  }

  lemma {:induction false} BandReads(t: Spec, sc: Scan, ss: nat, s: seq<Bit>, pos: nat, a: Block, b: Block, k: nat,
                                     run: nat, rest: seq<Item>)
    requires t.Shape() && t.Legal() && sc.Valid() && sc.P1() > 0 && Refines(sc, ss, a, b)
    requires ss <= k <= sc.se + 1 && 0 < run < 0x8000
    requires AllCoded(t, BandItems(sc, a, b, k, run) + rest)
    requires BitsAt(s, pos, Bits(t, BandItems(sc, a, b, k, run) + rest))
    ensures BandRead(t, sc, s, pos, a, b, k, run, rest)
    decreases sc.se + 1 - k
  {
    hide Bits, AllCoded, BitsAt, Spec.Shape, Spec.Legal, Blend, Refines, NaturalOrder, NextEvent, EobItems, Pow2;
    var j := NextNew(sc, a, b, k);
    if k > sc.se {
      assert [] + rest == rest;
    } else if j > sc.se {
      EobReads(t, sc, s, pos, k, Blend(a, b, k), run, rest);
    } else {
      hide BandRead, BandItems, BandScan;
      if ZerosIn(a, k, j) >= 16 {
        BandZrl(t, sc, ss, s, pos, a, b, k, run, rest);
      } else {
        BandNew(t, sc, ss, s, pos, a, b, k, run, rest);
      }
    }
  }

  lemma BandZrl(t: Spec, sc: Scan, ss: nat, s: seq<Bit>, pos: nat, a: Block, b: Block, k: nat, run: nat,
                rest: seq<Item>)
    requires t.Shape() && t.Legal() && sc.Valid() && sc.P1() > 0 && Refines(sc, ss, a, b)
    requires ss <= k <= sc.se && 0 < run < 0x8000
    requires AllCoded(t, BandItems(sc, a, b, k, run) + rest)
    requires BitsAt(s, pos, Bits(t, BandItems(sc, a, b, k, run) + rest))
    requires NextNew(sc, a, b, k) <= sc.se && ZerosIn(a, k, NextNew(sc, a, b, k)) >= 16
    ensures BandRead(t, sc, s, pos, a, b, k, run, rest)
    decreases sc.se + 1 - k, 0
  {
    hide Bits, AllCoded, BitsAt, Spec.Shape, Spec.Legal, Blend, Refines, NaturalOrder, NextEvent, Pow2, BandItems,
         Corrections, ZerosIn, NextNew;
    var j := NextNew(sc, a, b, k);
    var z := ZeroAt(a, k, 15, j);
    ZeroIsThere(a, k, 15, j);
    var next := BandItems(sc, a, b, z + 1, run);
    ItemsOfZrl(sc, a, b, k, run);
    ConcatItems3([Symbol(ZRL)], Corrections(a, b, k, z), next, rest);
    ZrlReads(t, sc, ss, s, pos, a, b, k, z, next + rest);
    NextNewSame(sc, a, b, k, z + 1);
    BandReads(t, sc, ss, s, NextEvent(t, sc, s, pos, k, Blend(a, b, k)).skim.pos, a, b, z + 1, run, rest);
  }

  lemma ItemsOfZrl(sc: Scan, a: Block, b: Block, k: nat, run: nat)
    requires sc.Valid() && k <= sc.se && run > 0
    requires NextNew(sc, a, b, k) <= sc.se && ZerosIn(a, k, NextNew(sc, a, b, k)) >= 16
    ensures var z := ZeroAt(a, k, 15, NextNew(sc, a, b, k));
            BandItems(sc, a, b, k, run) == [Symbol(ZRL)] + (Corrections(a, b, k, z) + BandItems(sc, a, b, z + 1, run))
  {
    hide Corrections, NaturalOrder, EobItems, ZerosIn, NextNew, ZeroAt, Sign;
  }

  lemma BandNew(t: Spec, sc: Scan, ss: nat, s: seq<Bit>, pos: nat, a: Block, b: Block, k: nat, run: nat,
                rest: seq<Item>)
    requires t.Shape() && t.Legal() && sc.Valid() && sc.P1() > 0 && Refines(sc, ss, a, b)
    requires ss <= k <= sc.se && 0 < run < 0x8000
    requires AllCoded(t, BandItems(sc, a, b, k, run) + rest)
    requires BitsAt(s, pos, Bits(t, BandItems(sc, a, b, k, run) + rest))
    requires NextNew(sc, a, b, k) <= sc.se && ZerosIn(a, k, NextNew(sc, a, b, k)) < 16
    ensures BandRead(t, sc, s, pos, a, b, k, run, rest)
    decreases sc.se + 1 - k, 0
  {
    hide Bits, AllCoded, BitsAt, Spec.Shape, Spec.Legal, Blend, Refines, NaturalOrder, NextEvent, Pow2, BandItems,
         Corrections, ZerosIn, NextNew;
    var j := NextNew(sc, a, b, k);
    var next := BandItems(sc, a, b, j + 1, run);
    ItemsOfNew(sc, a, b, k, run);
    ConcatItems4([Symbol(16 * ZerosIn(a, k, j) + 1)], [Extra(Sign(b, j), 1)], Corrections(a, b, k, j), next, rest);
    NewReads(t, sc, ss, s, pos, a, b, k, j, next + rest);
    BandReads(t, sc, ss, s, NextEvent(t, sc, s, pos, k, Blend(a, b, k)).skim.pos, a, b, j + 1, run, rest);
  }

  lemma ItemsOfNew(sc: Scan, a: Block, b: Block, k: nat, run: nat)
    requires sc.Valid() && k <= sc.se && run > 0
    requires NextNew(sc, a, b, k) <= sc.se && ZerosIn(a, k, NextNew(sc, a, b, k)) < 16
    ensures var j := NextNew(sc, a, b, k);
            BandItems(sc, a, b, k, run) == [Symbol(16 * ZerosIn(a, k, j) + 1)]
              + ([Extra(Sign(b, j), 1)] + (Corrections(a, b, k, j) + BandItems(sc, a, b, j + 1, run)))
  {
    hide Corrections, NaturalOrder, EobItems, ZerosIn, NextNew, ZeroAt, Sign;
  }

  lemma ConcatItems3(a: seq<Item>, b: seq<Item>, c: seq<Item>, d: seq<Item>)
    ensures (a + (b + c)) + d == a + (b + (c + d))
  {}

  lemma ConcatItems4(a: seq<Item>, b: seq<Item>, c: seq<Item>, d: seq<Item>, e: seq<Item>)
    ensures (a + (b + (c + d))) + e == a + (b + (c + (d + e)))
  {}

  // ---- reading blocks ----

  // b up to coefficient k, corrections only from there on.
  function Mixed(sc: Scan, a: Block, b: Block, k: nat): Block
    requires sc.Valid()
  {
    var c := Blend(a, b, sc.se + 1);
    seq(DCTSIZE2, i requires 0 <= i < DCTSIZE2 => if ZigZagNumber(i) < k then b[i] else c[i])
  }

  lemma {:induction false} OverlayFirst(blk: seq<int>, n: New, rest: seq<New>)
    requires |blk| == DCTSIZE2
    ensures Overlay(blk, [n] + rest) == Overlay(blk[n.index := n.value], rest)
    decreases |rest|
  {
    var all := [n] + rest;
    if rest == [] {
      assert all[..0] == [];
    } else {
      assert all[..|all| - 1] == [n] + rest[..|rest| - 1];
      OverlayFirst(blk, n, rest[..|rest| - 1]);
    }
  }

  // Between new coefficients the corrections are all there is.
  lemma MixedAt(sc: Scan, ss: nat, a: Block, b: Block, k: nat, i: nat)
    requires sc.Valid() && sc.P1() > 0 && Refines(sc, ss, a, b) && ss <= k <= sc.se + 1 && i < DCTSIZE2
    ensures var m := ZigZagNumber(i);
            m < NextNew(sc, a, b, k) || m > sc.se ==> Mixed(sc, a, b, k)[i] == b[i]
  {
    NumberInverts(i);
    var m := ZigZagNumber(i);
    assert Coef(b, m) == b[i] && Coef(a, m) == a[i];
    hide NaturalOrder, ZigZagNumber, Pow2;
    if k <= m < NextNew(sc, a, b, k) {
      NoneBefore(sc, a, b, k, m);
    }
  }

  lemma {:induction false} NoneBefore(sc: Scan, a: Block, b: Block, k: nat, m: nat)
    requires sc.Valid() && k <= sc.se + 1 && k <= m < NextNew(sc, a, b, k)
    ensures m < DCTSIZE2 && (Coef(a, m) == 0 ==> Coef(b, m) == 0)
    decreases m - k
  {
    hide NaturalOrder;
    if k < m {
      NoneBefore(sc, a, b, k + 1, m);
    }
  }

  lemma {:induction false} MixedOverlay(sc: Scan, ss: nat, a: Block, b: Block, k: nat)
    requires sc.Valid() && sc.P1() > 0 && Refines(sc, ss, a, b) && ss <= k <= sc.se + 1
    ensures Overlay(Mixed(sc, a, b, k), NewsFrom(sc, a, b, k)) == b
    decreases sc.se + 1 - k
  {
    hide NaturalOrder, ZigZagNumber, Mixed, Refines, Pow2;
    var j := NextNew(sc, a, b, k);
    forall i | 0 <= i < DCTSIZE2 && (ZigZagNumber(i) < j || ZigZagNumber(i) > sc.se)
      ensures Mixed(sc, a, b, k)[i] == b[i]
    {
      MixedAt(sc, ss, a, b, k, i);
    }
    if j > sc.se {
      assert Mixed(sc, a, b, k) == b;
    } else {
      OverlayFirst(Mixed(sc, a, b, k), New(NaturalOrder(j), Coef(b, j)), NewsFrom(sc, a, b, j + 1));
      MixedStep(sc, a, b, k, j);
      MixedOverlay(sc, ss, a, b, j + 1);
    }
  }

  lemma MixedStep(sc: Scan, a: Block, b: Block, k: nat, j: nat)
    requires sc.Valid() && k <= j <= sc.se
    requires forall i | 0 <= i < DCTSIZE2 && (ZigZagNumber(i) < j || ZigZagNumber(i) > sc.se) ::
               Mixed(sc, a, b, k)[i] == b[i]
    ensures Mixed(sc, a, b, k)[NaturalOrder(j) := Coef(b, j)] == Mixed(sc, a, b, j + 1)
  {
    OrderInverts(j);
    var x, y := Mixed(sc, a, b, k)[NaturalOrder(j) := Coef(b, j)], Mixed(sc, a, b, j + 1);
    forall i | 0 <= i < DCTSIZE2 ensures x[i] == y[i] {
      NumberInverts(i);
      hide NaturalOrder, ZigZagNumber;
    }
  }

  lemma MixedStart(sc: Scan, ss: nat, a: Block, b: Block)
    requires sc.Valid() && sc.P1() > 0 && Refines(sc, ss, a, b) && ss <= sc.se
    ensures Mixed(sc, a, b, ss) == Blend(a, b, sc.se + 1) && Blend(a, b, ss) == a
  {
    var x, y, z := Mixed(sc, a, b, ss), Blend(a, b, sc.se + 1), Blend(a, b, ss);
    forall i | 0 <= i < DCTSIZE2 ensures x[i] == y[i] && z[i] == a[i] {
      NumberInverts(i);
      assert Coef(b, ZigZagNumber(i)) == b[i] && Coef(a, ZigZagNumber(i)) == a[i];
      hide NaturalOrder, ZigZagNumber, Pow2;
    }
  }

  // Refining a block whose items come next gives the refined block, uses exactly their bits, and
  // leaves the run as the encoder has it.
  lemma BlockReads(t: Spec, sc: Scan, ss: nat, s: seq<Bit>, a: Block, b: Block, left: nat, run: nat)
    requires t.Shape() && t.Legal() && sc.Valid() && sc.P1() > 0 && 1 <= ss <= sc.se
    requires BlockCoded(t, sc, ss, a, b, left, run) && BitsAt(s, 0, Bits(t, BlockItems(sc, ss, a, b, left, run)))
    ensures var r := Refine(t, sc, ss, s, a, left);
            && Overlay(r.blk, r.news) == b && r.pos == |Bits(t, BlockItems(sc, ss, a, b, left, run))|
            && r.eobrun == LeftAfter(sc, ss, a, b, left, run)
  {
    hide Bits, AllCoded, BitsAt, Spec.Shape, Spec.Legal, Blend, Refines, NaturalOrder, Pow2, BandScan, TailScan,
         BandItems, Corrections, Mixed;
    MixedStart(sc, ss, a, b);
    MixedOverlay(sc, ss, a, b, ss);
    NoBits(t);
    if left > 0 {
      var items := Corrections(a, b, ss, sc.se + 1);
      assert items + [] == items;
      TailReads(t, sc, ss, s, 0, a, b, ss, []);
    } else {
      var e := BandEnd(sc, a, b, ss);
      var tail := Corrections(a, b, e, sc.se + 1);
      BandReads(t, sc, ss, s, 0, a, b, ss, run, tail);
      assert tail + [] == tail;
      var band := BandScan(t, sc, s, 0, ss, a);
      TailReads(t, sc, ss, s, band.pos, a, b, e, []);
      if e > sc.se {
        NoCorrections(a, b, e);
      }
    }
  }

  lemma NoCorrections(a: Block, b: Block, k: nat)
    requires k <= DCTSIZE2
    ensures Corrections(a, b, k, k) == []
  {}
}
