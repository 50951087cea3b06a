/**
  jpeg_make_d_derived_tbl of jdhuff.c: the tables that drive Huffman decoding are filled
  in place, and the counts of a DHT marker are checked to describe a code tree.
  */
module HuffmanTable {
  import opened BitStrings
  import opened HuffmanCode

  const HUFF_LOOKAHEAD := 8

  // A finished table; it is only read from then on.
  datatype DerivedTable = DerivedTable(
    pub: Spec,               // the public table, back link
    maxcode: seq<int>,       // largest code of length k, -1 if none; [17] is a sentinel
    valoffset: seq<int>,     // huffval[] offset for codes of length k
    lookNbits: seq<int>,     // number of bits, or 0 if too long
    lookSym: seq<int>)       // symbol, or unused
  {
    // The derived tables hold what the canonical code prescribes.
    ghost predicate Derived() {
      && |maxcode| == 18 && |valoffset| == 17 && |lookNbits| == 256 && |lookSym| == 256
      && pub.Shape() && pub.Legal()
      && (forall l | 1 <= l <= 17 :: maxcode[l] == pub.MaxCode(l))
      && (forall l | 1 <= l <= 16 && pub.bits[l] > 0 :: valoffset[l] == pub.Index(l) - pub.First(l))
      && (forall v | 0 <= v < 256 :: lookNbits[v] >= 0 && lookSym[v] >= 0 && pub.Look(v, lookNbits[v], lookSym[v]))
    }
  }

  // Figure C.1: the code length of each symbol, closed by a zero.
  ghost predicate Sizes(spec: Spec, huffsize: seq<int>, numsymbols: nat)
    requires spec.Shape()
  {
    && |huffsize| == 257 && numsymbols == spec.Index(17) <= 256 && huffsize[numsymbols] == 0
    && forall p | 0 <= p < numsymbols :: huffsize[p] >= 1 && spec.HasLength(p, huffsize[p])
  }

  method MakeSizes(spec: Spec) returns (ok: bool, huffsize: array<int>, numsymbols: nat)
    requires spec.Shape()
    ensures ok <==> spec.Index(17) <= 256
    ensures ok ==> fresh(huffsize) && Sizes(spec, huffsize[..], numsymbols)
  {
    huffsize := new int[257];
    var p := 0;
    for l := 1 to 17
      invariant p == spec.Index(l) <= 256
      invariant forall q | 0 <= q < p :: huffsize[q] >= 1 && spec.HasLength(q, huffsize[q])
    {
      var i := spec.bits[l];
      if p + i > 256 {
        spec.IndexMonotone(l + 1, 17);
        return false, huffsize, 0;
      }
      while i > 0
        invariant 0 <= i <= spec.bits[l] && p == spec.Index(l) + spec.bits[l] - i
        invariant forall q | 0 <= q < p :: huffsize[q] >= 1 && spec.HasLength(q, huffsize[q])
      {
        i := i - 1;
        huffsize[p] := l;
        p := p + 1;
      }
    }
    huffsize[p] := 0;
    ok, numsymbols := true, p;
  }

  // Lengths never decrease along the symbols.
  lemma SizeFrom(spec: Spec, huffsize: seq<int>, numsymbols: nat, p: nat, l: nat)
    requires spec.Shape() && Sizes(spec, huffsize, numsymbols) && 1 <= l <= 17 && p <= numsymbols
    ensures p < numsymbols && p >= spec.Index(l) ==> huffsize[p] >= l
    ensures p < spec.Index(l) ==> p < numsymbols && huffsize[p] < l
  {
    spec.IndexMonotone(l, 17);
    if p < numsymbols {
      var m := huffsize[p];
      if m < l {
        spec.IndexMonotone(m + 1, l);
      } else {
        spec.IndexMonotone(l, m);
      }
    }
  }

  // No codes are counted at lengths from l on, once all symbols have their code.
  lemma {:induction false} LegalBeyond(spec: Spec, l: nat)
    requires spec.Shape() && 2 <= l <= 17 && spec.Index(l) == spec.Index(17)
    requires forall m | 1 <= m < l :: spec.LegalAt(m)
    ensures forall m | 1 <= m <= 16 :: spec.LegalAt(m)
    decreases 17 - l
  {
    if l < 17 {
      spec.IndexMonotone(l + 1, 17);
      assert spec.Index(l + 1) == spec.Index(l) + spec.bits[l];
      assert spec.LegalAt(l - 1);
      assert Pow2(l) == 2 * Pow2(l - 1);
      LegalBeyond(spec, l + 1);
    }
  }

  // Up to the first length in use, the running code stays zero.
  lemma {:induction false} NothingShorter(spec: Spec, l: nat)
    requires spec.Shape() && 1 <= l <= 17 && spec.Index(l) == 0
    ensures spec.First(l) == 0 && forall m | 1 <= m < l :: spec.LegalAt(m)
    decreases l
  {
    if l > 1 {
      NothingShorter(spec, l - 1);
    }
  }

  // Where the symbols of one length are.
  lemma SizeAt(spec: Spec, huffsize: seq<int>, numsymbols: nat, p: nat, l: nat)
    requires spec.Shape() && Sizes(spec, huffsize, numsymbols) && 1 <= l <= 16 && p <= numsymbols
    ensures p < |huffsize| && (huffsize[p] == l <==> spec.Index(l) <= p < spec.Index(l + 1))
    ensures spec.Index(l) <= spec.Index(l + 1) <= numsymbols <= 256
  {
    SizeFrom(spec, huffsize, numsymbols, p, l);
    SizeFrom(spec, huffsize, numsymbols, p, l + 1);
    spec.IndexMonotone(l, l + 1);
    spec.IndexMonotone(l + 1, 17);
  }

  // The first p symbols have their codes.
  ghost predicate CodesTo(spec: Spec, codes: seq<int>, p: nat)
    requires spec.Shape()
  {
    forall q: nat, m: nat | spec.HasLength(q, m) && q < p :: q < |codes| && codes[q] == spec.Code(q, m)
  }

  lemma OneCode(spec: Spec, sizes: seq<int>, numsymbols: nat, codes: seq<int>, p: nat, l: nat, code: int)
    requires spec.Shape() && Sizes(spec, sizes, numsymbols) && p < numsymbols && sizes[p] == l && p < |codes|
    requires code == spec.First(l) + p - spec.Index(l) && CodesTo(spec, codes, p)
    ensures CodesTo(spec, codes[p := code], p + 1)
  {
    forall m: nat | spec.HasLength(p, m) ensures m == l {
      spec.UniqueLength(p, m, l);
    }
  }

  // The codes of one length.
  method CodesOfLength(spec: Spec, huffsize: array<int>, ghost numsymbols: nat, huffcode: array<int>, p0: nat, si: nat,
                       code0: int)
    returns (p: nat, code: int)
    requires spec.Shape() && Sizes(spec, huffsize[..], numsymbols) && huffcode.Length == 257 && huffcode != huffsize
    requires 1 <= si <= 16 && p0 == spec.Index(si) < numsymbols && code0 == spec.First(si) && huffsize.Length == 257
    requires CodesTo(spec, huffcode[..], p0)
    modifies huffcode
    ensures p == spec.Index(si + 1) <= numsymbols && code == spec.First(si) + p - spec.Index(si)
    ensures CodesTo(spec, huffcode[..], p)
  {
    hide CodesTo, Sizes, Spec.First, Spec.Index;
    ghost var sizes := huffsize[..];
    p, code := p0, code0;
    SizeAt(spec, sizes, numsymbols, p, si);
    while huffsize[p] == si
      invariant huffsize[..] == sizes && spec.Index(si) <= p <= spec.Index(si + 1) <= numsymbols <= 256
      invariant huffsize[p] == si <==> p < spec.Index(si + 1)
      invariant code == spec.First(si) + p - spec.Index(si)
      invariant CodesTo(spec, huffcode[..], p)
      decreases numsymbols - p
    {
      OneCode(spec, sizes, numsymbols, huffcode[..], p, si, code);
      ghost var codes := huffcode[..];
      huffcode[p] := code;
      assert huffcode[..] == codes[p := code];
      p := p + 1;
      code := code + 1;
      SizeAt(spec, sizes, numsymbols, p, si);
    }
  }

  // Figure C.2: the codes themselves, with the check for a legal tree.
  method MakeCodes(spec: Spec, huffsize: array<int>, numsymbols: nat) returns (ok: bool, huffcode: array<int>)
    requires spec.Shape() && Sizes(spec, huffsize[..], numsymbols)
    ensures ok <==> spec.Legal()
    ensures fresh(huffcode) && huffcode.Length == 257
    ensures ok ==> forall p: nat, l: nat | spec.HasLength(p, l) :: p < numsymbols && huffcode[p] == spec.Code(p, l)
  {
    hide CodesTo;
    ghost var sizes := huffsize[..];
    huffcode := new int[257];
    var code, si, p := 0, huffsize[0], 0;
    NothingShorter(spec, if numsymbols > 0 then si else 17);
    NoCodes(spec, huffcode[..]);
    while huffsize[p] != 0
      invariant huffsize[..] == sizes && 0 <= p <= numsymbols
      invariant numsymbols > 0 ==> 1 <= si <= 17 && p == spec.Index(si) && code == spec.First(si)
      invariant numsymbols > 0 ==> forall l | 1 <= l < si :: spec.LegalAt(l)
      invariant p > 0 ==> si >= 2
      invariant CodesTo(spec, huffcode[..], p)
      decreases 17 - si
    {
      SizeFrom(spec, sizes, numsymbols, p, si);
      p, code := CodesOfLength(spec, huffsize, numsymbols, huffcode, p, si, code);
      if code >= Pow2(si) {
        assert !spec.LegalAt(si);
        return false, huffcode;
      }
      assert spec.LegalAt(si);
      code := code * 2;
      si := si + 1;
    }
    if numsymbols > 0 {
      LegalBeyond(spec, si);
    }
    ok := true;
    AllCodes(spec, huffcode[..], numsymbols);
  }

  lemma NoCodes(spec: Spec, codes: seq<int>)
    requires spec.Shape()
    ensures CodesTo(spec, codes, 0)
  {}

  lemma AllCodes(spec: Spec, codes: seq<int>, numsymbols: nat)
    requires spec.Shape() && numsymbols == spec.Index(17) && CodesTo(spec, codes, numsymbols)
    ensures forall p: nat, l: nat | spec.HasLength(p, l) ::
              p < numsymbols && p < |codes| && codes[p] == spec.Code(p, l)
  {
    forall p: nat, l: nat | spec.HasLength(p, l) ensures p < numsymbols {
      spec.IndexMonotone(l + 1, 17);
    }
  }

  // Figure F.15: tables for bit-sequential decoding.
  method MakeSequential(spec: Spec, huffcode: array<int>, maxcode: array<int>, valoffset: array<int>)
    requires spec.Shape() && spec.Legal() && huffcode.Length == 257
    requires forall p: nat, l: nat | spec.HasLength(p, l) :: p < 257 && huffcode[p] == spec.Code(p, l)
    requires maxcode.Length == 18 && valoffset.Length == 17
    requires maxcode != valoffset && maxcode != huffcode && valoffset != huffcode
    modifies maxcode, valoffset
    ensures forall l | 1 <= l <= 17 :: maxcode[l] == spec.MaxCode(l)
    ensures forall l | 1 <= l <= 16 && spec.bits[l] > 0 :: valoffset[l] == spec.Index(l) - spec.First(l)
  {
    hide Spec.Legal, Spec.MaxCode, Spec.First;
    var p := 0;
    for l := 1 to 17
      invariant p == spec.Index(l)
      invariant forall m | 1 <= m < l :: maxcode[m] == spec.MaxCode(m)
      invariant forall m | 1 <= m < l && spec.bits[m] > 0 :: valoffset[m] == spec.Index(m) - spec.First(m)
    {
      if spec.bits[l] > 0 {
        CodesAt(spec, huffcode[..], l);
        valoffset[l] := p - huffcode[p];
        p := p + spec.bits[l];
        maxcode[l] := huffcode[p - 1];
      } else {
        NoCodesAt(spec, l);
        maxcode[l] := -1;
      }
    }
    maxcode[17] := 0xFFFFF;
    Sentinel(spec);
  }

  // The first and the last code of a length.
  lemma CodesAt(spec: Spec, codes: seq<int>, l: nat)
    requires spec.Shape() && 1 <= l <= 16 && spec.bits[l] > 0 && |codes| == 257
    requires forall p: nat, l: nat | spec.HasLength(p, l) :: p < 257 && codes[p] == spec.Code(p, l)
    ensures var p, n := spec.Index(l), spec.bits[l];
            p + n <= 257 && codes[p] == spec.First(l) && codes[p + n - 1] == spec.MaxCode(l)
  {
    assert spec.HasLength(spec.Index(l), l) && spec.HasLength(spec.Index(l) + spec.bits[l] - 1, l);
  }

  lemma NoCodesAt(spec: Spec, l: nat)
    requires spec.Shape() && 1 <= l <= 16 && spec.bits[l] == 0
    ensures spec.MaxCode(l) == -1
  {}

  lemma Sentinel(spec: Spec)
    requires spec.Shape()
    ensures spec.MaxCode(17) == 0xFFFFF
  {}

  // Entries below the frontier are filled, the others still zero.
  ghost predicate FilledTo(spec: Spec, nbits: seq<int>, syms: seq<int>, frontier: int)
    requires spec.Shape() && spec.Legal() && |nbits| == |syms| == 256
  {
    && (forall v | 0 <= v < 256 && v < frontier ::
          nbits[v] >= 1 && syms[v] >= 0 && spec.Look(v, nbits[v], syms[v]))
    && (forall v | 0 <= v < 256 && v >= frontier :: nbits[v] == 0 && syms[v] >= 0)
  }

  // One entry: all eight-bit values that start with code c of length l.
  lemma EntryIsLook(spec: Spec, v: nat, l: nat, c: nat)
    requires spec.Shape() && spec.Legal() && 1 <= l <= 8 && v < 256
    requires spec.Matches(l, c) && Shl(c, 8 - l) <= v < Shl(c + 1, 8 - l)
    ensures 0 <= spec.Index(l) + c - spec.First(l) < 256
    ensures spec.Look(v, l, spec.huffval[spec.Index(l) + c - spec.First(l)])
  {
    ShrInterval(v, 8 - l, c);
    spec.IndexMonotone(l + 1, 17);
  }

  lemma EntriesAreLooks(spec: Spec, l: nat, c: nat, sym: nat)
    requires spec.Shape() && spec.Legal() && 1 <= l <= 8 && spec.Matches(l, c)
    requires Shl(c + 1, 8 - l) <= 256
    requires 0 <= spec.Index(l) + c - spec.First(l) < 256 && sym == spec.huffval[spec.Index(l) + c - spec.First(l)]
    ensures forall v: nat | Shl(c, 8 - l) <= v < Shl(c + 1, 8 - l) :: spec.Look(v, l, sym)
  {
    hide Spec.Look, Shl, Spec.Legal;
    forall v: nat | Shl(c, 8 - l) <= v < Shl(c + 1, 8 - l)
      ensures spec.Look(v, l, sym)
    {
      EntryIsLook(spec, v, l, c);
    }
  }

  // Values past the last short code start no short code.
  lemma BeyondFrontier(spec: Spec, v: nat, sym: nat)
    requires spec.Shape() && spec.Legal() && v < 256 && v >= spec.End(8)
    ensures spec.Look(v, 0, sym)
  {
    forall l | 1 <= l <= 8 ensures !spec.Matches(l, Spec.Leading(v, l)) {
      if l < 8 {
        spec.Beyond(v, l, 8);
      }
    }
  }

  lemma FrontierFits(spec: Spec, l: nat)
    requires spec.Shape() && spec.Legal() && 1 <= l <= 8
    ensures Shl(spec.End(l), 8 - l) <= 256
    ensures l < 8 ==> Shl(spec.End(l), 8 - l) == Shl(spec.First(l + 1), 7 - l)
    ensures l == 8 ==> Shl(spec.End(l), 8 - l) == spec.End(8)
    ensures Shl(spec.First(1), 7) == 0
  {
    assert spec.LegalAt(l);
    Pow2Adds(l, 8 - l);
    assert Pow2(8) == 256;
    ShlMonotone(spec.End(l), Pow2(l), 8 - l);
    ShlFacts(0, 7);
    if l < 8 {
      ShlFacts(spec.End(l), 7 - l);
    } else {
      ShlFacts(spec.End(l), 0);
    }
  }

  lemma FilledOne(spec: Spec, nbits: seq<int>, syms: seq<int>, v: nat, nb: nat, sym: nat)
    requires spec.Shape() && spec.Legal() && |nbits| == |syms| == 256 && v < 256
    requires FilledTo(spec, nbits, syms, v) && nb >= 1 && spec.Look(v, nb, sym)
    ensures FilledTo(spec, nbits[v := nb], syms[v := sym], v + 1)
  {}

  // The inner loop: all bit sequences that start with the code of symbol p.
  method FillCode(spec: Spec, p: nat, l: nat, code: nat, lookNbits: array<int>, lookSym: array<int>)
    requires spec.Shape() && spec.Legal() && lookNbits.Length == lookSym.Length == 256 && lookNbits != lookSym
    requires 1 <= l <= 8 && spec.HasLength(p, l) && code == spec.Code(p, l)
    requires Shl(code + 1, 8 - l) <= 256
    requires FilledTo(spec, lookNbits[..], lookSym[..], Shl(code, 8 - l))
    modifies lookNbits, lookSym
    ensures FilledTo(spec, lookNbits[..], lookSym[..], Shl(code + 1, 8 - l))
  {
    spec.CodeMatches(p, l);
    ShlFacts(code, 8 - l);
    hide FilledTo, Spec.Look, Spec.Legal, Shl;
    ghost var lo, hi := Shl(code, 8 - l), Shl(code + 1, 8 - l);
    var lookbits := Shl(code, 8 - l);
    var ctr: int := Pow2(8 - l);
    assert hi == lo + ctr;
    EntriesAreLooks(spec, l, code, spec.huffval[p]);
    FillRange(spec, l, spec.huffval[p], lookbits, ctr, lookNbits, lookSym);
  }

  method FillRange(spec: Spec, l: nat, sym: nat, start: nat, count: nat,
                   lookNbits: array<int>, lookSym: array<int>)
    requires spec.Shape() && spec.Legal() && lookNbits.Length == lookSym.Length == 256 && lookNbits != lookSym
    requires 1 <= l <= 8 && start + count <= 256
    requires forall v: nat | start <= v < start + count :: spec.Look(v, l, sym)
    requires FilledTo(spec, lookNbits[..], lookSym[..], start)
    modifies lookNbits, lookSym
    ensures FilledTo(spec, lookNbits[..], lookSym[..], start + count)
  {
    hide FilledTo, Spec.Look, Spec.Legal;
    var lookbits, ctr := start, count;
    while ctr > 0
      invariant 0 <= ctr && lookbits + ctr == start + count && lookbits >= start
      invariant FilledTo(spec, lookNbits[..], lookSym[..], lookbits)
    {
      FilledOne(spec, lookNbits[..], lookSym[..], lookbits, l, sym);
      ghost var nbits, syms := lookNbits[..], lookSym[..];
      lookNbits[lookbits] := l;
      lookSym[lookbits] := sym;
      assert lookNbits[..] == nbits[lookbits := l] && lookSym[..] == syms[lookbits := sym];
      lookbits := lookbits + 1;
      ctr := ctr - 1;
    }
  }

  // All codes of one length.
  method FillLength(spec: Spec, p0: nat, l: nat, huffcode: array<int>, lookNbits: array<int>, lookSym: array<int>)
    returns (p: nat)
    requires spec.Shape() && spec.Legal() && huffcode.Length == 257 && 1 <= l <= 8 && p0 == spec.Index(l)
    requires forall p: nat, l: nat | spec.HasLength(p, l) :: p < 257 && huffcode[p] == spec.Code(p, l)
    requires lookNbits.Length == lookSym.Length == 256 && lookNbits != lookSym
    requires huffcode != lookNbits && huffcode != lookSym
    requires FilledTo(spec, lookNbits[..], lookSym[..], Shl(spec.First(l), 8 - l))
    modifies lookNbits, lookSym
    ensures p == spec.Index(l + 1)
    ensures FilledTo(spec, lookNbits[..], lookSym[..], Shl(spec.End(l), 8 - l))
  {
    hide FilledTo, Spec.Legal, Shl;
    FrontierFits(spec, l);
    p := p0;
    for i := 1 to spec.bits[l] + 1
      invariant p == spec.Index(l) + i - 1
      invariant FilledTo(spec, lookNbits[..], lookSym[..], Shl(spec.First(l) + i - 1, 8 - l))
    {
      assert spec.HasLength(p, l);
      ShlMonotone(spec.First(l) + i, spec.End(l), 8 - l);
      FillCode(spec, p, l, huffcode[p], lookNbits, lookSym);
      p := p + 1;
    }
  }

  // Lookahead tables for codes of up to eight bits.
  method MakeLookahead(spec: Spec, huffcode: array<int>, lookNbits: array<int>, lookSym: array<int>)
    requires spec.Shape() && spec.Legal() && huffcode.Length == 257
    requires forall p: nat, l: nat | spec.HasLength(p, l) :: p < 257 && huffcode[p] == spec.Code(p, l)
    requires lookNbits.Length == lookSym.Length == 256 && lookNbits != lookSym
    requires huffcode != lookNbits && huffcode != lookSym
    modifies lookNbits, lookSym
    ensures forall v | 0 <= v < 256 ::
              lookNbits[v] >= 0 && lookSym[v] >= 0 && spec.Look(v, lookNbits[v], lookSym[v])
  {
    for v := 0 to 256
      invariant forall w | 0 <= w < v :: lookNbits[w] == 0 && lookSym[w] == 0
    {
      lookNbits[v], lookSym[v] := 0, 0;
    }
    var p := 0;
    ghost var frontier := 0;
    for l := 1 to HUFF_LOOKAHEAD + 1
      invariant p == spec.Index(l)
      invariant frontier == if l <= 8 then Shl(spec.First(l), 8 - l) else spec.End(8)
      invariant FilledTo(spec, lookNbits[..], lookSym[..], frontier)
    {
      p := FillLength(spec, p, l, huffcode, lookNbits, lookSym);
      FrontierFits(spec, l);
      frontier := Shl(spec.End(l), 8 - l);
    }
    forall v | 0 <= v < 256
      ensures lookNbits[v] >= 0 && lookSym[v] >= 0 && spec.Look(v, lookNbits[v], lookSym[v])
    {
      if v >= spec.End(8) {
        BeyondFrontier(spec, v, lookSym[v]);
      }
    }
  }

  // DC symbols must lie in 0..15.
  predicate DcSymbols(spec: Spec)
    requires spec.Shape() && spec.Index(17) <= 256
  {
    forall i | 0 <= i < spec.Index(17) :: spec.huffval[i] <= 15
  }

  // jpeg_make_d_derived_tbl: the tables are filled in place, then handed over; a false
  // result is JERR_BAD_HUFF_TABLE.
  method MakeDerivedTable(spec: Spec, isDC: bool) returns (ok: bool, dtbl: DerivedTable)
    requires spec.Shape()
    ensures ok <==> spec.Legal() && (isDC ==> DcSymbols(spec))
    ensures ok ==> dtbl.Derived() && dtbl.pub == spec
  {
    dtbl := DerivedTable(spec, [], [], [], []);
    var huffsize, numsymbols;
    ok, huffsize, numsymbols := MakeSizes(spec);
    if !ok {
      return;
    }
    var huffcode;
    ok, huffcode := MakeCodes(spec, huffsize, numsymbols);
    if !ok {
      return;
    }
    var maxcode, valoffset := new int[18], new int[17];
    var lookNbits, lookSym := new int[256], new int[256];
    MakeSequential(spec, huffcode, maxcode, valoffset);
    MakeLookahead(spec, huffcode, lookNbits, lookSym);
    dtbl := DerivedTable(spec, maxcode[..], valoffset[..], lookNbits[..], lookSym[..]);
    if isDC {
      for i := 0 to numsymbols
        invariant forall j | 0 <= j < i :: spec.huffval[j] <= 15
      {
        if spec.huffval[i] > 15 {
          return false, dtbl;
        }
      }
    }
  }
}
