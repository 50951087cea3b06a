/**
  Canonical Huffman codes (Annex C of ITU-T T.81) and their decoding (section F.2.2.3),
  the mathematics behind jpeg_make_d_derived_tbl and jpeg_huff_decode in jdhuff.c.
  */
module HuffmanCode {
  import opened BitStrings

  // A table as a DHT marker gives it: bits[l] codes of each length l, and the symbols in code order.
  datatype Spec = Spec(bits: seq<nat>, huffval: seq<nat>) {
    predicate Shape() {
      |bits| == 17 && |huffval| == 256 && forall i | 0 <= i < 256 :: huffval[i] <= 255
    }

    // Index of the first symbol whose code has length l or more.
    function Index(l: nat): nat
      requires Shape() && 1 <= l <= 17
    {
      if l == 1 then 0 else Index(l - 1) + bits[l - 1]
    }

    // First code of length l, and one past the last.
    function First(l: nat): nat
      requires Shape() && 1 <= l <= 17
    {
      if l == 1 then 0 else 2 * (First(l - 1) + bits[l - 1])
    }

    function End(l: nat): nat
      requires Shape() && 1 <= l <= 16
    {
      First(l) + bits[l]
    }

    // The counts form a code tree in which no code is all ones.
    predicate LegalAt(l: nat)
      requires Shape() && 1 <= l <= 16
    {
      End(l) < Pow2(l)
    }

    predicate Legal()
      requires Shape()
    {
      Index(17) <= 256 && forall l | 1 <= l <= 16 :: LegalAt(l)
    }

    // Symbol p has a code of length l.
    predicate HasLength(p: nat, l: nat)
      requires Shape()
    {
      1 <= l <= 16 && Index(l) <= p < Index(l + 1)
    }

    function Code(p: nat, l: nat): nat
      requires Shape() && HasLength(p, l)
    {
      First(l) + p - Index(l)
    }

    // A prefix that spells v in l bits is a code of that length.
    predicate Matches(l: nat, v: nat)
      requires Shape() && 1 <= l <= 16
    {
      First(l) <= v < End(l)
    }

    lemma {:induction false} IndexMonotone(l: nat, m: nat)
      requires Shape() && 1 <= l <= m <= 17
      ensures Index(l) <= Index(m)
      decreases m
    {
      if l < m {
        IndexMonotone(l, m - 1);
      }
    }

    lemma CodeMatches(p: nat, l: nat)
      requires Shape() && Legal() && HasLength(p, l)
      ensures Matches(l, Code(p, l)) && Code(p, l) < Pow2(l) && p < Index(17) <= 256
    {
      assert LegalAt(l);
      assert Index(l + 1) == Index(l) + bits[l];
      IndexMonotone(l + 1, 17);
    }

    // Every symbol has a code.
    lemma {:induction false} LengthOf(p: nat, top: nat) returns (l: nat)
      requires Shape() && 1 <= top <= 17 && p < Index(top)
      ensures HasLength(p, l) && l < top
      decreases top
    {
      if p < Index(top - 1) {
        l := LengthOf(p, top - 1);
      } else {
        l := top - 1;
      }
    }

    lemma UniqueLength(p: nat, l: nat, m: nat)
      requires Shape() && HasLength(p, l) && HasLength(p, m)
      ensures l == m
    {
      if l < m {
        IndexMonotone(l + 1, m);
      } else if m < l {
        IndexMonotone(m + 1, l);
      }
    }

    // ---- the code tree ----

    // Codes of length up to l, each counted as often as it has extensions to length l.
    function Leaves(l: nat): nat
      requires Shape() && l <= 16
    {
      if l == 0 then 0 else 2 * Leaves(l - 1) + bits[l]
    }

    // The counts are accepted exactly if they satisfy Kraft's inequality at every length, with the
    // code of all ones left over.
    lemma {:induction false} EndCounts(l: nat)
      requires Shape() && 1 <= l <= 16
      ensures End(l) == Leaves(l)
      decreases l
    {
      if l > 1 {
        EndCounts(l - 1);
      }
    }

    lemma KraftAt(l: nat)
      requires Shape() && 1 <= l <= 16
      ensures LegalAt(l) <==> Leaves(l) < Pow2(l)
    {
      EndCounts(l);
    }

    lemma LegalIsKraft()
      requires Shape()
      ensures Legal() <==> Index(17) <= 256 && forall l | 1 <= l <= 16 :: Leaves(l) < Pow2(l)
    {
      hide LegalAt, Leaves, Pow2, Index;
      forall l | 1 <= l <= 16 ensures LegalAt(l) <==> Leaves(l) < Pow2(l) {
        KraftAt(l);
      }
      if Legal() {
        assert forall l | 1 <= l <= 16 :: Leaves(l) < Pow2(l);
      } else if Index(17) <= 256 {
        var l :| 1 <= l <= 16 && !LegalAt(l);
        assert !(Leaves(l) < Pow2(l));
      }
    }

    // The first code is all zeros; each further one is the one before plus one, with zeros appended
    // if it is longer (Figure C.2).
    lemma {:induction false} NoneShorter(l: nat)
      requires Shape() && 1 <= l <= 17 && Index(l) == 0
      ensures First(l) == 0
      decreases l
    {
      if l > 1 {
        IndexMonotone(1, l - 1);
        NoneShorter(l - 1);
      }
    }

    lemma FirstCode(l: nat)
      requires Shape() && Legal() && HasLength(0, l)
      ensures Code(0, l) == 0
    {
      NoneShorter(l);
    }

    lemma {:induction false} FirstShifts(l: nat, m: nat)
      requires Shape() && 1 <= l <= m <= 17 && Index(l) == Index(m)
      ensures First(m) == Shl(First(l), m - l)
      decreases m
    {
      if l < m {
        IndexMonotone(l, m - 1);
        FirstShifts(l, m - 1);
        ShlFacts(First(l), m - 1 - l);
      } else {
        ShlFacts(First(l), 0);
      }
    }

    lemma NextCode(p: nat, l: nat, m: nat)
      requires Shape() && Legal() && HasLength(p, l) && HasLength(p + 1, m)
      ensures l <= m && Code(p + 1, m) == Shl(Code(p, l) + 1, m - l)
    {
      if m < l {
        IndexMonotone(m + 1, l);
        assert false;
      } else if l < m {
        NextIsLonger(p, l, m);
      } else {
        ShlFacts(Code(p, l) + 1, 0);
        assert Code(p + 1, m) == Code(p, l) + 1;
      }
    }

    lemma NextIsLonger(p: nat, l: nat, m: nat)
      requires Shape() && Legal() && HasLength(p, l) && HasLength(p + 1, m) && l < m
      ensures Code(p + 1, m) == Shl(Code(p, l) + 1, m - l)
    {
      IndexMonotone(l + 1, m);
      assert Index(l + 1) == Index(l) + bits[l];
      assert First(l + 1) == 2 * (First(l) + bits[l]);
      hide First, Index, LegalAt, Shl;
      FirstShifts(l + 1, m);
      ShlFacts(Code(p, l) + 1, m - l - 1);
      assert m - l == (m - l - 1) + 1;
    }

    // A longer spelling lies beyond the shorter codes exactly when its prefix does.
    lemma {:induction false} Beyond(v: nat, l: nat, m: nat)
      requires Shape() && 1 <= l < m <= 17 && v >= First(m)
      ensures Shr(v, m - l) >= End(l)
      decreases m - l
    {
      if m == l + 1 {
        assert Shr(v, 1) == v / 2;
      } else {
        Beyond(v, l + 1, m);
        ShrHalves(v, m - l - 1);
        assert Shr(v, m - l) == Shr(v, m - l - 1) / 2;
      }
    }

    // No code is a prefix of another symbol's code.
    lemma PrefixFree(p: nat, l: nat, q: nat, m: nat)
      requires Shape() && Legal() && HasLength(p, l) && HasLength(q, m) && l <= m
      ensures Shr(Code(q, m), m - l) == Code(p, l) ==> p == q
    {
      CodeMatches(p, l);
      CodeMatches(q, m);
      if l < m {
        Beyond(Code(q, m), l, m);
      }
    }

    // Nor is a code all ones.
    lemma NotAllOnes(p: nat, l: nat)
      requires Shape() && Legal() && HasLength(p, l)
      ensures Code(p, l) < Pow2(l) - 1
    {
      assert LegalAt(l);
      CodeMatches(p, l);
    }

    // Largest code of length l, or -1; the entry for 17 is a sentinel that stops any search.
    function MaxCode(l: nat): int
      requires Shape() && 1 <= l <= 17
    {
      if l == 17 then 0xFFFFF else if bits[l] > 0 then End(l) - 1 else -1
    }

    // min_bits is legal when no code shorter than l bits fits at this point of the stream.
    predicate LegalStart(s: seq<Bit>, pos: nat, l: nat)
      requires Shape()
    {
      1 <= l <= 17 && Value(s, pos, l) >= First(l)
    }

    lemma Advance(s: seq<Bit>, pos: nat, l: nat)
      requires Shape() && Legal() && 1 <= l <= 16
      ensures Value(s, pos, l + 1) >= First(l + 1) <==> Value(s, pos, l) >= End(l)
      ensures Value(s, pos, l) >= First(l) ==> (Value(s, pos, l) >= End(l) <==> Value(s, pos, l) > MaxCode(l))
    {}

    // Figure F.16: lengthen the code bit by bit until it is no more than the largest of
    // its length.  The result is the number of bits consumed and the symbol; garbage runs
    // into the sentinel and yields a zero.
    function DecodeFrom(s: seq<Bit>, pos: nat, l: nat): (r: (nat, nat))
      requires Shape() && Legal() && LegalStart(s, pos, l)
      ensures l <= r.0 <= 17 && r.1 <= 255
      decreases 17 - l
    {
      if l == 17 then (17, 0)
      else if Value(s, pos, l) > MaxCode(l) then
        Advance(s, pos, l);
        DecodeFrom(s, pos, l + 1)
      else
        IndexMonotone(l + 1, 17);
        (l, huffval[Index(l) + Value(s, pos, l) - First(l)])
    }

    function Decode(s: seq<Bit>, pos: nat): (r: (nat, nat))
      requires Shape() && Legal()
      ensures 1 <= r.0 <= 17 && r.1 <= 255
    {
      DecodeFrom(s, pos, 1)
    }

    // Starting the search at any legal length gives the same symbol and length.
    lemma {:induction false} AnyLegalStart(s: seq<Bit>, pos: nat, l: nat)
      requires Shape() && Legal() && LegalStart(s, pos, l)
      ensures DecodeFrom(s, pos, l) == Decode(s, pos)
      decreases l
    {
      if l > 1 {
        Advance(s, pos, l - 1);
        AnyLegalStart(s, pos, l - 1);
      }
    }

    // A code that fits is the one decoded, whatever follows it.
    lemma MatchDecodes(s: seq<Bit>, pos: nat, l: nat, p: nat)
      requires Shape() && Legal() && HasLength(p, l) && Value(s, pos, l) == Code(p, l)
      ensures p < 256 && Decode(s, pos) == (l, huffval[p])
    {
      CodeMatches(p, l);
      hide Value, Pow2, LegalAt, Decode;
      AnyLegalStart(s, pos, l);
    }

    // Conversely the decoder consumes 17 bits exactly when no code fits.
    lemma {:induction false} NoMatchFails(s: seq<Bit>, pos: nat, l: nat)
      requires Shape() && Legal() && LegalStart(s, pos, l)
      ensures DecodeFrom(s, pos, l).0 == 17 <==> forall m | l <= m <= 16 :: !Matches(m, Value(s, pos, m))
      decreases 17 - l
    {
      hide Value, Pow2;
      if l < 17 && Value(s, pos, l) > MaxCode(l) {
        Advance(s, pos, l);
        NoMatchFails(s, pos, l + 1);
        assert !Matches(l, Value(s, pos, l));
      } else if l < 17 {
        Advance(s, pos, l);
        assert Matches(l, Value(s, pos, l));
      }
    }

    // ---- lookahead ----

    // The first l of the eight bits spelled by v.
    static function Leading(v: nat, l: nat): nat
      requires l <= 8
    {
      Shr(v, 8 - l)
    }

    // What the lookahead tables hold for the next eight bits v: the length and symbol of the
    // code that v starts with, or a zero length if that code is longer than eight bits.
    predicate Look(v: nat, nb: nat, sym: nat)
      requires Shape() && Legal() && v < 256
    {
      && nb <= 8
      && (nb == 0 ==> forall l | 1 <= l <= 8 :: !Matches(l, Leading(v, l)))
      && (nb > 0 ==>
            var c := Leading(v, nb);
            Matches(nb, c) && 0 <= Index(nb) + c - First(nb) < 256 && sym == huffval[Index(nb) + c - First(nb)])
    }

    lemma {:induction false} NoShortMatch(s: seq<Bit>, pos: nat, l: nat)
      requires Shape() && Legal() && 1 <= l <= 9
      requires forall m | 1 <= m < l :: !Matches(m, Value(s, pos, m))
      ensures LegalStart(s, pos, l)
    {
      if l > 1 {
        NoShortMatch(s, pos, l - 1);
        Advance(s, pos, l - 1);
      }
    }

    lemma NoEntryNoMatch(s: seq<Bit>, pos: nat, sym: nat, m: nat)
      requires Shape() && Legal() && Value(s, pos, 8) < 256 && Look(Value(s, pos, 8), 0, sym) && 1 <= m <= 8
      ensures !Matches(m, Value(s, pos, m))
    {
      ShrOfValue(s, pos, 8, 8 - m);
      assert !Matches(m, Leading(Value(s, pos, 8), m));
    }

    lemma NoEntryLongCode(s: seq<Bit>, pos: nat, sym: nat)
      requires Shape() && Legal() && Value(s, pos, 8) < 256 && Look(Value(s, pos, 8), 0, sym)
      ensures LegalStart(s, pos, 9) && Decode(s, pos) == DecodeFrom(s, pos, 9)
    {
      forall m | 1 <= m < 9 ensures !Matches(m, Value(s, pos, m)) {
        NoEntryNoMatch(s, pos, sym, m);
      }
      hide Look, Value, Matches, Legal;
      NoShortMatch(s, pos, 9);
      AnyLegalStart(s, pos, 9);
    }

    // The table-driven path of HUFF_DECODE and the bit-serial one agree on every bit string.
    lemma LookaheadAgrees(s: seq<Bit>, pos: nat, nb: nat, sym: nat)
      requires Shape() && Legal() && Value(s, pos, 8) < 256 && Look(Value(s, pos, 8), nb, sym)
      ensures nb > 0 ==> Decode(s, pos) == (nb, sym)
      ensures nb == 0 ==> LegalStart(s, pos, 9) && Decode(s, pos) == DecodeFrom(s, pos, 9)
    {
      hide Decode, DecodeFrom, First, Value, Legal, Shr, Shape;
      if nb > 0 {
        ShrOfValue(s, pos, 8, 8 - nb);
        MatchDecodes(s, pos, nb, Index(nb) + Value(s, pos, nb) - First(nb));
      } else {
        NoEntryLongCode(s, pos, sym);
      }
    }

    // ---- encoding ----

    // Code length of symbol number p.
    function Length(p: nat): (l: nat)
      requires Shape() && Legal() && p < Index(17)
      ensures HasLength(p, l)
    {
      LengthBelow(p, 17)
    }

    function LengthBelow(p: nat, top: nat): (l: nat)
      requires Shape() && 1 <= top <= 17 && p < Index(top)
      ensures HasLength(p, l)
      decreases top
    {
      if p < Index(top - 1) then LengthBelow(p, top - 1) else top - 1
    }

    function CodeString(p: nat): seq<Bit>
      requires Shape() && Legal() && p < Index(17)
    {
      Spell(Code(p, Length(p)), Length(p))
    }

    function Encode(ps: seq<nat>): seq<Bit>
      requires Shape() && Legal() && forall i | 0 <= i < |ps| :: ps[i] < Index(17)
    {
      if ps == [] then [] else CodeString(ps[0]) + Encode(ps[1..])
    }

    // Decode n symbols in a row: the symbols, and the position after them.
    function DecodeMany(s: seq<Bit>, pos: nat, n: nat): (r: (seq<nat>, nat))
      requires Shape() && Legal()
      decreases n
    {
      if n == 0 then ([], pos)
      else
        var (len, sym) := Decode(s, pos);
        var (syms, end) := DecodeMany(s, pos + len, n - 1);
        ([sym] + syms, end)
    }

    lemma CodeStringValue(p: nat, s: seq<Bit>, pos: nat)
      requires Shape() && Legal() && p < Index(17)
      requires pos + Length(p) <= |s| && s[pos..pos + Length(p)] == CodeString(p)
      ensures Value(s, pos, Length(p)) == Code(p, Length(p))
    {
      hide Spell, Value, LegalAt;
      CodeMatches(p, Length(p));
      ValueOfSpelling(s, pos, Code(p, Length(p)), Length(p));
    }

    lemma EncodedSymbol(p: nat, s: seq<Bit>, pos: nat)
      requires Shape() && Legal() && p < Index(17)
      requires pos + Length(p) <= |s| && s[pos..pos + Length(p)] == CodeString(p)
      ensures p < 256 && Decode(s, pos) == (Length(p), huffval[p])
    {
      CodeStringValue(p, s, pos);
      MatchDecodes(s, pos, Length(p), p);
    }

    lemma EncodingSplits(ps: seq<nat>, s: seq<Bit>, pos: nat)
      requires Shape() && Legal() && ps != [] && forall i | 0 <= i < |ps| :: ps[i] < Index(17)
      requires pos + |Encode(ps)| <= |s| && s[pos..pos + |Encode(ps)|] == Encode(ps)
      ensures var l := Length(ps[0]);
              && |Encode(ps)| == l + |Encode(ps[1..])|
              && s[pos..pos + l] == CodeString(ps[0])
              && s[pos + l..pos + l + |Encode(ps[1..])|] == Encode(ps[1..])
    {
      hide Legal, Shape, Index, Length, CodeString;
      CodeStringLength(ps[0]);
      assert Encode(ps) == CodeString(ps[0]) + Encode(ps[1..]);
      SplitWindow(CodeString(ps[0]), Encode(ps[1..]), s, pos);
    }

    static lemma SplitWindow(a: seq<Bit>, b: seq<Bit>, s: seq<Bit>, pos: nat)
      requires pos + |a + b| <= |s| && s[pos..pos + |a + b|] == a + b
      ensures s[pos..pos + |a|] == a && s[pos + |a|..pos + |a| + |b|] == b
    {
      var window := s[pos..pos + |a + b|];
      assert window[..|a|] == a && window[|a|..] == b;
      assert s[pos..pos + |a|] == window[..|a|];
      assert s[pos + |a|..pos + |a| + |b|] == window[|a|..];
    }

    lemma CodeStringLength(p: nat)
      requires Shape() && Legal() && p < Index(17)
      ensures |CodeString(p)| == Length(p)
    {}

    // Decoding inverts encoding, for every sequence of symbols in any surroundings.
    lemma {:induction false} RoundTrip(ps: seq<nat>, s: seq<Bit>, pos: nat)
      requires Shape() && Legal() && forall i | 0 <= i < |ps| :: ps[i] < Index(17)
      requires pos + |Encode(ps)| <= |s| && s[pos..pos + |Encode(ps)|] == Encode(ps)
      ensures var r := DecodeMany(s, pos, |ps|);
              && r.1 == pos + |Encode(ps)|
              && |r.0| == |ps|
              && forall i | 0 <= i < |ps| :: ps[i] < 256 && r.0[i] == huffval[ps[i]]
      decreases |ps|
    {
      hide CodeString, Legal, Length, Index, Decode, Shape;
      if ps != [] {
        EncodingSplits(ps, s, pos);
        EncodedSymbol(ps[0], s, pos);
        RoundTrip(ps[1..], s, pos + Length(ps[0]));
        assert forall i | 1 <= i < |ps| :: ps[i] == ps[1..][i - 1];
      }
    }
  }
}
