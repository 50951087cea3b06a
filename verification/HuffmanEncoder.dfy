/**
  Writing Huffman symbols and further bits, and reading them back.
  */
module HuffmanEncoder {
  import opened BitStrings
  import opened HuffmanCode

  // What an encoder puts out: a Huffman symbol, or n further bits.
  datatype Item = Symbol(sym: nat) | Extra(v: nat, n: nat)

  // The number, from p on, of a code that stands for a symbol; past the last code if there is none.
  function CodeFor(t: Spec, sym: nat, p: nat): (q: nat)
    requires t.Shape() && t.Legal()
    ensures p <= q && (q < t.Index(17) ==> q < 256 && t.huffval[q] == sym)
    decreases t.Index(17) - p
  {
    if p >= t.Index(17) || t.huffval[p] == sym then p else CodeFor(t, sym, p + 1)
  }

  predicate Coded(t: Spec, item: Item)
    requires t.Shape() && t.Legal()
  {
    match item
    case Symbol(sym) => CodeFor(t, sym, 0) < t.Index(17)
    case Extra(v, n) => v < Pow2(n)
  }

  function ItemBits(t: Spec, item: Item): seq<Bit>
    requires t.Shape() && t.Legal() && Coded(t, item)
  {
    match item
    case Symbol(sym) => t.CodeString(CodeFor(t, sym, 0))
    case Extra(v, n) => Spell(v, n)
  }

  predicate AllCoded(t: Spec, items: seq<Item>)
    requires t.Shape() && t.Legal()
  {
    forall i | 0 <= i < |items| :: Coded(t, items[i])
  }

  function Bits(t: Spec, items: seq<Item>): seq<Bit>
    requires t.Shape() && t.Legal() && AllCoded(t, items)
  {
    if items == [] then [] else ItemBits(t, items[0]) + Bits(t, items[1..])
  }

  lemma BitsOf(t: Spec, first: Item, rest: seq<Item>)
    requires t.Shape() && t.Legal() && AllCoded(t, [first] + rest)
    ensures Coded(t, first) && AllCoded(t, rest)
    ensures Bits(t, [first] + rest) == ItemBits(t, first) + Bits(t, rest)
  {
    var items := [first] + rest;
    assert items[0] == first && items[1..] == rest;
    forall i | 0 <= i < |rest| ensures Coded(t, rest[i]) {
      assert rest[i] == items[i + 1];
    }
    hide Coded, ItemBits;
  }

  // A symbol is decoded, and the rest stands behind it.
  lemma ReadSymbol(t: Spec, s: seq<Bit>, pos: nat, sym: nat, rest: seq<Item>) returns (len: nat)
    requires t.Shape() && t.Legal() && AllCoded(t, [Symbol(sym)] + rest)
    requires BitsAt(s, pos, Bits(t, [Symbol(sym)] + rest))
    ensures t.Decode(s, pos) == (len, sym) && AllCoded(t, rest) && BitsAt(s, pos + len, Bits(t, rest))
    ensures |Bits(t, [Symbol(sym)] + rest)| == len + |Bits(t, rest)|
  {
    hide Bits, Spec.CodeString, Spec.Decode, Spec.Length, Spec.Index, Spec.Shape, Spec.Legal, AllCoded;
    BitsOf(t, Symbol(sym), rest);
    var p := CodeFor(t, sym, 0);
    BitsBoth(s, pos, t.CodeString(p), Bits(t, rest));
    t.CodeStringLength(p);
    t.EncodedSymbol(p, s, pos);
    len := t.Length(p);
  }

  // So are further bits.
  lemma ReadExtra(t: Spec, s: seq<Bit>, pos: nat, v: nat, n: nat, rest: seq<Item>)
    requires t.Shape() && t.Legal() && AllCoded(t, [Extra(v, n)] + rest)
    requires BitsAt(s, pos, Bits(t, [Extra(v, n)] + rest))
    ensures Value(s, pos, n) == v && AllCoded(t, rest) && BitsAt(s, pos + n, Bits(t, rest))
    ensures |Bits(t, [Extra(v, n)] + rest)| == n + |Bits(t, rest)|
  {
    hide Bits, Spell, Spec.Shape, Spec.Legal, AllCoded;
    BitsOf(t, Extra(v, n), rest);
    BitsBoth(s, pos, Spell(v, n), Bits(t, rest));
    ValueOfSpelling(s, pos, v, n);
  }

  lemma NoBits(t: Spec)
    requires t.Shape() && t.Legal()
    ensures AllCoded(t, []) && Bits(t, []) == []
  {}

  lemma SymbolParts(run: nat, size: nat)
    requires size < 16
    ensures (16 * run + size) / 16 == run && (16 * run + size) % 16 == size
  {}
}
