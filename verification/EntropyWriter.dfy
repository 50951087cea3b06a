/**
  Writing entropy-coded segments (sections F.1.2.3 and B.1.1.5 of ITU-T T.81): bits are packed
  into bytes, the last one filled up with ones, a zero is stuffed behind every 0xFF, and a marker
  ends the segment.  Reading gives the bits back.
  */
module EntropyWriter {
  import opened BitStrings
  import opened EntropyStream
  import opened BitReader
  import opened Options

  function Ones(n: nat): (s: seq<Bit>)
    ensures |s| == n
  {
    seq(n, i => 1)
  }

  lemma ByteBound()
    ensures Pow2(8) == 256
  {}

  // The bytes of a bit string.
  function Pack(bits: seq<Bit>): seq<Byte>
    decreases |bits|
  {
    ByteBound();
    if bits == [] then []
    else if |bits| < 8 then [Value(bits + Ones(8 - |bits|), 0, 8)]
    else [Value(bits, 0, 8)] + Pack(bits[8..])
  }

  function Stuff(bytes: seq<Byte>): seq<Byte> {
    if bytes == [] then []
    else (if bytes[0] == 0xFF then [0xFF, 0] else [bytes[0]]) + Stuff(bytes[1..])
  }

  function Unpack(bytes: seq<Byte>): seq<Bit> {
    if bytes == [] then [] else Spell(bytes[0], 8) + Unpack(bytes[1..])
  }

  // The bits come back, followed by less than a byte of padding.
  lemma {:induction false} PackKeepsBits(bits: seq<Bit>) returns (pad: nat)
    ensures pad < 8 && Unpack(Pack(bits)) == bits + Ones(pad)
    decreases |bits|
  {
    hide Spell, Value, Pow2, Ones;
    ByteBound();
    pad := 0;
    if 0 < |bits| < 8 {
      pad := 8 - |bits|;
      SpellingOfValue(bits + Ones(pad), 0, 8);
      assert (bits + Ones(pad))[0..0 + 8] == bits + Ones(pad);
      UnpackOne(Value(bits + Ones(pad), 0, 8), []);
    } else if |bits| >= 8 {
      pad := PackKeepsBits(bits[8..]);
      SpellingOfValue(bits, 0, 8);
      UnpackOne(Value(bits, 0, 8), Pack(bits[8..]));
      assert bits[0..0 + 8] + (bits[8..] + Ones(pad)) == bits + Ones(pad);
    }
  }

  lemma UnpackOne(b: Byte, rest: seq<Byte>)
    ensures Unpack([b] + rest) == Spell(b, 8) + Unpack(rest)
  {
    hide Spell;
    assert ([b] + rest)[1..] == rest;
  }

  // A marker, possibly after fill bytes, from position pos on; `after` is the position behind it.
  predicate MarkerAt(d: seq<Byte>, pos: nat, code: Byte, after: nat) {
    && pos + 2 <= after <= |d| && code != 0 && code != 0xFF && d[after - 1] == code
    && forall k | pos <= k < after - 1 :: d[k] == 0xFF
  }

  lemma {:induction false} FillSkipped(d: seq<Byte>, pos: nat, i: nat, code: Byte, after: nat)
    requires MarkerAt(d, pos, code, after) && pos <= i < after
    ensures SkipFill(d, i) == after - 1
    decreases after - i
  {
    if i < after - 1 {
      FillSkipped(d, pos, i + 1, code, after);
    }
  }

  lemma MarkerReads(d: seq<Byte>, pos: nat, code: Byte, after: nat)
    requires MarkerAt(d, pos, code, after)
    ensures NextUnit(d, pos) == Mark(code, after)
  {
    FillSkipped(d, pos, pos + 1, code, after);
  }

  // The bytes stand in d from position pos on.
  predicate BytesAt(d: seq<Byte>, pos: nat, bytes: seq<Byte>) {
    pos + |bytes| <= |d| && d[pos..pos + |bytes|] == bytes
  }

  lemma BytesBoth(d: seq<Byte>, pos: nat, a: seq<Byte>, b: seq<Byte>)
    requires BytesAt(d, pos, a + b)
    ensures BytesAt(d, pos, a) && BytesAt(d, pos + |a|, b)
  {
    var window := d[pos..pos + |a + b|];
    assert window[..|a|] == a && window[|a|..] == b;
    assert d[pos..pos + |a|] == window[..|a|];
    assert d[pos + |a|..pos + |a| + |b|] == window[|a|..];
  }

  // Stuffed bytes are read as what they were, up to the marker behind them.
  lemma {:induction false} StuffedReads(d: seq<Byte>, pos: nat, bytes: seq<Byte>, code: Byte, after: nat)
    requires BytesAt(d, pos, Stuff(bytes)) && MarkerAt(d, pos + |Stuff(bytes)|, code, after)
    ensures DataBits(d, pos) == Unpack(bytes) && FirstMarker(d, pos) == Some(Marker(code, after))
    decreases |bytes|
  {
    hide NextUnit, Spell, BytesAt, MarkerAt;
    if bytes == [] {
      MarkerReads(d, pos, code, after);
    } else {
      var first := if bytes[0] == 0xFF then [0xFF, 0] else [bytes[0]];
      BytesBoth(d, pos, first, Stuff(bytes[1..]));
      StuffedUnit(d, pos, bytes[0]);
      StuffedReads(d, pos + |first|, bytes[1..], code, after);
    }
  }

  lemma StuffedUnit(d: seq<Byte>, pos: nat, b: Byte)
    requires BytesAt(d, pos, if b == 0xFF then [0xFF, 0] else [b])
    ensures NextUnit(d, pos) == Data(b, pos + if b == 0xFF then 2 else 1)
  {
    if b == 0xFF {
      assert d[pos..pos + 2][0] == 0xFF && d[pos..pos + 2][1] == 0;
    } else {
      assert d[pos..pos + 1][0] == b;
    }
  }

  // A segment as a whole: its bits, some padding, and the marker.
  lemma SegmentReads(d: seq<Byte>, pos: nat, bits: seq<Bit>, code: Byte, after: nat) returns (pad: nat)
    requires BytesAt(d, pos, Stuff(Pack(bits))) && MarkerAt(d, pos + |Stuff(Pack(bits))|, code, after)
    ensures pad < 8 && DataBits(d, pos) == bits + Ones(pad) && FirstMarker(d, pos) == Some(Marker(code, after))
  {
    pad := PackKeepsBits(bits);
    StuffedReads(d, pos, Pack(bits), code, after);
  }

  // ---- restart markers ----

  // Of n units, those before the next restart marker.
  function FirstPart(interval: nat, n: nat): (m: nat)
    ensures m <= n && (m < n ==> 0 < m == interval) && (interval > 0 && n > 0 ==> 0 < m <= interval)
  {
    if interval == 0 || n <= interval then n else interval
  }

  // Restart marker number num.
  function RestartBytes(num: nat): (b: seq<Byte>)
    requires num < 8
    ensures |b| == 2
  {
    [0xFF, M_RST0 + num]
  }

  lemma RestartMarker(d: seq<Byte>, pos: nat, num: nat)
    requires num < 8 && BytesAt(d, pos, RestartBytes(num))
    ensures MarkerAt(d, pos, M_RST0 + num, pos + 2)
  {
    var two := d[pos..pos + 2];
    assert two[0] == d[pos] && two[1] == d[pos + 1];
  }
}
