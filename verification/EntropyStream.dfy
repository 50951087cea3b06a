/**
  The entropy-coded byte stream: stuffed bytes, fill bytes and markers (section F.1.2.3
  and B.1.1.5 of ITU-T T.81), as jpeg_fill_bit_buffer (jdhuff.c) and next_marker
  (jdmarker.c) scan it.
  */
module EntropyStream {
  import opened BitStrings
  import opened Options

  type Byte = b: int | 0 <= b < 256

  // A marker code and the position just after it.
  datatype Marker = Marker(code: Byte, after: nat)

  // One step of the scan from a position: a data byte, a marker, or not enough bytes.
  datatype Unit = Data(byte: Byte, next: nat) | Mark(code: Byte, next: nat) | Short

  // First position from i on that does not hold a fill byte.
  function SkipFill(d: seq<Byte>, i: nat): (j: nat)
    requires i <= |d|
    ensures i <= j <= |d|
    ensures forall k | i <= k < j :: d[k] == 0xFF
    ensures j < |d| ==> d[j] != 0xFF
    decreases |d| - i
  {
    if i == |d| || d[i] != 0xFF then i else SkipFill(d, i + 1)
  }

  function NextUnit(d: seq<Byte>, pos: nat): (u: Unit)
    ensures !u.Short? ==> pos < u.next <= |d|
  {
    if pos >= |d| then Short
    else if d[pos] != 0xFF then Data(d[pos], pos + 1)
    else
      var j := SkipFill(d, pos + 1);
      if j == |d| then Short
      else if d[j] == 0 then Data(0xFF, j + 1)
      else Mark(d[j], j + 1)
  }

  // The data bits up to the next marker (or up to the last complete unit).
  function DataBits(d: seq<Byte>, pos: nat): seq<Bit>
    decreases |d| - pos
  {
    match NextUnit(d, pos)
    case Data(b, next) => Spell(b, 8) + DataBits(d, next)
    case Mark(_, _) => []
    case Short => []
  }

  // The marker that ends the segment, if the stream has one.
  function FirstMarker(d: seq<Byte>, pos: nat): (m: Option<Marker>)
    ensures m.Some? ==> pos < m.value.after <= |d| && m.value.code != 0 && m.value.code != 0xFF
    decreases |d| - pos
  {
    match NextUnit(d, pos)
    case Data(b, next) => FirstMarker(d, next)
    case Mark(c, next) => Some(Marker(c, next))
    case Short => None
  }

  // ---- what a prefix of the stream shows ----

  lemma {:induction false} SkipFillPrefix(d: seq<Byte>, n: nat, i: nat)
    requires i <= n <= |d|
    ensures SkipFill(d[..n], i) < n ==> SkipFill(d, i) == SkipFill(d[..n], i)
    ensures SkipFill(d[..n], i) == n ==> SkipFill(d, i) >= n
    decreases n - i
  {
    if i < n && d[i] == 0xFF {
      SkipFillPrefix(d, n, i + 1);
    }
  }

  // A unit that is complete in the bytes delivered so far is the unit of the whole stream.
  lemma UnitPrefix(d: seq<Byte>, n: nat, pos: nat)
    requires pos <= n <= |d|
    ensures !NextUnit(d[..n], pos).Short? ==> NextUnit(d, pos) == NextUnit(d[..n], pos)
  {
    if pos < n && d[pos] == 0xFF {
      SkipFillPrefix(d, n, pos + 1);
    }
  }
}
