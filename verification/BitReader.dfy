/**
  Bit fetching for the Huffman decoders (jdhuff.h macros, jpeg_fill_bit_buffer and
  jpeg_huff_decode of jdhuff.c) over a source that may run dry at any byte.

  The reader is specified by the bits that lie ahead: the buffered bits followed by the
  data bits of the rest of the stream, whether or not those bytes have been delivered.
  Everything a caller learns is a function of these bits, so how the input is cut into
  deliveries cannot matter.
  */
module BitReader {
  import opened BitStrings
  import opened EntropyStream
  import opened HuffmanCode
  import opened HuffmanTable
  import opened Options

  const MIN_GET_BITS := 25
  const BUF_MODULUS := 0x1_0000_0000

  // Working state of one MCU: the input position and the 32-bit buffer with its bit count.
  datatype Work = Work(pos: nat, buffer: nat, left: nat)

  // The bits ahead of a working state.
  function Pending(d: seq<Byte>, w: Work, unread: Byte): seq<Bit> {
    Spell(w.buffer, w.left) + PastBuffer(d, w, unread)
  }

  // The marker that ends the segment being read.
  function Ahead(d: seq<Byte>, pos: nat, unread: Byte): Option<Marker> {
    if unread != 0 then Some(Marker(unread, pos)) else FirstMarker(d, pos)
  }

  // Where a reader stands in the logical bit stream s of its segment: k bits consumed, pad
  // dummy zeros inserted behind the end, and the marker `ahead` still to come.
  datatype Cursor = Cursor(s: seq<Bit>, pad: nat, k: nat, ahead: Option<Marker>) {
    function Stream(): seq<Bit> {
      s + Zeros(pad)
    }

    // Advance over n bits that are there.
    function Skip(n: nat): Cursor {
      this.(k := k + n)
    }

    // This cursor is n bits further in the same segment.
    predicate Moved(from: Cursor, n: nat) {
      s == from.s && ahead == from.ahead && k == from.k + n
    }
  }

  ghost predicate At(d: seq<Byte>, w: Work, unread: Byte, c: Cursor) {
    && w.left <= 32
    && w.pos <= |d|
    && c.k <= |c.Stream()|
    && Pending(d, w, unread) == c.Stream()[c.k..]
    && Ahead(d, w.pos, unread) == c.ahead
    && (c.pad > 0 ==> unread != 0)
  }

  lemma SpellLoaded(buffer: nat, left: nat, c: Byte)
    requires left <= 24
    ensures Spell((buffer * 256 + c) % BUF_MODULUS, left + 8) == Spell(buffer, left) + Spell(c, 8)
  {
    assert Pow2(8) == 256;
    assert Shl(buffer, 8) == buffer * 256;
    SpellAppends(buffer, left, c, 8);
    Pow2Of32();
    SpellMod(buffer * 256 + c, 32, left + 8);
  }

  lemma PendingLoaded(d: seq<Byte>, w: Work, byte: Byte, next: nat)
    requires w.left <= 24 && NextUnit(d, w.pos) == Data(byte, next)
    ensures Pending(d, Work(next, (w.buffer * 256 + byte) % BUF_MODULUS, w.left + 8), 0) == Pending(d, w, 0)
  {
    SpellLoaded(w.buffer, w.left, byte);
    var a, b, rest := Spell(w.buffer, w.left), Spell(byte, 8), DataBits(d, next);
    assert DataBits(d, w.pos) == b + rest;
    ConcatAssoc(a, b, rest);
  }

  // Loading a data byte into the buffer moves no bit.
  lemma LoadByte(d: seq<Byte>, w: Work, c: Cursor, byte: Byte, next: nat)
    requires At(d, w, 0, c) && w.left <= 24 && NextUnit(d, w.pos) == Data(byte, next)
    ensures At(d, Work(next, (w.buffer * 256 + byte) % BUF_MODULUS, w.left + 8), 0, c)
  {
    PendingLoaded(d, w, byte, next);
    assert FirstMarker(d, w.pos) == FirstMarker(d, next);
    hide Pending, FirstMarker, Cursor.Stream;
  }

  // Running into the marker moves no bit either.
  lemma HitMarker(d: seq<Byte>, w: Work, c: Cursor, code: Byte, next: nat)
    requires At(d, w, 0, c) && NextUnit(d, w.pos) == Mark(code, next) && code != 0
    ensures At(d, w.(pos := next), code, c)
  {}

  lemma Pow2Of32()
    ensures Pow2(32) == BUF_MODULUS
  {
    assert Pow2(8) == 256;
    Pow2Adds(8, 8);
    Pow2Adds(16, 16);
  }

  // Stuffing dummy zeros behind the end of the data.
  lemma StuffZeros(d: seq<Byte>, w: Work, unread: Byte, c: Cursor)
    requires At(d, w, unread, c) && unread != 0 && w.left <= MIN_GET_BITS
    ensures var z := MIN_GET_BITS - w.left;
            At(d, Work(w.pos, Shl(w.buffer, z) % BUF_MODULUS, MIN_GET_BITS), unread, c.(pad := c.pad + z))
    ensures c.k + w.left == |c.s| + c.pad
  {
    hide NextUnit, DataBits, Spell, Shl, Pow2, Zeros, Ahead;
    var z := MIN_GET_BITS - w.left;
    SpellAppends(w.buffer, w.left, 0, z);
    SpellZero(z);
    Pow2Of32();
    SpellMod(Shl(w.buffer, z), 32, MIN_GET_BITS);
    ZerosAppend(c.pad, z);
    ConcatAssoc(c.s, Zeros(c.pad), Zeros(z));
    AppendBehind(c.Stream(), Zeros(z), c.k);
  }

  // The decompression object's input side: source manager, marker state and permanent bit state.
  class Reader {
    const data: seq<Byte>            // the complete stream
    var avail: nat                   // bytes delivered so far
    var pos: nat                     // next_input_byte
    var unreadMarker: Byte           // 0 when none
    var discardedBytes: nat
    var nextRestartNum: nat
    var getBuffer: nat               // permanent bit state
    var bitsLeft: nat
    var insufficientData: bool

    ghost predicate Valid()
      reads this
    {
      && pos <= avail <= |data|
      && bitsLeft <= 32
      && unreadMarker != 0xFF
      && nextRestartNum < 8
    }

    constructor (data: seq<Byte>)
      ensures Valid() && this.data == data && avail == 0 && pos == 0
      ensures unreadMarker == 0 && bitsLeft == 0 && !insufficientData && nextRestartNum == 0
    {
      this.data := data;
      avail, pos, unreadMarker, discardedBytes, nextRestartNum := 0, 0, 0, 0, 0;
      getBuffer, bitsLeft, insufficientData := 0, 0, false;
    }

    // The application delivers n more bytes (or what is left).
    method Deliver(n: nat)
      requires Valid()
      modifies this`avail
      ensures Valid() && avail == if old(avail) + n <= |data| then old(avail) + n else |data|
    {
      avail := if avail + n <= |data| then avail + n else |data|;
    }

    function Load(): Work
      reads this
    {
      Work(pos, getBuffer, bitsLeft)
    }

    // The segment that lies ahead.
    ghost function Seg(): Segment
      reads this
    {
      Segment(if insufficientData then [] else Pending(data, Load(), unreadMarker),
              Ahead(data, pos, unreadMarker), insufficientData, nextRestartNum)
    }

    // BITREAD_LOAD_STATE: an MCU starts at the front of the segment.
    lemma Loaded()
      requires Valid() && !insufficientData
      ensures Reading(Load(), StartOf(Seg())) && Seg().insufficient == false
    {
      StartCursor(data, Load(), unreadMarker, StartOf(Seg()));
    }

    // BITREAD_SAVE_STATE: the bits used are gone for good.
    method Save(w: Work, ghost g: Segment, ghost c: Cursor)
      requires Reading(w, c) && c.s == g.bits && c.ahead == g.ahead && nextRestartNum == g.restartNum
      modifies this`pos, this`getBuffer, this`bitsLeft
      ensures Valid() && Seg() == Consume(g, c.k)
    {
      AtBounds(data, w, unreadMarker, c);
      EndCursor(data, w, unreadMarker, c, insufficientData);
      hide At, Pending, Ahead, Unread;
      pos, getBuffer, bitsLeft := w.pos, w.buffer, w.left;
    }

    // The part of process_restart both Huffman decoders share: drop the buffered bits, pass
    // the restart marker, and start a fresh segment.
    method Restart() returns (ok: bool)
      requires Valid()
      modifies this`pos, this`discardedBytes, this`unreadMarker, this`nextRestartNum, this`bitsLeft,
          this`insufficientData
      ensures Valid()
      ensures ok ==> NextSegment(data, old(Seg())) == Some(Seg())
      ensures !ok ==> NextSegment(data, Seg()) == NextSegment(data, old(Seg()))
      ensures !ok && avail == |data| ==> NextSegment(data, Seg()).None?
    {
      hide Pending, PastBuffer, RestartEnd;
      discardedBytes := discardedBytes + bitsLeft / 8;
      bitsLeft := 0;
      ok := ReadRestartMarker();
      if !ok {
        return;
      }
      if unreadMarker == 0 {
        insufficientData := false;
      }
      EmptyBuffer(data, Load(), unreadMarker);
    }

    // All bytes are there and a marker ends the segment: no further suspension is possible.
    ghost predicate Complete(ahead: Option<Marker>)
      reads this
    {
      avail == |data| && ahead.Some?
    }

    // The working state w stands at cursor c.
    ghost predicate Reading(w: Work, c: Cursor)
      reads this
    {
      Valid() && At(data, w, unreadMarker, c) && w.pos <= avail && Flagged(c, insufficientData)
    }

    // The source ran dry; nothing permanent has changed.
    ghost predicate Suspended(ahead: Option<Marker>, insufficientBefore: bool)
      reads this
    {
      Valid() && unreadMarker == 0 && insufficientData == insufficientBefore && !Complete(ahead)
    }

    // Fetch one data byte, or the marker, past stuffing and fill bytes.
    method FetchUnit(start: nat) returns (u: Unit)
      requires start <= avail <= |data|
      ensures u == NextUnit(data[..avail], start)
      ensures !u.Short? ==> u == NextUnit(data, start) && u.next <= avail
      ensures u.Short? && avail == |data| ==> FirstMarker(data, start).None?
    {
      UnitPrefix(data, avail, start);
      assert avail == |data| ==> data[..avail] == data;
      if start == avail {
        return Short;
      }
      var next := start + 1;
      var c := data[start];
      if c == 0xFF {
        assert SkipFill(data[..avail], next) == SkipFill(data[..avail], start + 1);
        while true
          invariant start < next <= avail
          invariant SkipFill(data[..avail], next) == SkipFill(data[..avail], start + 1)
          decreases avail - next
        {
          if next == avail {
            return Short;
          }
          c := data[next];
          next := next + 1;
          if c != 0xFF {
            break;
          }
        }
        if c == 0 {
          return Data(0xFF, next);
        }
        return Mark(c, next);
      }
      return Data(c, next);
    }

    // jpeg_fill_bit_buffer: load the buffer to at least nbits, dummy zeros included.
    method FillBitBuffer(w: Work, nbits: nat, ghost c: Cursor) returns (ok: bool, r: Work, ghost c': Cursor)
      requires Valid() && At(data, w, unreadMarker, c) && w.pos <= avail
      requires nbits <= MIN_GET_BITS
      modifies this`unreadMarker, this`insufficientData
      ensures Valid() && MarkerKept(old(unreadMarker), unreadMarker)
      ensures unreadMarker == 0 ==> insufficientData == old(insufficientData)
      ensures !ok ==> Suspended(c.ahead, old(insufficientData))
      ensures ok ==> At(data, r, unreadMarker, c') && r.pos <= avail && r.left >= nbits
      ensures ok ==> r.left >= MIN_GET_BITS || unreadMarker != 0
      ensures ok ==> c'.s == c.s && c'.k == c.k && c'.ahead == c.ahead && c'.pad >= c.pad
      ensures ok && c'.pad > c.pad ==> c.k + nbits > |c.s| + c.pad && insufficientData
      ensures ok && c'.pad == c.pad ==> insufficientData == old(insufficientData)
    {
      hide At, Spec.Shape;
      ok, r, c' := true, w, c;
      AtBounds(data, w, unreadMarker, c);
      if unreadMarker == 0 {
        ok, r := LoadBytes(w, c);
        if !ok {
          return;
        }
        AtBounds(data, r, unreadMarker, c);
      }
      if unreadMarker != 0 && nbits > r.left {
        insufficientData := true;
        StuffZeros(data, r, unreadMarker, c);
        c' := c.(pad := c.pad + (MIN_GET_BITS - r.left));
        r := Work(r.pos, Shl(r.buffer, MIN_GET_BITS - r.left) % BUF_MODULUS, MIN_GET_BITS);
      }
    }

    // Its byte-loading loop: stops when the buffer is full or a marker is reached.
    method LoadBytes(w: Work, ghost c: Cursor) returns (ok: bool, r: Work)
      requires Valid() && unreadMarker == 0 && At(data, w, 0, c) && w.pos <= avail
      modifies this`unreadMarker
      ensures Valid()
      ensures !ok ==> unreadMarker == 0 && !Complete(c.ahead)
      ensures ok ==> At(data, r, unreadMarker, c) && r.pos <= avail
      ensures ok ==> r.left >= MIN_GET_BITS || unreadMarker != 0
    {
      hide At, NextUnit;
      ok, r := true, w;
      AtBounds(data, w, 0, c);
      while r.left < MIN_GET_BITS
        invariant Valid() && unreadMarker == 0 && r.left <= 32
        invariant At(data, r, 0, c) && r.pos <= avail
        decreases |data| - r.pos
      {
        AtBounds(data, r, 0, c);
        var u := FetchUnit(r.pos);
        if u.Short? {
          return false, w;
        }
        UnitProgress(data, r.pos);
        if u.Mark? {
          HitMarker(data, r, c, u.code, u.next);
          unreadMarker := u.code;
          r := r.(pos := u.next);
          return;
        }
        LoadByte(data, r, c, u.byte, u.next);
        r := Work(u.next, (r.buffer * 256 + u.byte) % BUF_MODULUS, r.left + 8);
      }
    }

    // CHECK_BIT_BUFFER followed by GET_BITS: the next n bits as a number.
    method GetBits(w: Work, n: nat, ghost c: Cursor) returns (ok: bool, val: nat, r: Work, ghost c': Cursor)
      requires Reading(w, c) && n <= MIN_GET_BITS
      modifies this`unreadMarker, this`insufficientData
      ensures Valid() && MarkerKept(old(unreadMarker), unreadMarker)
      ensures unreadMarker == 0 ==> insufficientData == old(insufficientData)
      ensures !ok ==> Suspended(c.ahead, old(insufficientData))
      ensures ok ==> Reading(r, c')
      ensures ok ==> val == Value(c.s, c.k, n) && c'.Moved(c, n)
    {
      hide At;
      ok, r, c' := true, w, c;
      val := 0;
      if w.left < n {
        ok, r, c' := FillBitBuffer(w, n, c);
        if !ok {
          return;
        }
      }
      TakeBits(data, r, unreadMarker, c', n);
      AtBounds(data, r, unreadMarker, c');
      val := Shr(r.buffer, r.left - n) % Pow2(n);
      r, c' := r.(left := r.left - n), c'.Skip(n);
    }

    // jpeg_huff_decode: collect the code bit by bit, starting from a legal minimum length.
    method HuffDecodeSlow(w: Work, tbl: DerivedTable, minBits: nat, ghost c: Cursor)
      returns (ok: bool, sym: nat, r: Work, ghost c': Cursor)
      requires Reading(w, c)
      requires tbl.Derived() && minBits <= 16 && tbl.pub.LegalStart(c.s, c.k, minBits)
      modifies this`unreadMarker, this`insufficientData
      ensures Valid() && MarkerKept(old(unreadMarker), unreadMarker)
      ensures unreadMarker == 0 ==> insufficientData == old(insufficientData)
      ensures !ok ==> Suspended(c.ahead, old(insufficientData))
      ensures ok ==> Reading(r, c')
      ensures ok ==> var (len, s) := tbl.pub.DecodeFrom(c.s, c.k, minBits);
                     sym == s && c'.Moved(c, len)
    {
      hide At, DerivedTable.Derived, Spec.LegalStart, Spec.DecodeFrom, Value, Flagged;
      var l := minBits;
      var code: int;
      ok, code, r, c' := GetBits(w, l, c);
      sym := 0;
      if !ok {
        return;
      }
      TableBounds(tbl);
      SearchStep(tbl, c.s, c.k, l);
      while code > tbl.maxcode[l]
        invariant minBits <= l <= 17 && code == Value(c.s, c.k, l)
        invariant Reading(r, c') && MarkerKept(old(unreadMarker), unreadMarker)
        invariant unreadMarker == 0 ==> insufficientData == old(insufficientData)
        invariant c'.Moved(c, l)
        invariant tbl.pub.LegalStart(c.s, c.k, l)
        invariant tbl.pub.DecodeFrom(c.s, c.k, l) == tbl.pub.DecodeFrom(c.s, c.k, minBits)
        decreases 17 - l
      {
        SearchStep(tbl, c.s, c.k, l);
        code := code * 2;
        var bit;
        ok, bit, r, c' := GetBits(r, 1, c');
        if !ok {
          return;
        }
        OneMoreBit(c.s, c.k, l);
        code := code + bit;
        l := l + 1;
      }
      SearchStep(tbl, c.s, c.k, l);
      if l > 16 {
        return;
      }
      sym := tbl.pub.huffval[code + tbl.valoffset[l]];
    }

    // HUFF_DECODE: eight bits of lookahead when they are there, otherwise the slow way.
    method HuffDecode(w: Work, tbl: DerivedTable, ghost c: Cursor)
      returns (ok: bool, sym: nat, r: Work, ghost c': Cursor)
      requires Reading(w, c)
      requires tbl.Derived()
      modifies this`unreadMarker, this`insufficientData
      ensures Valid() && MarkerKept(old(unreadMarker), unreadMarker)
      ensures unreadMarker == 0 ==> insufficientData == old(insufficientData)
      ensures !ok ==> Suspended(c.ahead, old(insufficientData))
      ensures ok ==> Reading(r, c')
      ensures ok ==> var (len, s) := tbl.pub.Decode(c.s, c.k);
                     sym == s && c'.Moved(c, len)
    {
      hide At, DerivedTable.Derived, Spec.LegalStart, Spec.DecodeFrom, Spec.Decode, Value, Shr;
      TableBounds(tbl);
      ok, sym, r, c' := true, 0, w, c;
      if w.left < HUFF_LOOKAHEAD {
        ok, r, c' := FillBitBuffer(w, 0, c);
        if !ok {
          return;
        }
        if r.left < HUFF_LOOKAHEAD {
          StartAtOne(tbl.pub, c.s, c.k);
          ok, sym, r, c' := HuffDecodeSlow(r, tbl, 1, c');
          return;
        }
      }
      TakeBits(data, r, unreadMarker, c', HUFF_LOOKAHEAD);
      assert Pow2(8) == 256;
      var look := Shr(r.buffer, r.left - HUFF_LOOKAHEAD) % 256;
      var nb := tbl.lookNbits[look];
      LookupAgrees(tbl, c.s, c.k);
      if nb != 0 {
        TakeBits(data, r, unreadMarker, c', nb);
        sym := tbl.lookSym[look];
        AtBounds(data, r, unreadMarker, c');
        r, c' := r.(left := r.left - nb), c'.Skip(nb);
      } else {
        ok, sym, r, c' := HuffDecodeSlow(r, tbl, HUFF_LOOKAHEAD + 1, c');
      }
    }

    // next_marker: skip to the next marker; every discarded byte is given back to the source.
    method NextMarker() returns (ok: bool)
      requires Valid()
      modifies this`pos, this`discardedBytes, this`unreadMarker
      ensures Valid()
      ensures ok ==> FirstMarker(data, old(pos)) == Some(Marker(unreadMarker, pos)) && discardedBytes == 0
      ensures !ok ==> unreadMarker == old(unreadMarker) && FirstMarker(data, pos) == FirstMarker(data, old(pos))
      ensures !ok && avail == |data| ==> FirstMarker(data, pos).None?
    {
      while true
        invariant Valid() && unreadMarker == old(unreadMarker)
        invariant FirstMarker(data, pos) == FirstMarker(data, old(pos))
        decreases |data| - pos
      {
        var u := FetchUnit(pos);
        match u {
          case Short =>
            return false;
          case Data(b, next) =>
            // a stuffed FF/00 pair counts two bytes
            discardedBytes := discardedBytes + if b == 0xFF then 2 else 1;
            UnitProgress(data, pos);
            pos := next;
          case Mark(code, next) =>
            UnitProgress(data, pos);
            discardedBytes := 0;
            unreadMarker := code;
            pos := next;
            return true;
        }
      }
    }

    // jpeg_resync_to_restart: the marker read is not the expected one.
    method ResyncToRestart(desired: nat) returns (ok: bool)
      requires Valid() && unreadMarker != 0 && desired < 8
      modifies this`pos, this`discardedBytes, this`unreadMarker
      ensures Valid()
      ensures ok ==> Resync(data, Marker(old(unreadMarker), old(pos)), desired) == Some((unreadMarker, pos))
      ensures !ok ==> unreadMarker != 0
      ensures !ok ==> (Resync(data, Marker(unreadMarker, pos), desired)
                       == Resync(data, Marker(old(unreadMarker), old(pos)), desired))
      ensures !ok ==> Action(unreadMarker, desired) == 2
      ensures !ok && avail == |data| ==> Resync(data, Marker(unreadMarker, pos), desired).None?
    {
      while true
        invariant Valid() && unreadMarker != 0
        invariant Resync(data, Marker(unreadMarker, pos), desired)
               == Resync(data, Marker(old(unreadMarker), old(pos)), desired)
        decreases |data| - pos
      {
        var action := Action(unreadMarker, desired);
        if action == 1 {
          unreadMarker := 0;
          return true;
        } else if action == 3 {
          return true;
        }
        ok := NextMarker();
        if !ok {
          return;
        }
      }
    }

    // read_restart_marker: swallow the expected marker, or resynchronise.
    method ReadRestartMarker() returns (ok: bool)
      requires Valid()
      modifies this`pos, this`discardedBytes, this`unreadMarker, this`nextRestartNum
      ensures Valid()
      ensures ok ==>
          RestartEnd(data, Ahead(data, old(pos), old(unreadMarker)), old(nextRestartNum)) == Some((unreadMarker, pos))
      ensures ok ==> nextRestartNum == (old(nextRestartNum) + 1) % 8
      ensures !ok ==> nextRestartNum == old(nextRestartNum)
      ensures !ok ==> (RestartEnd(data, Ahead(data, pos, unreadMarker), nextRestartNum)
                       == RestartEnd(data, Ahead(data, old(pos), old(unreadMarker)), nextRestartNum))
      ensures !ok && avail == |data| ==>
                RestartEnd(data, Ahead(data, pos, unreadMarker), nextRestartNum).None?
    {
      if unreadMarker == 0 {
        ok := NextMarker();
        if !ok {
          return;
        }
        UnitMarker(data, old(pos));
      }
      if unreadMarker == M_RST0 + nextRestartNum {
        unreadMarker := 0;
      } else {
        ok := ResyncToRestart(nextRestartNum);
        if !ok {
          SuspendedResync(unreadMarker, nextRestartNum);
          return;
        }
      }
      nextRestartNum := (nextRestartNum + 1) % 8;
      ok := true;
    }
  }

  // What lies ahead at an MCU boundary: the bits of the segment, the marker that ends it,
  // whether its bits have run out, and the number of the next restart marker.
  datatype Segment = Segment(bits: seq<Bit>, ahead: Option<Marker>, insufficient: bool, restartNum: nat)

  function Unread(s: seq<Bit>, k: nat): seq<Bit> {
    if k <= |s| then s[k..] else []
  }

  // The segment after k more bits have been used.
  function Consume(g: Segment, k: nat): Segment {
    g.(bits := Unread(g.bits, k), insufficient := k > |g.bits|)
  }

  // The segment after the restart marker that is due; None if no such marker comes.
  function NextSegment(d: seq<Byte>, g: Segment): Option<Segment> {
    match RestartEnd(d, g.ahead, g.restartNum)
    case None => None
    case Some((unread, pos)) =>
      Some(Segment(if unread == 0 then DataBits(d, pos) else [], Ahead(d, pos, unread),
                   unread != 0 && g.insufficient, (g.restartNum + 1) % 8))
  }

  // The cursor at the start of an MCU.
  function StartOf(g: Segment): Cursor {
    Cursor(g.bits, 0, 0, g.ahead)
  }

  lemma EmptyBuffer(d: seq<Byte>, w: Work, unread: Byte)
    requires w.left == 0
    ensures Pending(d, w, unread) == PastBuffer(d, w, unread)
            == if unread == 0 then DataBits(d, w.pos) else []
  {}

  lemma StartCursor(d: seq<Byte>, w: Work, unread: Byte, c: Cursor)
    requires w.left <= 32 && w.pos <= |d|
    requires c == Cursor(Pending(d, w, unread), 0, 0, Ahead(d, w.pos, unread))
    ensures At(d, w, unread, c) && Flagged(c, false)
  {
    assert c.s + Zeros(0) == c.s;
  }

  lemma EndCursor(d: seq<Byte>, w: Work, unread: Byte, c: Cursor, insufficient: bool)
    requires At(d, w, unread, c) && Flagged(c, insufficient)
    ensures insufficient <==> c.k > |c.s|
    ensures !insufficient ==> Pending(d, w, unread) == Unread(c.s, c.k)
    ensures insufficient ==> Unread(c.s, c.k) == []
    ensures Ahead(d, w.pos, unread) == c.ahead
  {
    if !insufficient {
      assert c.s + Zeros(0) == c.s;
    }
  }

  const M_SOF0 := 0xC0
  const M_RST0 := 0xD0
  const M_RST7 := 0xD7

  // The recovery action for a marker found instead of restart marker number desired.
  function Action(marker: Byte, desired: nat): int {
    if marker < M_SOF0 then 2
    else if marker < M_RST0 || marker > M_RST7 then 3
    else if marker == M_RST0 + (desired + 1) % 8 || marker == M_RST0 + (desired + 2) % 8 then 3
    else if marker == M_RST0 + (desired - 1) % 8 || marker == M_RST0 + (desired - 2) % 8 then 2
    else 1
  }

  // In terms of how far the marker found is ahead of the one expected, modulo 8: one or two, and it
  // is left for later, as is any marker that ends the scan; one or two behind, and the search goes
  // on, as it does past an invalid marker; else it is taken for the one expected.
  lemma ActionIs(marker: Byte, desired: nat)
    requires desired < 8
    ensures var lead := (marker - M_RST0 - desired) % 8;
            Action(marker, desired) ==
              if 0xD0 <= marker <= 0xD7 then (if lead in {1, 2} then 3 else if lead in {6, 7} then 2 else 1)
              else if marker >= 0xC0 then 3
              else 2
  {}

  // One restart marker is lost: the marker behind the segment is the next but one.  It stays, the
  // segment in between is empty, and behind the marker the decoder is in step again.
  lemma LostMarker(d: seq<Byte>, g: Segment, after: nat)
    requires g.restartNum < 8 && g.ahead == Some(Marker(M_RST0 + (g.restartNum + 1) % 8, after))
    ensures var g1 := NextSegment(d, g);
            && g1 == Some(Segment([], g.ahead, g.insufficient, (g.restartNum + 1) % 8))
            && NextSegment(d, g1.value)
               == Some(Segment(DataBits(d, after), FirstMarker(d, after), false, (g.restartNum + 2) % 8))
  {
    hide DataBits, FirstMarker, Action;
    ActionIs(M_RST0 + (g.restartNum + 1) % 8, g.restartNum);
  }

  // The same when two are lost.
  lemma LostMarkers(d: seq<Byte>, g: Segment, after: nat)
    requires g.restartNum < 8 && g.ahead == Some(Marker(M_RST0 + (g.restartNum + 2) % 8, after))
    ensures var g1 := NextSegment(d, g);
            && g1 == Some(Segment([], g.ahead, g.insufficient, (g.restartNum + 1) % 8))
            && var g2 := NextSegment(d, g1.value);
               && g2 == Some(Segment([], g.ahead, g.insufficient, (g.restartNum + 2) % 8))
               && NextSegment(d, g2.value)
                  == Some(Segment(DataBits(d, after), FirstMarker(d, after), false, (g.restartNum + 3) % 8))
  {
    hide DataBits, FirstMarker, Action;
    ActionIs(M_RST0 + (g.restartNum + 2) % 8, g.restartNum);
    LostMarker(d, g.(restartNum := (g.restartNum + 1) % 8), after);
  }

  // A marker that has been passed already is passed again: the search goes on behind it.
  lemma StaleMarker(d: seq<Byte>, g: Segment, lag: nat, after: nat, next: nat)
    requires g.restartNum < 8 && lag in {1, 2}
    requires g.ahead == Some(Marker(M_RST0 + (g.restartNum - lag) % 8, after)) && after < |d|
    requires FirstMarker(d, after) == Some(Marker(M_RST0 + g.restartNum, next))
    ensures NextSegment(d, g) == Some(Segment(DataBits(d, next), FirstMarker(d, next), false, (g.restartNum + 1) % 8))
  {
    hide DataBits, FirstMarker, Action;
    ActionIs(M_RST0 + (g.restartNum - lag) % 8, g.restartNum);
    ActionIs(M_RST0 + g.restartNum, g.restartNum);
    assert Action(g.ahead.value.code, g.restartNum) == 2;
    assert Resync(d, Marker(M_RST0 + g.restartNum, next), g.restartNum) == Some((0, next));
  }

  // Where resynchronisation ends: the marker left unread (or 0) and the input position.
  function Resync(d: seq<Byte>, m: Marker, desired: nat): Option<(Byte, nat)>
    decreases |d| - m.after
  {
    match Action(m.code, desired)
    case 1 => Some((0, m.after))
    case 3 => Some((m.code, m.after))
    case _ =>
      var next := FirstMarker(d, m.after);
      if next.None? then None else Resync(d, next.value, desired)
  }

  function RestartEnd(d: seq<Byte>, ahead: Option<Marker>, num: nat): Option<(Byte, nat)> {
    if ahead.None? then None
    else if ahead.value.code == M_RST0 + num then Some((0, ahead.value.after))
    else Resync(d, ahead.value, num)
  }

  lemma UnitMarker(d: seq<Byte>, pos: nat)
    ensures FirstMarker(d, pos).Some? ==> FirstMarker(d, pos).value.code != 0
  {}

  // A resynchronisation that is under way never stands at the expected marker.
  lemma SuspendedResync(marker: Byte, num: nat)
    requires Action(marker, num) == 2 && num < 8
    ensures marker != M_RST0 + num
  {}

  // insufficient_data is set exactly when bits beyond the end of the segment were used.
  ghost predicate Flagged(c: Cursor, insufficient: bool) {
    (insufficient <==> c.k > |c.s|) && (c.pad > 0 ==> c.k > |c.s|)
  }

  lemma TakeBits(d: seq<Byte>, w: Work, unread: Byte, c: Cursor, n: nat)
    requires At(d, w, unread, c) && n <= w.left
    ensures Shr(w.buffer, w.left - n) % Pow2(n) == Value(c.s, c.k, n)
    ensures At(d, w.(left := w.left - n), unread, c.Skip(n))
  {
    ValueAhead(d, w, unread, c, n);
    TailAfter(d, w, unread, c, n);
  }

  lemma ValueAhead(d: seq<Byte>, w: Work, unread: Byte, c: Cursor, n: nat)
    requires At(d, w, unread, c) && n <= w.left
    ensures Shr(w.buffer, w.left - n) % Pow2(n) == Value(c.s, c.k, n)
  {
    hide Spell, Shr, Pow2, Value, DataBits, Ahead;
    DropFront(Spell(w.buffer, w.left), PastBuffer(d, w, unread), c.Stream(), c.k, n);
    ValueOfBuffer(c.Stream(), c.k, w.buffer, w.left, n);
    ValuePadded(c.s, c.pad, c.k, n);
  }

  // The bits ahead that are not yet in the buffer.
  function PastBuffer(d: seq<Byte>, w: Work, unread: Byte): seq<Bit> {
    if unread == 0 then DataBits(d, w.pos) else []
  }

  lemma TailAfter(d: seq<Byte>, w: Work, unread: Byte, c: Cursor, n: nat)
    requires At(d, w, unread, c) && n <= w.left
    ensures At(d, w.(left := w.left - n), unread, c.Skip(n))
  {
    hide Spell, DataBits, Ahead;
    SpellSuffix(w.buffer, w.left, w.left - n);
    DropFront(Spell(w.buffer, w.left), PastBuffer(d, w, unread), c.Stream(), c.k, n);
  }

  lemma TableBounds(tbl: DerivedTable)
    requires tbl.Derived()
    ensures |tbl.maxcode| == 18 && |tbl.valoffset| == 17 && tbl.pub.Shape() && tbl.pub.Legal()
    ensures |tbl.lookNbits| == 256 && |tbl.lookSym| == 256
  {}

  // What the sequential tables say about a search that has reached length l.
  lemma SearchStep(tbl: DerivedTable, s: seq<Bit>, pos: nat, l: nat)
    requires tbl.Derived() && tbl.pub.LegalStart(s, pos, l)
    ensures tbl.pub.Shape() && tbl.pub.Legal() && |tbl.maxcode| == 18 && |tbl.valoffset| == 17
    ensures Value(s, pos, l) > tbl.maxcode[l] ==>
              && l <= 16 && tbl.pub.LegalStart(s, pos, l + 1)
              && tbl.pub.DecodeFrom(s, pos, l) == tbl.pub.DecodeFrom(s, pos, l + 1)
    ensures l == 17 ==> tbl.pub.DecodeFrom(s, pos, l) == (17, 0)
    ensures l <= 16 && Value(s, pos, l) <= tbl.maxcode[l] ==>
              var i := Value(s, pos, l) + tbl.valoffset[l];
              0 <= i < 256 && tbl.pub.DecodeFrom(s, pos, l) == (l, tbl.pub.huffval[i])
  {
    SeventeenBits(s, pos);
    if l <= 16 {
      tbl.pub.Advance(s, pos, l);
      tbl.pub.IndexMonotone(l + 1, 17);
    }
  }

  lemma OneMoreBit(s: seq<Bit>, pos: nat, l: nat)
    ensures Value(s, pos, l + 1) == 2 * Value(s, pos, l) + Value(s, pos + l, 1)
  {
    assert Value(s, pos + l, 1) == 2 * Value(s, pos + l, 0) + BitAt(s, pos + l);
  }

  lemma SeventeenBits(s: seq<Bit>, pos: nat)
    ensures Value(s, pos, 17) < 0xFFFFF
  {
    Pow2Adds(9, 8);
    assert Pow2(9) == 512 && Pow2(8) == 256;
  }

  lemma StartAtOne(t: Spec, s: seq<Bit>, pos: nat)
    requires t.Shape() && t.Legal()
    ensures t.LegalStart(s, pos, 1) && t.Decode(s, pos) == t.DecodeFrom(s, pos, 1)
  {}

  lemma LookupAgrees(tbl: DerivedTable, s: seq<Bit>, pos: nat)
    requires tbl.Derived()
    ensures var v := Value(s, pos, 8);
            && 0 <= v < 256
            && 0 <= tbl.lookNbits[v] <= 8 && tbl.lookSym[v] >= 0
            && (tbl.lookNbits[v] > 0 ==> tbl.pub.Decode(s, pos) == (tbl.lookNbits[v], tbl.lookSym[v]))
            && (tbl.lookNbits[v] == 0 ==>
                  tbl.pub.LegalStart(s, pos, 9) && tbl.pub.Decode(s, pos) == tbl.pub.DecodeFrom(s, pos, 9))
  {
    assert Pow2(8) == 256;
    var v := Value(s, pos, 8);
    tbl.pub.LookaheadAgrees(s, pos, tbl.lookNbits[v], tbl.lookSym[v]);
  }

  lemma AtBounds(d: seq<Byte>, w: Work, unread: Byte, c: Cursor)
    requires At(d, w, unread, c)
    ensures w.left <= 32 && w.pos <= |d| && c.k + w.left <= |c.s| + c.pad
    ensures unread == 0 ==> c.pad == 0 && c.ahead == FirstMarker(d, w.pos)
    ensures unread != 0 ==> c.k + w.left == |c.s| + c.pad
  {}

  lemma UnitProgress(d: seq<Byte>, pos: nat)
    ensures var u := NextUnit(d, pos);
            && (u.Data? ==> pos < u.next <= |d|)
            && (u.Mark? ==> pos < u.next <= |d| && u.code != 0 && u.code != 0xFF)
  {}

  // A marker, once seen, stays until it is processed.
  predicate MarkerKept(before: Byte, after: Byte) {
    before != 0 ==> after == before
  }

  lemma ReadingValid(rd: Reader, w: Work, c: Cursor)
    requires rd.Reading(w, c)
    ensures rd.Valid()
  {}

  lemma SegFlag(rd: Reader)
    ensures rd.Seg().insufficient == rd.insufficientData
  {}
}
