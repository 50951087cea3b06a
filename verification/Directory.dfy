/**
  Directory operations of lkfs (lkfs/dir.c) on the bytes of a directory's pages, proved
  against a finite map from names to inode numbers.
  */
module Directories {
  import opened DirFormat
  import opened Options

  datatype AddResult = Added | AlreadyExists | IoError | HitBug

  // Where lkfs_add_link's scan of a page ended.
  datatype Spot = NoRoom | AtEnd(off: nat) | Unused(off: nat) | Behind(off: nat) | Found(off: nat) | BadRecord

  // Entries that all calls together can take.
  function TotalRoom(rooms: seq<nat>): nat {
    if rooms == [] then 0 else TotalRoom(rooms[..|rooms| - 1]) + rooms[|rooms| - 1]
  }

  class Directory {
    const data: array<Byte>      // the page cache of the directory, page after page
    var size: nat                // i_size
    var iBlocks: nat             // i_blocks

    ghost predicate Valid()
      reads this, data
    {
      && WellFormed(data[..], size) && size + PAGE < 0x1_0000_0000
      && Tiled(data[..], 0, size) && Distinct(Entries(data[..], 0, size))
    }

    ghost function All(): seq<Entry>
      requires Valid()
      reads this, data
    {
      Entries(data[..], 0, size)
    }

    ghost function Abs(): map<seq<Byte>, nat>
      requires Valid()
      reads this, data
    {
      AsMap(All())
    }

    // dir_pages
    function Pages(): nat
      reads this
    {
      (size + PAGE - 1) / PAGE
    }

    // lkfs_last_byte, in the source's 32-bit unsigned arithmetic
    function LastByte(n: nat): nat
      reads this
    {
      var lastByte := (size - n * PAGE) % 0x1_0000_0000;
      if lastByte > PAGE then PAGE else lastByte
    }

    lemma LastByteInside(n: nat)
      requires size < 0x1_0000_0000 && n * PAGE <= size
      ensures LastByte(n) == if size - n * PAGE > PAGE then PAGE else size - n * PAGE
    {}

    // lkfs_match
    method Match(name: seq<Byte>, o: nat) returns (m: bool)
      requires o + 8 <= data.Length && o + 8 + NameLenAt(data[..], o) <= data.Length
      ensures m <==> InoAt(data[..], o) != 0 && NameAt(data[..], o) == name
    {
      var d := data[..];
      m := |name| == NameLenAt(d, o) && InoAt(d, o) != 0 && NameAt(d, o) == name;
    }

    // A spot for an entry with this name, or the entry itself.
    ghost predicate SpotFits(spot: Spot, name: seq<Byte>)
      requires data.Length >= size + PAGE
      reads this, data
    {
      match spot
      case AtEnd(o) => o == size
      case Unused(o) =>
        o < size && Tiled(data[..], 0, o) && RecOk(data[..], o, size)
        && InoAt(data[..], o) == 0 && LenAt(data[..], o) >= RecLenFor(|name|)
      case Behind(o) =>
        o < size && Tiled(data[..], 0, o) && RecOk(data[..], o, size)
        && InoAt(data[..], o) != 0 && LenAt(data[..], o) >= RecLenFor(NameLenAt(data[..], o)) + RecLenFor(|name|)
      case Found(o) =>
        o < size && Tiled(data[..], 0, o) && RecOk(data[..], o, size)
        && InoAt(data[..], o) != 0 && NameAt(data[..], o) == name
      case _ => false
    }

    // The scan passes neither the name nor room for it before that spot.
    ghost predicate SpotFirst(spot: Spot, name: seq<Byte>)
      requires data.Length >= size + PAGE
      reads this, data
    {
      match spot
      case AtEnd(o) => NotBefore(data[..], size, name)
      case Unused(o) => FirstRoom(data[..], size, o, name)
      case Behind(o) => FirstRoom(data[..], size, o, name)
      case Found(o) => NoRoomBefore(data[..], size, o, RecLenFor(|name|))
      case _ => false
    }

    // One record in that scan: the spot it offers, or where the next record is.
    method Inspect(de: nat, dirEnd: nat, name: seq<Byte>, reclen: nat) returns (spot: Spot, next: nat)
      requires Valid() && data.Length >= size + PAGE && reclen == RecLenFor(|name|) >= 12
      requires de < dirEnd <= size && dirEnd % CHUNK == 0 && Passed(data[..], size, de, name)
      ensures spot == NoRoom ==> de < next <= dirEnd && Passed(data[..], size, next, name)
      ensures spot != NoRoom ==> SpotFits(spot, name) && SpotFirst(spot, name)
    {
      hide Tiled, Entries, RecOk, Distinct, LenAt, InoAt, NameLenAt, NameAt, WellFormed, RecLenFor, Passed, FirstRoom,
           NoRoomBefore;
      PassedFacts(data[..], size, de, dirEnd, name);
      next := de;
      if LenAt(data[..], de) == 0 {
        return BadRecord, next;
      }
      var same := Match(name, de);
      if same {
        return Found(de), next;
      }
      var used, recLen := RecLenFor(NameLenAt(data[..], de)), LenAt(data[..], de);
      if InoAt(data[..], de) == 0 && recLen >= reclen {
        return Unused(de), next;
      }
      if recLen >= used + reclen {
        return Behind(de), next;
      }
      PassedMore(data[..], size, de, name);
      spot, next := NoRoom, de + recLen;
    }

    // The scan of one page by lkfs_add_link, for a name that needs reclen bytes.
    method ScanForRoom(n: nat, name: seq<Byte>, reclen: nat) returns (spot: Spot)
      requires Valid() && n * PAGE <= size && 12 <= reclen <= 264 && data.Length >= size + PAGE
      requires reclen == RecLenFor(|name|) && Passed(data[..], size, n * PAGE, name)
      ensures if spot == NoRoom then (n + 1) * PAGE <= size && Passed(data[..], size, (n + 1) * PAGE, name)
              else SpotFits(spot, name) && SpotFirst(spot, name)
    {
      LastByteInside(n);
      ChunkEnd(n, n * PAGE + LastByte(n));
      hide Tiled, Entries, RecOk, Distinct, LenAt, InoAt, NameLenAt, NameAt, WellFormed, RecLenFor, LastByte, Passed,
           FirstRoom, NoRoomBefore;
      var de, limit, dirEnd := n * PAGE, n * PAGE + PAGE - reclen, n * PAGE + LastByte(n);
      while de <= limit
        invariant n * PAGE <= de <= dirEnd && Passed(data[..], size, de, name)
        decreases n * PAGE + PAGE - de
      {
        if de == dirEnd {
          PassedName(data[..], size, de, name);
          return AtEnd(de);
        }
        spot, de := Inspect(de, dirEnd, name, reclen);
        if spot != NoRoom {
          return;
        }
      }
      PassedTail(data[..], size, de, dirEnd, name);
      FullPage(n, dirEnd);
      spot := NoRoom;
    }

    // A page begins at a record boundary.
    lemma PageBoundary(n: nat)
      requires Valid() && n * PAGE <= size
      ensures Tiled(data[..], 0, n * PAGE)
    {
      assert n * PAGE == (4 * n) * CHUNK;
    }

    method SetLen(o: nat, v: nat)
      requires o + 8 <= data.Length && v < 0x1_0000
      modifies data
      ensures LenAt(data[..], o) == v
      ensures InoAt(data[..], o) == old(InoAt(data[..], o)) && NameLenAt(data[..], o) == old(NameLenAt(data[..], o))
      ensures forall i | 0 <= i < data.Length && i != o + 4 && i != o + 5 :: data[i] == old(data[i])
    {
      data[o + 4], data[o + 5] := v % 256, v / 256;
    }

    method SetIno(o: nat, v: nat)
      requires o + 8 <= data.Length && v < 0x1_0000_0000
      modifies data
      ensures InoAt(data[..], o) == v
      ensures LenAt(data[..], o) == old(LenAt(data[..], o)) && NameLenAt(data[..], o) == old(NameLenAt(data[..], o))
      ensures forall i | 0 <= i < data.Length && !(o <= i < o + 4) :: data[i] == old(data[i])
    {
      FourBytes(v);
      data[o], data[o + 1], data[o + 2], data[o + 3] := v % 256, v / 256 % 256, v / 65536 % 256, v / 16777216;
    }

    // The end of lkfs_add_link: name length, name and inode number of a record.
    method WriteEntry(o: nat, name: seq<Byte>, ino: nat)
      requires o + 8 + |name| <= data.Length && 1 <= |name| < 256 && ino < 0x1_0000_0000
      modifies data
      ensures EntryWritten(old(data[..]), data[..], o, name, ino)
    {
      data[o + 6] := |name|;
      for i := 0 to |name|
        invariant data[o + 6] == |name| && forall k | 0 <= k < i :: data[o + 8 + k] == name[k]
        invariant forall k | 0 <= k < data.Length && k != o + 6 && !(o + 8 <= k < o + 8 + |name|) ::
            data[k] == old(data[k])
      {
        data[o + 8 + i] := name[i];
      }
      SetIno(o, ino);
      assert NameAt(data[..], o) == name;
    }

    // lkfs_commit_chunk: the size may grow; writing the inode sets i_blocks.
    method CommitChunk(pos: nat, len: nat)
      modifies this`size, this`iBlocks
      ensures size == (if pos + len > old(size) then pos + len else old(size)) && iBlocks == (size + 511) / 512
    {
      if pos + len > size {
        size := pos + len;
      }
      iBlocks := (size + 511) / 512;
    }

    method PlaceAtEnd(name: seq<Byte>, ino: nat)
      requires Valid() && 1 <= |name| < 256 && 0 < ino < 0x1_0000_0000
      requires data.Length >= size + PAGE && size + CHUNK + PAGE < 0x1_0000_0000
      modifies this`size, this`iBlocks, data
      ensures WellFormed(data[..], size) && Tiled(data[..], 0, size) && size == old(size) + CHUNK
      ensures Inserted(old(All()), Entries(data[..], 0, size), Entry(name, ino))
      ensures iBlocks == (size + 511) / 512
    {
      hide Tiled, Entries, RecOk, LenAt, InoAt, NameLenAt, NameAt, Inserted, Distinct, WellFormed;
      SizeOf(data[..], size);
      ghost var d := data[..];
      SetLen(size, CHUNK);
      SetIno(size, 0);
      WriteEntry(size, name, ino);
      assert SameBytes(d, data[..], 0, size);
      FillNewChunk(d, data[..], size, name, ino);
      CommitChunk(size, CHUNK);
    }

    method PlaceUnused(o: nat, name: seq<Byte>, ino: nat)
      requires Valid() && 1 <= |name| < 256 && 0 < ino < 0x1_0000_0000
      requires o < size && Tiled(data[..], 0, o) && RecOk(data[..], o, size)
      requires InoAt(data[..], o) == 0 && LenAt(data[..], o) >= RecLenFor(|name|)
      modifies this`size, this`iBlocks, data
      ensures WellFormed(data[..], size) && Tiled(data[..], 0, size) && size == old(size)
      ensures Inserted(old(All()), Entries(data[..], 0, size), Entry(name, ino))
      ensures iBlocks == (size + 511) / 512
    {
      hide Tiled, Entries, RecOk, LenAt, InoAt, NameLenAt, NameAt, Inserted, Distinct, WellFormed, RecLenFor,
           EntryWritten;
      SizeOf(data[..], size);
      RecordFacts(data[..], o, size);
      RecLenBounds(|name|);
      ghost var d := data[..];
      var recLen := LenAt(data[..], o);
      WriteEntry(o, name, ino);
      FillUnused(d, data[..], size, o, name, ino);
      CommitChunk(o, recLen);
    }

    method PlaceBehind(o: nat, name: seq<Byte>, ino: nat)
      requires Valid() && 1 <= |name| < 256 && 0 < ino < 0x1_0000_0000
      requires o < size && Tiled(data[..], 0, o) && RecOk(data[..], o, size)
      requires InoAt(data[..], o) != 0 && LenAt(data[..], o) >= RecLenFor(NameLenAt(data[..], o)) + RecLenFor(|name|)
      modifies this`size, this`iBlocks, data
      ensures WellFormed(data[..], size) && Tiled(data[..], 0, size) && size == old(size)
      ensures Inserted(old(All()), Entries(data[..], 0, size), Entry(name, ino))
      ensures iBlocks == (size + 511) / 512
    {
      hide Tiled, Entries, RecOk, LenAt, InoAt, NameLenAt, NameAt, Inserted, Distinct, WellFormed, RecLenFor, Cut;
      SizeOf(data[..], size);
      RecordFacts(data[..], o, size);
      LenBound(data[..], o);
      RecLenBounds(|name|);
      RecLenBounds(NameLenAt(data[..], o));
      ghost var d := data[..];
      var recLen, used := LenAt(data[..], o), RecLenFor(NameLenAt(data[..], o));
      SetLen(o + used, recLen - used);
      ghost var d1 := data[..];
      SetLen(o, used);
      ghost var d2 := data[..];
      WriteEntry(o + used, name, ino);
      LenSame(d1, d2, o + used);
      LenSame(d2, data[..], o);
      CutShown(d, data[..], size, o, name, ino);
      SplitRecord(d, data[..], size, o, name, ino);
      CommitChunk(o, recLen);
    }

    // A live record with this name stands before any room for a record of that name.
    ghost predicate MetFirst(name: seq<Byte>)
      reads this, data
    {
      exists o :: Holds(o, name) && NoRoomBefore(data[..], size, o, RecLenFor(|name|))
    }

    // lkfs_add_link.  The scan extends the directory by a chunk when it finds no room, and never
    // runs off the end.  A name that is there already is refused exactly if it is met before room for
    // another record; otherwise the entry is added all the same.
    method AddLink(name: seq<Byte>, ino: nat) returns (r: AddResult)
      requires Valid() && 1 <= |name| < 256 && 0 < ino < 0x1_0000_0000
      requires data.Length >= size + PAGE && size + CHUNK + PAGE < 0x1_0000_0000
      modifies this`size, this`iBlocks, data
      ensures WellFormed(data[..], size) && old(size) <= size <= old(size) + CHUNK
      ensures r == Added || r == AlreadyExists
      ensures name !in old(Abs()) ==> r == Added && Valid() && Abs() == old(Abs())[name := ino]
      ensures r == AlreadyExists <==> old(MetFirst(name))
      ensures r == Added ==> iBlocks == (size + 511) / 512 && Tiled(data[..], 0, size)
      ensures r == Added ==> Inserted(old(All()), Entries(data[..], 0, size), Entry(name, ino))
      ensures r == AlreadyExists ==> name in old(Abs()) && data[..] == old(data[..]) && size == old(size)
    {
      hide Tiled, Entries, RecOk, LenAt, InoAt, NameLenAt, NameAt, Inserted, Distinct, WellFormed, AsMap, RecLenFor,
           Passed, FirstRoom, NoRoomBefore, SpotFirst, MetFirst, Holds;
      RecLenBounds(|name|);
      ghost var before, d := All(), data[..];
      PassedNothing(d, size, name);
      var reclen := RecLenFor(|name|);
      var spot := NoRoom;
      var n := 0;
      while spot == NoRoom
        invariant spot == NoRoom ==> n * PAGE <= size && n <= Pages()   // so BUG() is not reached
        invariant spot == NoRoom ==> Passed(data[..], size, n * PAGE, name)
        invariant spot != NoRoom ==> SpotFits(spot, name) && SpotFirst(spot, name)
        decreases spot == NoRoom, size - n * PAGE
        modifies {}
      {
        spot := ScanForRoom(n, name, reclen);
        n := n + 1;
      }
      assert data[..] == d;
      SpotDecides(spot, name);
      r := Added;
      match spot {
        case AtEnd(_) => PlaceAtEnd(name, ino);
        case Unused(o) => PlaceUnused(o, name, ino);
        case Behind(o) => PlaceBehind(o, name, ino);
        case Found(o) =>
          FoundName(data[..], size, o, name);
          return AlreadyExists;
      }
      if Distinct(before) && name !in AsMap(before) {
        InsertedMap(before, Entries(data[..], 0, size), Entry(name, ino));
      }
    }

    // Which of the two the scan has met first.
    lemma SpotDecides(spot: Spot, name: seq<Byte>)
      requires Valid() && data.Length >= size + PAGE && SpotFits(spot, name) && SpotFirst(spot, name)
      ensures MetFirst(name) <==> spot.Found?
    {
      hide Tiled, Entries, RecOk, LenAt, InoAt, NameLenAt, NameAt, Distinct, WellFormed, RecLenFor;
      if spot.Found? {
        assert Holds(spot.off, name);
      } else if MetFirst(name) {
        var o: nat :| Holds(o, name) && NoRoomBefore(data[..], size, o, RecLenFor(|name|));
        if spot.AtEnd? {
          NamedIfHeld(data[..], size, o, size, name);
        } else if o < spot.off {
          NamedIfHeld(data[..], size, o, spot.off, name);
        }
      }
    }

    // The record at o is in use and holds this name.
    ghost predicate Holds(o: nat, name: seq<Byte>)
      reads this, data
    {
      && o < size && size <= data.Length && Tiled(data[..], 0, o) && RecOk(data[..], o, size)
      && InoAt(data[..], o) != 0 && NameAt(data[..], o) == name
    }

    // The scan of one page by lkfs_find_entry.
    method FindInPage(n: nat, name: seq<Byte>) returns (r: Option<nat>)
      requires Valid() && n < Pages() && 1 <= |name| && data.Length >= size + PAGE
      requires NotBefore(data[..], n * PAGE, name)
      ensures r.Some? ==> r.value < n * PAGE + LastByte(n) && Holds(r.value, name)
      ensures r.None? ==> NotBefore(data[..], n * PAGE + LastByte(n), name)
    {
      LastByteInside(n);
      hide Tiled, Entries, RecOk, InoAt, NameLenAt, NameAt, Distinct, WellFormed, RecLenFor, NotBefore, LastByte, LenAt;
      var dirEnd := n * PAGE + LastByte(n);
      var de, limit := n * PAGE, dirEnd - RecLenFor(|name|);
      ChunkEnd(n, dirEnd);
      r := None;
      while de <= limit
        invariant n * PAGE <= de <= dirEnd <= size && NotBefore(data[..], de, name)
        decreases dirEnd - de
      {
        RoomBelow(name);
        RecordHere(data[..], size, de, dirEnd, name);
        if LenAt(data[..], de) == 0 {
          return;
        }
        var same := Match(name, de);
        if same {
          return Some(de);
        }
        de := de + LenAt(data[..], de);
      }
      TailTooShort(data[..], size, de, dirEnd, name);
    }

    lemma ChunkEnd(n: nat, dirEnd: nat)
      requires Valid() && n * PAGE <= size && dirEnd == n * PAGE + LastByte(n)
      ensures dirEnd % CHUNK == 0 && n * PAGE <= dirEnd <= size
    {
      LastByteInside(n);
      hide Tiled, Entries, Distinct, LastByte;
      ChunksOnly(size, n, LastByte(n));
    }

    // A live record with this name begins before position e.
    ghost predicate LiveBefore(name: seq<Byte>, e: nat)
      reads this, data
    {
      exists o: nat :: o < e && Holds(o, name)
    }

    // lkfs_find_entry.  It looks at no more pages than i_blocks accounts for, and finds a name
    // exactly if its record begins there.
    method FindEntry(name: seq<Byte>) returns (r: Option<nat>)
      requires Valid() && 1 <= |name| && data.Length >= size + PAGE
      ensures r.Some? <==> LiveBefore(name, Searched())
      ensures r.Some? ==> r.value < Searched() && Holds(r.value, name)
    {
      hide Tiled, Entries, RecOk, Distinct, WellFormed, NotBefore, Holds;
      r := Search(name);
      if r.None? {
        NoneLive(Searched(), name);
      }
    }

    // Where no chain up to e shows a name, no live record with it begins before e.
    lemma NoneLive(e: nat, name: seq<Byte>)
      requires Valid() && e <= size && NotBefore(data[..], e, name)
      ensures !LiveBefore(name, e)
    {
      forall o: nat | o < e
        ensures !Holds(o, name)
      {
        if Holds(o, name) {
          NamedIfHeld(data[..], size, o, e, name);
        }
      }
    }

    // The loop of lkfs_find_entry.
    method Search(name: seq<Byte>) returns (r: Option<nat>)
      requires Valid() && 1 <= |name| && data.Length >= size + PAGE
      ensures Searched() <= size
      ensures r.Some? ==> r.value < Searched() && Holds(r.value, name)
      ensures r.None? ==> NotBefore(data[..], Searched(), name)
    {
      hide Tiled, Entries, RecOk, Distinct, WellFormed, NotBefore, Holds;
      NothingFirst(data[..], name);
      r := None;
      var npages := Pages();
      if npages == 0 {
        return;
      }
      var n := 0;
      while true
        invariant n < npages && n <= iBlocks / 8 && r == None && NotBefore(data[..], n * PAGE, name)
        decreases npages - n
      {
        r := FindInPage(n, name);
        if r.Some? {
          return;
        }
        LastByteInside(n);
        n := n + 1;
        if n >= npages || n > iBlocks / 8 {
          return;
        }
      }
    }

    // The walk of lkfs_delete_entry to the record before the one at o, in its chunk.
    method FindPrevious(o: nat) returns (pde: Option<nat>)
      requires Valid() && o < size && Tiled(data[..], 0, o)
      ensures pde.None? ==> o % CHUNK == 0
      ensures pde.Some? ==>
                && pde.value < o && pde.value / CHUNK == o / CHUNK && Tiled(data[..], 0, pde.value)
                && RecOk(data[..], pde.value, size) && pde.value + LenAt(data[..], pde.value) == o
    {
      ghost var d := data[..];
      var de := o / CHUNK * CHUNK;
      PageEndHidden(d, size, de);
      hide Tiled, Entries, RecOk, InoAt, NameLenAt, LenAt, Distinct, WellFormed;
      pde := None;
      while de < o
        invariant o / CHUNK * CHUNK <= de <= o && Tiled(d, 0, de)
        invariant pde.None? ==> de == o / CHUNK * CHUNK
        invariant pde.Some? ==>
                    && o / CHUNK * CHUNK <= pde.value < de && Tiled(d, 0, pde.value)
                    && RecOk(d, pde.value, size) && pde.value + 8 <= |d| && pde.value + LenAt(d, pde.value) == de
      {
        StepsTo(d, size, de, o);
        pde := Some(de);
        de := de + LenAt(data[..], de);
      }
    }

    // lkfs_delete_entry: the record at o becomes part of the one before it in its chunk, or unused.
    method DeleteEntry(o: nat, ghost name: seq<Byte>)
      requires Valid() && Holds(o, name)
      modifies this`size, this`iBlocks, data
      ensures Valid() && Abs() == old(Abs()) - {name} && name in old(Abs())
      ensures size == old(size) && iBlocks == (size + 511) / 512
    {
      hide Tiled, Entries, RecOk, InoAt, NameLenAt, NameAt, LenAt, Inserted, Distinct, WellFormed, AsMap;
      SizeOf(data[..], size);
      RecordFacts(data[..], o, size);
      LenBound(data[..], o);
      ghost var d, before := data[..], All();
      var pde := FindPrevious(o);
      var from, to := o / CHUNK * CHUNK, o + LenAt(data[..], o);
      if pde.Some? {
        from := pde.value;
        RecordFacts(data[..], from, size);
        RecordInChunk(d, size, o);
        SetLen(from, to - from);
        ghost var d1 := data[..];
        SetIno(o, 0);
        AbsorbShown(d, d1, data[..], size, from, o);
        Absorb(d, data[..], size, from, o);
      } else {
        SetIno(o, 0);
        Unuse(d, data[..], size, o);
      }
      CommitChunk(from, to - from);
      InsertedMapBack(Entries(data[..], 0, size), before, Entry(name, InoAt(d, o)));
      InsertedHas(Entries(data[..], 0, size), before, Entry(name, InoAt(d, o)));
    }

    // One of the two records of a new directory: header and name, padded to four bytes.
    method WriteDots(o: nat, len: nat, dots: nat, ino: nat)
      requires o + 12 <= data.Length && len < 0x1_0000 && 1 <= dots <= 2 && ino < 0x1_0000_0000
      modifies data
      ensures LenAt(data[..], o) == len && InoAt(data[..], o) == ino && NameLenAt(data[..], o) == dots
      ensures NameAt(data[..], o) == if dots == 1 then DOT else DOTDOT
      ensures forall i | 0 <= i < data.Length && !(o <= i < o + 12) :: data[i] == old(data[i])
    {
      data[o + 6] := dots;
      SetLen(o, len);
      data[o + 8], data[o + 9], data[o + 10], data[o + 11] := 46, if dots == 2 then 46 else 0, 0, 0;
      SetIno(o, ino);
      assert NameAt(data[..], o) == if dots == 1 then DOT else DOTDOT;
    }

    // lkfs_make_empty: the first chunk holds the directory itself and its parent.
    method MakeEmpty(self: nat, parent: nat)
      requires data.Length >= PAGE && size == 0 && 0 < self < 0x1_0000_0000 && 0 < parent < 0x1_0000_0000
      modifies this`size, this`iBlocks, data
      ensures Valid() && size == CHUNK && Abs() == map[DOT := self, DOTDOT := parent] && iBlocks == (size + 511) / 512
    {
      hide Tiled, Entries, RecOk, Distinct, AsMap, LenAt, InoAt, NameLenAt, NameAt;
      for i := 0 to CHUNK
        invariant forall k | 0 <= k < i :: data[k] == 0
        modifies data
      {
        data[i] := 0;
      }
      WriteDots(0, RecLenFor(1), 1, self);
      ghost var d := data[..];
      WriteDots(12, CHUNK - RecLenFor(1), 2, parent);
      FirstKept(d, data[..]);
      EmptyDirectory(data[..], self, parent);
      CommitChunk(0, CHUNK);
    }

    // One page of lkfs_readdir, from record `start` on, with room for `room` more entries.
    method ReadPage(n: nat, start: nat, room: nat) returns (pos: nat, over: bool, out: seq<Entry>)
      requires Valid() && n < Pages() && n * PAGE <= start <= n * PAGE + LastByte(n) && Tiled(data[..], 0, start)
      requires data.Length >= size + PAGE
      ensures start <= pos <= n * PAGE + LastByte(n) && Tiled(data[..], 0, pos) && Tiled(data[..], start, pos)
      ensures out == Entries(data[..], start, pos) && |out| <= room
      ensures over ==> |out| == room && pos < size
      ensures !over ==> pos == n * PAGE + LastByte(n)
    {
      ChunkEnd(n, n * PAGE + LastByte(n));
      ghost var d := data[..];
      EmptyChain(d, start);
      hide Tiled, Entries, RecOk, InoAt, NameLenAt, NameAt, LenAt, Distinct, WellFormed, LastByte, EntryAt;
      var dirEnd := n * PAGE + LastByte(n);
      pos, over, out := start, false, [];
      while pos + 12 <= dirEnd
        invariant start <= pos <= dirEnd && Tiled(d, 0, pos) && Tiled(d, start, pos)
        invariant out == Entries(d, start, pos) && |out| <= room
        decreases dirEnd - pos
      {
        ReadFacts(d, size, start, pos, dirEnd);
        if InoAt(data[..], pos) != 0 {
          if |out| == room {
            over := true;
            return;
          }
          out := out + [Entry(NameAt(data[..], pos), InoAt(data[..], pos))];
        }
        pos := pos + LenAt(data[..], pos);
      }
      EndReached(d, size, pos, dirEnd);
    }

    // lkfs_readdir from position f_pos, for a caller that takes `room` entries.
    method ReadDir(fPos: nat, room: nat) returns (pos: nat, out: seq<Entry>)
      requires Valid() && fPos <= size && Tiled(data[..], 0, fPos) && data.Length >= size + PAGE
      ensures fPos <= pos <= size && Tiled(data[..], 0, pos) && Tiled(data[..], fPos, pos)
      ensures out == Entries(data[..], fPos, pos) && |out| <= room
      ensures |out| == room || pos == size
    {
      ghost var d := data[..];
      EmptyChain(d, fPos);
      EndReached(d, size, fPos, size);
      hide Tiled, Entries, Distinct, WellFormed;
      pos, out := fPos, [];
      if pos + 12 > size {
        return;
      }
      var n := pos / PAGE;
      while n < Pages()
        invariant fPos <= pos <= size && Tiled(d, 0, pos) && Tiled(d, fPos, pos)
        invariant out == Entries(d, fPos, pos) && |out| <= room
        invariant n < Pages() ==> n * PAGE <= pos <= n * PAGE + LastByte(n)
        invariant n >= Pages() ==> pos == size
      {
        LastByteInside(n);
        var next, over, more := ReadPage(n, pos, room - |out|);
        TiledJoins(d, fPos, pos, next);
        pos, out := next, out + more;
        if over {
          return;
        }
        n := n + 1;
        if n < Pages() {
          LastByteInside(n);
        }
      }
    }

    // Reading in several calls, each from where the one before it stopped, with nothing changed
    // in between: entries are listed once each, in order, and none is left out while there is room.
    method ReadAll(rooms: seq<nat>) returns (pos: nat, out: seq<Entry>)
      requires Valid() && data.Length >= size + PAGE
      ensures pos <= size && Tiled(data[..], 0, pos) && out == Entries(data[..], 0, pos)
      ensures out <= All() && |out| == if TotalRoom(rooms) <= |All()| then TotalRoom(rooms) else |All()|
    {
      hide Distinct, WellFormed, Tiled, Entries;
      EmptyChain(data[..], 0);
      pos, out := 0, [];
      assert rooms[..0] == [];
      for i := 0 to |rooms|
        invariant pos <= size && Tiled(data[..], 0, pos) && out == Entries(data[..], 0, pos)
        invariant |out| <= TotalRoom(rooms[..i]) && (|out| == TotalRoom(rooms[..i]) || pos == size)
      {
        assert rooms[..i + 1][..i] == rooms[..i];
        pos, out := ReadMore(pos, rooms[i], out);
      }
      assert rooms[..|rooms|] == rooms;
      TiledSplits(data[..], 0, pos, size);
    }

    // One of these calls.
    method ReadMore(from: nat, room: nat, before: seq<Entry>) returns (pos: nat, out: seq<Entry>)
      requires Valid() && data.Length >= size + PAGE
      requires from <= size && Tiled(data[..], 0, from) && before == Entries(data[..], 0, from)
      ensures from <= pos <= size && Tiled(data[..], 0, pos) && out == Entries(data[..], 0, pos)
      ensures |out| <= |before| + room && (|out| == |before| + room || pos == size)
    {
      hide Distinct, WellFormed, Tiled, Entries;
      var more;
      pos, more := ReadDir(from, room);
      TiledJoins(data[..], 0, from, pos);
      out := before + more;
    }

    // How far lkfs_find_entry looks.
    function Searched(): nat
      reads this
    {
      if Pages() <= iBlocks / 8 + 1 then size else (iBlocks / 8 + 1) * PAGE
    }

    // The names of the directory are those of its live records.
    lemma LiveDecides(name: seq<Byte>)
      requires Valid()
      ensures LiveBefore(name, size) <==> name in Abs()
      ensures forall o | Holds(o, name) :: name in Abs() && Abs()[name] == InoAt(data[..], o)
    {
      hide Tiled, Entries, Distinct, WellFormed, AsMap;
      MapHas(All(), name);
      forall o | Holds(o, name)
        ensures name in Abs() && Abs()[name] == InoAt(data[..], o)
      {
        FoundName(data[..], size, o, name);
      }
      if name in Abs() {
        var o := HeldIfNamed(data[..], size, 0, name);
        assert Holds(o, name);
      }
    }

    // lkfs_inode_by_name: the inode number under a name whose record lkfs_find_entry looks at, and
    // 0 for every other name.
    method InodeByName(name: seq<Byte>) returns (ino: nat)
      requires Valid() && 1 <= |name| && data.Length >= size + PAGE
      ensures ino != 0 <==> LiveBefore(name, Searched())
      ensures ino != 0 ==> name in Abs() && ino == Abs()[name]
      ensures Pages() <= iBlocks / 8 + 1 ==> ino == if name in Abs() then Abs()[name] else 0
    {
      hide Tiled, Entries, Distinct, WellFormed, AsMap, RecOk;
      var r := FindEntry(name);
      LiveDecides(name);
      ino := if r.Some? then InoAt(data[..], r.value) else 0;
    }

    // Every name of the directory is found exactly if all its entries lie before the point where
    // lkfs_find_entry stops.
    lemma LookupCompleteIff()
      requires Valid()
      ensures Searched() <= size && Tiled(data[..], Searched(), size)
      ensures (forall name | name in Abs() :: LiveBefore(name, Searched())) <==>
          Entries(data[..], Searched(), size) == []
    {
      hide AsMap, RecOk, Distinct, WellFormed, Entries, Tiled;
      var d, e := data[..], Searched();
      SearchedBoundary();
      TiledSplits(d, 0, e, size);
      forall name | name in Abs() && Entries(d, e, size) == []
        ensures LiveBefore(name, e)
      {
        MapHas(All(), name);
        assert Entries(d, 0, e) + [] == Entries(d, 0, e);
        var o := HeldBefore(d, size, e, name);
        assert Holds(o, name);
      }
      if Entries(d, e, size) != [] {
        var x := Entries(d, e, size)[0];
        BehindIsNotBefore(All(), Entries(d, 0, e), Entries(d, e, size));
        MapHas(All(), x.name);
        NoneLive(e, x.name);
      }
    }

    // lkfs_find_entry stops at a record boundary.
    lemma SearchedBoundary()
      requires Valid()
      ensures Searched() <= size && Tiled(data[..], 0, Searched())
    {
      if Pages() > iBlocks / 8 + 1 {
        PageBoundary(iBlocks / 8 + 1);
      }
    }

    // A root directory of two pages that has just been read: i_blocks is 2, only the first page is
    // searched, and the name on the second page is not found.
    lemma RootLosesNames()
      requires data[..] == RootBytes() && size == 5 * CHUNK && iBlocks == 2
      ensures Valid() && Pages() == 2 && Searched() == PAGE
      ensures LAST_NAME in Abs() && !LiveBefore(LAST_NAME, Searched())
    {
      hide Tiled, Entries, AsMap, RecOk, Holds;
      var d := data[..];
      RootLayout(d);
      var es := Entries(d, 0, size);
      assert es[2] == Entry(LAST_NAME, 12);
      MapHas(es, LAST_NAME);
      NoneLive(PAGE, LAST_NAME);
    }

    // A name added is found, and all other names are found as before.
    method AddAndFind(name: seq<Byte>, ino: nat, other: seq<Byte>) returns (found: nat, otherFound: nat)
      requires Valid() && 1 <= |name| < 256 && 0 < ino < 0x1_0000_0000 && 1 <= |other| && name !in Abs()
      requires data.Length >= size + CHUNK + PAGE && size + CHUNK + PAGE < 0x1_0000_0000
      modifies this`size, this`iBlocks, data
      ensures found == ino
      ensures other != name ==> otherFound == if other in old(Abs()) then old(Abs())[other] else 0
    {
      hide WellFormed, Tiled, Entries, Distinct, AsMap;
      var r := AddLink(name, ino);
      BlocksCover();
      found := InodeByName(name);
      otherFound := InodeByName(other);
    }

    // It does after every change, because writing the inode sets i_blocks from the size.
    lemma BlocksCover()
      requires iBlocks == (size + 511) / 512
      ensures Pages() <= iBlocks / 8 + 1
    {}
  }

  // Pages, like directories, end with a whole chunk.
  lemma ChunksOnly(size: nat, n: nat, last: nat)
    requires size % CHUNK == 0 && n * PAGE <= size
    requires last == if size - n * PAGE > PAGE then PAGE else size - n * PAGE
    ensures (n * PAGE + last) % CHUNK == 0
  {}

  lemma FullPage(n: nat, dirEnd: nat)
    requires dirEnd % CHUNK == 0 && n * PAGE + PAGE - 264 < dirEnd <= n * PAGE + PAGE
    ensures dirEnd == (n + 1) * PAGE
  {}

  // The record at o has room for a record of reclen bytes.
  ghost predicate RoomAt(d: seq<Byte>, size: nat, o: nat, reclen: nat) {
    && Tiled(d, 0, o) && RecOk(d, o, size)
    && ((InoAt(d, o) == 0 && LenAt(d, o) >= reclen) || LenAt(d, o) >= RecLenFor(NameLenAt(d, o)) + reclen)
  }

  ghost predicate NoRoomBefore(d: seq<Byte>, size: nat, e: nat, reclen: nat) {
    forall o: nat | o < e :: !RoomAt(d, size, o, reclen)
  }

  // The record at o has room for this name, and neither it nor any record before it holds the name.
  ghost predicate FirstRoom(d: seq<Byte>, size: nat, o: nat, name: seq<Byte>) {
    && RoomAt(d, size, o, RecLenFor(|name|)) && NotBefore(d, o, name)
    && o + 8 + NameLenAt(d, o) <= |d| && !(InoAt(d, o) != 0 && NameAt(d, o) == name)
  }

  // Neither the name nor room for it stands before the record boundary e.
  ghost predicate Passed(d: seq<Byte>, size: nat, e: nat, name: seq<Byte>) {
    NotBefore(d, e, name) && NoRoomBefore(d, size, e, RecLenFor(|name|))
  }

  lemma PassedNothing(d: seq<Byte>, size: nat, name: seq<Byte>)
    ensures Passed(d, size, 0, name)
  {}

  lemma PassedName(d: seq<Byte>, size: nat, e: nat, name: seq<Byte>)
    requires Passed(d, size, e, name)
    ensures NotBefore(d, e, name)
  {}

  lemma PassedFacts(d: seq<Byte>, size: nat, o: nat, b: nat, name: seq<Byte>)
    requires WellFormed(d, size) && |d| >= size + PAGE && Passed(d, size, o, name) && o < b <= size && b % CHUNK == 0
    ensures o + 12 <= |d| && RecOk(d, o, size) && Tiled(d, 0, o) && 12 <= LenAt(d, o) && o + LenAt(d, o) <= b
    ensures NoRoomBefore(d, size, o, RecLenFor(|name|)) && o + 8 + NameLenAt(d, o) <= |d|
    ensures !(InoAt(d, o) != 0 && NameAt(d, o) == name) && RoomAt(d, size, o, RecLenFor(|name|)) ==>
              FirstRoom(d, size, o, name)
  {
    hide Tiled, Entries, RecOk, LenAt, InoAt, NameLenAt, NameAt, RecLenFor, WellFormed;
    RecordBefore(d, size, o, b);
  }

  lemma PassedMore(d: seq<Byte>, size: nat, o: nat, name: seq<Byte>)
    requires WellFormed(d, size) && Passed(d, size, o, name) && RecOk(d, o, size) && o + 8 + NameLenAt(d, o) <= |d|
    requires !(InoAt(d, o) != 0 && NameAt(d, o) == name) && !RoomAt(d, size, o, RecLenFor(|name|))
    ensures Passed(d, size, o + LenAt(d, o), name)
  {
    hide Tiled, Entries, RecOk, LenAt, InoAt, NameLenAt, NameAt, RecLenFor, WellFormed;
    SizeOf(d, size);
    RecordFacts(d, o, size);
    RecordHere(d, size, o, size, name);
    forall p: nat | p < o + LenAt(d, o) ensures !RoomAt(d, size, p, RecLenFor(|name|)) {
      if p > o && RoomAt(d, size, p, RecLenFor(|name|)) {
        RecordFacts(d, p, size);
        assert Tiled(d, 0, o) && Tiled(d, 0, p) && p < size;
        StepsTo(d, size, o, p);
      }
    }
  }

  // The records at the end of a page are too short.
  lemma PassedTail(d: seq<Byte>, size: nat, o: nat, e: nat, name: seq<Byte>)
    requires WellFormed(d, size) && Passed(d, size, o, name) && o <= e <= size && e % CHUNK == 0
    requires e < o + RecLenFor(|name|)
    ensures Passed(d, size, e, name)
  {
    hide Tiled, Entries, RecOk, LenAt, InoAt, NameLenAt, NameAt, RecLenFor, WellFormed;
    TailTooShort(d, size, o, e, name);
    forall p: nat | p < e ensures !RoomAt(d, size, p, RecLenFor(|name|)) {
      if p >= o && RoomAt(d, size, p, RecLenFor(|name|)) {
        RecordFacts(d, p, size);
        RecordBefore(d, size, p, e);
      }
    }
  }

  const DOT: seq<Byte> := [46]
  const DOTDOT: seq<Byte> := [46, 46]

  const LAST_NAME: seq<Byte> := [97]

  // Chunk 0 holds the entries of the directory itself and its parent, chunks 1 to 3 hold none, and
  // chunk 4 holds a single one.
  function RootBytes(): (d: seq<Byte>)
    ensures |d| == 5 * CHUNK + PAGE
  {
    seq(5 * CHUNK + PAGE, i requires 0 <= i =>
      if i < CHUNK then DotsByte(i)
      else if i < 4 * CHUNK && i % CHUNK == 5 then 4
      else if i < 4 * CHUNK then 0
      else LastByteOf(i - 4 * CHUNK))
  }

  function DotsByte(i: nat): Byte {
    if i == 0 || i == 12 then 2
    else if i == 4 then 12
    else if i == 6 then 1
    else if i == 8 || i == 20 || i == 21 then 46
    else if i == 16 then 244
    else if i == 17 then 3
    else if i == 18 then 2
    else 0
  }

  function LastByteOf(i: nat): Byte {
    if i == 0 then 12 else if i == 5 then 4 else if i == 6 then 1 else if i == 8 then 97 else 0
  }

  lemma RootDots(d: seq<Byte>)
    requires d == RootBytes()
    ensures FirstChunk(d, 2, 2)
  {
    forall i | 0 <= i < 24 ensures d[i] == DotsByte(i) {}
  }

  lemma RootGap(d: seq<Byte>, c: nat)
    requires d == RootBytes() && 1 <= c < 4
    ensures Tiled(d, c * CHUNK, c * CHUNK + CHUNK) && Entries(d, c * CHUNK, c * CHUNK + CHUNK) == []
  {
    hide Tiled, Entries, RecOk;
    UnusedRecord(d, c * CHUNK, CHUNK);
  }

  lemma RootLast(d: seq<Byte>)
    requires d == RootBytes()
    ensures Tiled(d, 4 * CHUNK, 5 * CHUNK) && Entries(d, 4 * CHUNK, 5 * CHUNK) == [Entry(LAST_NAME, 12)]
  {
    hide Tiled, Entries, RecOk;
    var o := 4 * CHUNK;
    forall i | 0 <= i < 12 ensures d[o + i] == LastByteOf(i) {}
    assert d[o..][..12] == [12, 0, 0, 0, 0, 4, 1, 0, 97, 0, 0, 0] by {
      forall i | 0 <= i < 12 ensures d[o..][i] == LastByteOf(i) {}
    }
    assert d[o + 8..o + 9] == LAST_NAME;
    Record(d, o, CHUNK, LAST_NAME, 12);
  }

  lemma RootLayout(d: seq<Byte>)
    requires d == RootBytes()
    ensures WellFormed(d, 5 * CHUNK) && Tiled(d, 0, 5 * CHUNK) && NotBefore(d, PAGE, LAST_NAME)
    ensures Entries(d, 0, 5 * CHUNK) == [Entry(DOT, 2), Entry(DOTDOT, 2), Entry(LAST_NAME, 12)]
  {
    hide Tiled, Entries, RecOk, RootBytes, LenAt, InoAt, NameAt, NameLenAt;
    RootDots(d);
    RootGap(d, 1);
    RootGap(d, 2);
    RootGap(d, 3);
    RootLast(d);
    Record(d, 0, 12, DOT, 2);
    Record(d, 12, CHUNK - 12, DOTDOT, 2);
    EmptyChain(d, 0);
    TiledJoins(d, 0, 12, CHUNK);
    TiledJoins(d, 0, 1 * CHUNK, 1 * CHUNK + CHUNK);
    TiledJoins(d, 0, 2 * CHUNK, 2 * CHUNK + CHUNK);
    TiledJoins(d, 0, 3 * CHUNK, 3 * CHUNK + CHUNK);
    TiledJoins(d, 0, 4 * CHUNK, 5 * CHUNK);
    assert Entries(d, 0, PAGE) == [Entry(DOT, 2), Entry(DOTDOT, 2)];
    forall c: nat | c * CHUNK <= 5 * CHUNK
      ensures Tiled(d, 0, c * CHUNK)
    {
      assert c == 0 || c == 1 || c == 2 || c == 3 || c == 4 || c == 5;
    }
  }

  // A record in use before e appears among the entries before e.
  lemma NamedIfHeld(d: seq<Byte>, size: nat, o: nat, e: nat, name: seq<Byte>)
    requires o < e && Tiled(d, 0, o) && Tiled(d, 0, e) && RecOk(d, o, size)
    requires InoAt(d, o) != 0 && NameAt(d, o) == name
    ensures Named(Entries(d, 0, e), name)
  {
    TiledSplits(d, 0, o, e);
    var a, b := Entries(d, 0, o), Entries(d, o, e);
    assert b[0] == Entry(name, InoAt(d, o));
    NamedJoins(a, b, name);
  }

  // An entry of a chain is held by one of its records.
  lemma {:induction false} HeldIfNamed(d: seq<Byte>, size: nat, a: nat, name: seq<Byte>) returns (o: nat)
    requires Tiled(d, 0, a) && Tiled(d, a, size) && Named(Entries(d, a, size), name)
    ensures o < size <= |d| && Tiled(d, 0, o) && RecOk(d, o, size) && InoAt(d, o) != 0 && NameAt(d, o) == name
    decreases size - a
  {
    TiledOrdered(d, a, size);
    NamedJoins(EntryAt(d, a, size), Entries(d, a + LenAt(d, a), size), name);
    if Named(EntryAt(d, a, size), name) {
      o := a;
    } else {
      OneRecord(d, a);
      TiledJoins(d, 0, a, a + LenAt(d, a));
      o := HeldIfNamed(d, size, a + LenAt(d, a), name);
    }
  }

  // The same up to a record boundary before the end.
  lemma HeldBefore(d: seq<Byte>, size: nat, e: nat, name: seq<Byte>) returns (o: nat)
    requires Tiled(d, 0, e) && Tiled(d, 0, size) && e <= size && Named(Entries(d, 0, e), name)
    ensures o < e && size <= |d| && Tiled(d, 0, o) && RecOk(d, o, size) && InoAt(d, o) != 0 && NameAt(d, o) == name
  {
    EmptyChain(d, 0);
    TiledOrdered(d, 0, size);
    o := HeldIfNamed(d, e, 0, name);
  }

  // A name behind a boundary does not occur before it.
  lemma BehindIsNotBefore(es: seq<Entry>, a: seq<Entry>, b: seq<Entry>)
    requires es == a + b && Distinct(es) && |b| > 0
    ensures Named(es, b[0].name) && !Named(a, b[0].name)
  {
    assert es[|a|] == b[0];
    forall i | 0 <= i < |a|
      ensures a[i].name != b[0].name
    {
      assert es[i] == a[i];
    }
  }

  lemma FourBytes(v: nat)
    requires v < 0x1_0000_0000
    ensures v / 16777216 < 256
    ensures v == v % 256 + 256 * (v / 256 % 256 + 256 * (v / 65536 % 256 + 256 * (v / 16777216)))
  {
    assert v / 256 / 256 == v / 65536;
    assert v / 65536 / 256 == v / 16777216;
  }

  lemma EmptyChain(d: seq<Byte>, o: nat)
    ensures Tiled(d, o, o) && Entries(d, o, o) == []
  {}

  // One record further in a chain that began at `start`.
  lemma StartedAt(d: seq<Byte>, size: nat, start: nat, o: nat)
    requires WellFormed(d, size) && Tiled(d, 0, o) && Tiled(d, start, o) && o < size
    ensures RecOk(d, o, size) && Tiled(d, start, o + LenAt(d, o))
    ensures Entries(d, start, o + LenAt(d, o)) == Entries(d, start, o) + EntryAt(d, o, size)
  {
    hide Tiled, Entries, RecOk, EntryAt, LenAt;
    RecordAt(d, size, o);
    OneRecordHidden(d, o, size);
    TiledJoins(d, start, o, o + LenAt(d, o));
  }

  lemma ReadFacts(d: seq<Byte>, size: nat, start: nat, o: nat, b: nat)
    requires WellFormed(d, size) && Tiled(d, 0, o) && Tiled(d, start, o) && o < b <= size && b % CHUNK == 0
    ensures o + 8 <= |d| && (InoAt(d, o) != 0 ==> o + 8 + NameLenAt(d, o) <= |d|)
    ensures o < o + LenAt(d, o) <= b && Tiled(d, 0, o + LenAt(d, o)) && Tiled(d, start, o + LenAt(d, o))
    ensures Entries(d, start, o + LenAt(d, o)) ==
              Entries(d, start, o) + if InoAt(d, o) != 0 then [Entry(NameAt(d, o), InoAt(d, o))] else []
  {
    hide Tiled, Entries, RecOk, EntryAt, LenAt, InoAt, NameLenAt, NameAt;
    RecordBefore(d, size, o, b);
    RecordFacts(d, o, size);
    StartedAt(d, size, start, o);
  }

  // No record fits into fewer than twelve bytes.
  lemma EndReached(d: seq<Byte>, size: nat, o: nat, e: nat)
    requires WellFormed(d, size) && Tiled(d, 0, o) && o <= e <= size && e % CHUNK == 0
    ensures e < o + 12 ==> o == e
  {
    assert e == (e / CHUNK) * CHUNK;
    TiledSplits(d, 0, o, e);
  }

  // The two entries of an empty directory.
  ghost predicate FirstChunk(e: seq<Byte>, self: nat, parent: nat)
    requires |e| >= PAGE
  {
    && LenAt(e, 0) == 12 && InoAt(e, 0) == self && NameLenAt(e, 0) == 1 && NameAt(e, 0) == DOT
    && LenAt(e, 12) == CHUNK - 12 && InoAt(e, 12) == parent && NameLenAt(e, 12) == 2 && NameAt(e, 12) == DOTDOT
  }

  lemma FirstKept(d: seq<Byte>, e: seq<Byte>)
    requires |d| == |e| >= PAGE && SameBytes(d, e, 0, 12) && NameLenAt(d, 0) == 1
    ensures LenAt(e, 0) == LenAt(d, 0) && InoAt(e, 0) == InoAt(d, 0) && NameLenAt(e, 0) == 1
        && NameAt(e, 0) == NameAt(d, 0)
  {}

  lemma EmptyDirectory(e: seq<Byte>, self: nat, parent: nat)
    requires |e| >= PAGE && 0 < self && 0 < parent && FirstChunk(e, self, parent)
    ensures WellFormed(e, CHUNK) && Tiled(e, 0, CHUNK)
    ensures Distinct(Entries(e, 0, CHUNK)) && AsMap(Entries(e, 0, CHUNK)) == map[DOT := self, DOTDOT := parent]
  {
    hide LenAt, InoAt, NameAt, NameLenAt, Tiled, Entries;
    Record(e, 0, 12, DOT, self);
    Record(e, 12, CHUNK - 12, DOTDOT, parent);
    TiledJoins(e, 0, 12, CHUNK);
    EmptyChain(e, 0);
    var es := Entries(e, 0, CHUNK);
    assert es == [Entry(DOT, self), Entry(DOTDOT, parent)];
    assert es[..1] == [Entry(DOT, self)] && es[..1][..0] == [];
    assert AsMap(es[..1]) == map[DOT := self];
    forall c: nat | c * CHUNK <= CHUNK ensures Tiled(e, 0, c * CHUNK) {
      assert c == 0 || c == 1;
    }
  }

  lemma PageEndHidden(d: seq<Byte>, size: nat, e: nat)
    requires WellFormed(d, size) && e <= size && e % CHUNK == 0
    ensures Tiled(d, 0, e)
  {
    assert e == (e / CHUNK) * CHUNK;
  }

  // The records between two boundaries lead from one to the other.
  lemma StepsTo(d: seq<Byte>, size: nat, a: nat, o: nat)
    requires WellFormed(d, size) && Tiled(d, 0, a) && Tiled(d, 0, o) && a < o < size
    ensures a + 8 <= |d| && RecOk(d, a, size) && 12 <= LenAt(d, a) && a + LenAt(d, a) <= o
        && Tiled(d, 0, a + LenAt(d, a))
  {
    RecordAt(d, size, a);
    TiledSplits(d, 0, a, o);
  }

  lemma RecordInChunk(d: seq<Byte>, size: nat, o: nat)
    requires WellFormed(d, size) && Tiled(d, 0, o) && o < size && RecOk(d, o, size)
    ensures o + LenAt(d, o) <= (o / CHUNK + 1) * CHUNK
  {
    RecordAt(d, size, o);
    var c := o / CHUNK + 1;
    assert !(o < c * CHUNK < o + LenAt(d, o));
  }

  lemma AbsorbShown(d: seq<Byte>, d1: seq<Byte>, e: seq<Byte>, size: nat, p: nat, o: nat)
    requires RecOk(d, p, size) && RecOk(d, o, size) && p + LenAt(d, p) == o && |e| == |d1| == |d|
    requires LenAt(d1, p) == LenAt(d, p) + LenAt(d, o) && InoAt(d1, p) == InoAt(d, p)
        && NameLenAt(d1, p) == NameLenAt(d, p)
    requires forall i | 0 <= i < |d| && i != p + 4 && i != p + 5 :: d1[i] == d[i]
    requires forall i | 0 <= i < |d| && !(o <= i < o + 4) :: e[i] == d1[i]
    ensures LenAt(e, p) == LenAt(d, p) + LenAt(d, o) && InoAt(e, p) == InoAt(d, p) && NameLenAt(e, p) == NameLenAt(d, p)
    ensures InoAt(d, p) != 0 ==> p + 8 + NameLenAt(d, p) <= |d| && NameAt(e, p) == NameAt(d, p)
    ensures size <= |d| ==> SameBytes(d, e, 0, p) && SameBytes(d, e, o + LenAt(d, o), size)
  {
    if InoAt(d, p) != 0 {
      assert NameAt(e, p) == NameAt(d, p);
    }
  }

  lemma InsertedHas(before: seq<Entry>, after: seq<Entry>, x: Entry)
    requires Inserted(before, after, x) && Distinct(after)
    ensures x.name in AsMap(after)
  {
    var a, b :| before == a + b && after == a + [x] + b;
    assert after[|a|] == x;
    MapHas(after, x.name);
  }

  // No entry with this name lies before position e.
  ghost predicate NotBefore(d: seq<Byte>, e: nat, name: seq<Byte>) {
    Tiled(d, 0, e) && !Named(Entries(d, 0, e), name)
  }

  lemma NothingFirst(d: seq<Byte>, name: seq<Byte>)
    ensures NotBefore(d, 0, name)
  {}

  lemma RoomBelow(name: seq<Byte>)
    requires 1 <= |name|
    ensures RecLenFor(|name|) >= 12
  {}

  // The record at o, and what follows if it is not the one searched for.
  lemma RecordHere(d: seq<Byte>, size: nat, o: nat, b: nat, name: seq<Byte>)
    requires WellFormed(d, size) && NotBefore(d, o, name) && o < b <= size && b % CHUNK == 0
    ensures o + 12 <= |d| && RecOk(d, o, size) && Tiled(d, 0, o)
    ensures 12 <= LenAt(d, o) && o + LenAt(d, o) <= b
    ensures o + 8 + NameLenAt(d, o) <= |d| && !(InoAt(d, o) != 0 && NameAt(d, o) == name) ==>
              NotBefore(d, o + LenAt(d, o), name)
  {
    RecordBefore(d, size, o, b);
    NextRecord(d, size, o);
    RecordFacts(d, o, size);
    NamedJoins(Entries(d, 0, o), EntryAt(d, o, size), name);
    hide Tiled, Entries, WellFormed, LenAt, InoAt, NameAt;
  }

  lemma TailTooShort(d: seq<Byte>, size: nat, o: nat, e: nat, name: seq<Byte>)
    requires WellFormed(d, size) && NotBefore(d, o, name) && o <= e <= size && e % CHUNK == 0
    requires e < o + RecLenFor(|name|)
    ensures NotBefore(d, e, name)
  {
    assert e == (e / CHUNK) * CHUNK;
    TiledSplits(d, 0, o, e);
    TooShort(d, o, e, name);
    NamedJoins(Entries(d, 0, o), Entries(d, o, e), name);
  }

  // The name of a record in use is in the map.
  lemma FoundName(d: seq<Byte>, size: nat, o: nat, name: seq<Byte>)
    requires WellFormed(d, size) && Tiled(d, 0, o) && o < size && RecOk(d, o, size)
    requires InoAt(d, o) != 0 && NameAt(d, o) == name
    requires Tiled(d, 0, size) && Distinct(Entries(d, 0, size))
    ensures name in AsMap(Entries(d, 0, size)) && AsMap(Entries(d, 0, size))[name] == InoAt(d, o)
  {
    hide Tiled, Entries, WellFormed, AsMap, Distinct;
    RecordAt(d, size, o);
    OneRecord(d, o);
    ReplaceRecord(d, d, size, o);
    var a, b := Entries(d, 0, o), Entries(d, o + LenAt(d, o), size);
    var es := Entries(d, 0, size);
    assert es[|a|] == Entry(name, InoAt(d, o));
    MapHas(es, name);
  }

  lemma SizeOf(d: seq<Byte>, size: nat)
    requires WellFormed(d, size)
    ensures size <= |d| && size % CHUNK == 0
  {}

  lemma LenBound(d: seq<Byte>, o: nat)
    requires o + 8 <= |d|
    ensures LenAt(d, o) < 0x1_0000
  {}

  lemma LenSame(d: seq<Byte>, e: seq<Byte>, o: nat)
    requires o + 8 <= |d| == |e| && e[o + 4] == d[o + 4] && e[o + 5] == d[o + 5]
    ensures LenAt(e, o) == LenAt(d, o)
  {}

  lemma CutShown(d: seq<Byte>, e: seq<Byte>, size: nat, o: nat, name: seq<Byte>, ino: nat)
    requires o + 12 <= size && RecOk(d, o, size) && InoAt(d, o) != 0 && |e| == |d|
    requires LenAt(d, o) >= RecLenFor(NameLenAt(d, o)) + RecLenFor(|name|)
    requires var m := o + RecLenFor(NameLenAt(d, o));
             && LenAt(e, o) == m - o && LenAt(e, m) == LenAt(d, o) - (m - o) && InoAt(e, m) == ino
             && NameLenAt(e, m) == |name| && NameAt(e, m) == name
             && forall i | 0 <= i < |d| && i != o + 4 && i != o + 5 && !(m <= i < m + 8 + |name|) :: e[i] == d[i]
    ensures Cut(d, e, size, o, name, ino)
  {
    assert NameAt(e, o) == NameAt(d, o);
  }
}
