/**
  The layout of lkfs directories (lkfs/dir.c, lkfs/lkfs.h): 1024-byte chunks, each filled
  completely by records of variable length.  A record holds an inode number, its own
  length, and a name; inode 0 marks an unused record.
  */
module DirFormat {
  const CHUNK := 1024
  const PAGE := 4096

  type Byte = b: nat | b < 256

  // LKFS_DIR_REC_LEN
  function RecLenFor(nameLen: nat): nat {
    (nameLen + 11) / 4 * 4
  }

  // ---- one record ----

  function LenAt(d: seq<Byte>, o: nat): nat
    requires o + 8 <= |d|
  {
    d[o + 4] as nat + 256 * d[o + 5] as nat
  }

  function InoAt(d: seq<Byte>, o: nat): nat
    requires o + 8 <= |d|
  {
    d[o] as nat + 256 * (d[o + 1] as nat + 256 * (d[o + 2] as nat + 256 * d[o + 3] as nat))
  }

  function NameLenAt(d: seq<Byte>, o: nat): (n: nat)
    requires o + 8 <= |d|
    ensures n < 256
  {
    d[o + 6]
  }

  function NameAt(d: seq<Byte>, o: nat): seq<Byte>
    requires o + 8 <= |d| && o + 8 + NameLenAt(d, o) <= |d|
  {
    d[o + 8..o + 8 + NameLenAt(d, o)]
  }

  // A record at o that ends by `end`; if it is in use, it has room for its name.
  predicate RecOk(d: seq<Byte>, o: nat, end: nat) {
    && o + 12 <= end <= |d|
    && 12 <= LenAt(d, o) && o + LenAt(d, o) <= end && LenAt(d, o) % 4 == 0
    && (InoAt(d, o) != 0 ==> 1 <= NameLenAt(d, o) && RecLenFor(NameLenAt(d, o)) <= LenAt(d, o))
  }

  datatype Entry = Entry(name: seq<Byte>, ino: nat)

  // The entry a record holds, if any.
  function EntryAt(d: seq<Byte>, o: nat, end: nat): seq<Entry>
    requires RecOk(d, o, end)
  {
    if InoAt(d, o) != 0 then [Entry(NameAt(d, o), InoAt(d, o))] else []
  }

  // ---- chains of records ----

  // Records fill the bytes from a to b exactly.
  predicate Tiled(d: seq<Byte>, a: nat, b: nat)
    decreases b - a
  {
    a == b || (RecOk(d, a, b) && Tiled(d, a + LenAt(d, a), b))
  }

  // The entries in them, in order.
  function Entries(d: seq<Byte>, a: nat, b: nat): seq<Entry>
    requires Tiled(d, a, b)
    decreases b - a
  {
    if a == b then [] else EntryAt(d, a, b) + Entries(d, a + LenAt(d, a), b)
  }

  lemma TiledOrdered(d: seq<Byte>, a: nat, b: nat)
    requires Tiled(d, a, b)
    ensures a <= b && (a < b ==> b <= |d|)
  {}

  lemma ConcatEntries(a: seq<Entry>, b: seq<Entry>, c: seq<Entry>)
    ensures (a + b) + c == a + (b + c)
  {}

  lemma {:induction false} TiledJoins(d: seq<Byte>, a: nat, m: nat, b: nat)
    requires Tiled(d, a, m) && Tiled(d, m, b)
    ensures Tiled(d, a, b) && Entries(d, a, b) == Entries(d, a, m) + Entries(d, m, b)
    decreases m - a
  {
    TiledOrdered(d, m, b);
    if a < m {
      TiledOrdered(d, a, m);
      if m < b {
        var next := a + LenAt(d, a);
        TiledJoins(d, next, m, b);
        ConcatEntries(EntryAt(d, a, m), Entries(d, next, m), Entries(d, m, b));
      } else {
        assert Entries(d, a, m) + [] == Entries(d, a, m);
      }
    } else {
      assert [] + Entries(d, m, b) == Entries(d, m, b);
    }
  }

  // Chains from the same place run through the same records.
  lemma {:induction false} TiledSplits(d: seq<Byte>, a: nat, m: nat, b: nat)
    requires Tiled(d, a, m) && Tiled(d, a, b) && m <= b
    ensures Tiled(d, m, b) && Entries(d, a, b) == Entries(d, a, m) + Entries(d, m, b)
    decreases m - a
  {
    TiledOrdered(d, a, m);
    if a < m {
      var next := a + LenAt(d, a);
      TiledSplits(d, next, m, b);
      ConcatEntries(EntryAt(d, a, m), Entries(d, next, m), Entries(d, m, b));
    } else {
      assert [] + Entries(d, m, b) == Entries(d, m, b);
    }
  }

  ghost predicate SameBytes(d: seq<Byte>, e: seq<Byte>, a: nat, b: nat) {
    b <= |d| && b <= |e| && forall i | a <= i < b :: d[i] == e[i]
  }

  lemma RecSame(d: seq<Byte>, e: seq<Byte>, o: nat, end: nat)
    requires RecOk(d, o, end) && SameBytes(d, e, o, end)
    ensures RecOk(e, o, end) && LenAt(e, o) == LenAt(d, o) && EntryAt(e, o, end) == EntryAt(d, o, end)
  {
    if InoAt(d, o) != 0 {
      assert NameAt(e, o) == NameAt(d, o);
    }
  }

  // A chain depends on its own bytes only.
  lemma {:induction false} TiledSame(d: seq<Byte>, e: seq<Byte>, a: nat, b: nat)
    requires Tiled(d, a, b) && (a < b ==> SameBytes(d, e, a, b))
    ensures Tiled(e, a, b) && Entries(e, a, b) == Entries(d, a, b)
    decreases b - a
  {
    if a < b {
      RecSame(d, e, a, b);
      TiledSame(d, e, a + LenAt(d, a), b);
    }
  }

  // One record is a chain.
  lemma OneRecord(d: seq<Byte>, o: nat)
    requires o + 8 <= |d| && RecOk(d, o, o + LenAt(d, o))
    ensures Tiled(d, o, o + LenAt(d, o)) && Entries(d, o, o + LenAt(d, o)) == EntryAt(d, o, o + LenAt(d, o))
  {
    var b := o + LenAt(d, o);
    assert Tiled(d, b, b);
    assert EntryAt(d, o, b) + [] == EntryAt(d, o, b);
  }

  // ---- a whole directory ----

  // Records fill every chunk of the first `size` bytes.
  ghost predicate WellFormed(d: seq<Byte>, size: nat) {
    && size <= |d| && size % CHUNK == 0
    && forall c: nat | c * CHUNK <= size :: Tiled(d, 0, c * CHUNK)
  }

  lemma WholeTiled(d: seq<Byte>, size: nat)
    requires WellFormed(d, size)
    ensures Tiled(d, 0, size)
  {
    assert size == (size / CHUNK) * CHUNK;
  }

  // Replacing whole records in the middle, within a chunk.
  lemma Replace(d: seq<Byte>, e: seq<Byte>, size: nat, s: nat, t: nat)
    requires WellFormed(d, size) && Tiled(d, 0, s) && Tiled(d, s, t) && s < t <= size
    requires forall c: nat :: !(s < c * CHUNK < t)
    requires |e| >= size && SameBytes(d, e, 0, s) && SameBytes(d, e, t, size) && Tiled(e, s, t)
    ensures WellFormed(e, size)
    ensures Tiled(d, 0, size) && Tiled(e, 0, size) && Tiled(d, t, size)
    ensures Entries(d, 0, size) == Entries(d, 0, s) + Entries(d, s, t) + Entries(d, t, size)
    ensures Entries(e, 0, size) == Entries(d, 0, s) + Entries(e, s, t) + Entries(d, t, size)
  {
    WholeTiled(d, size);
    TiledJoins(d, 0, s, t);
    TiledSplits(d, 0, t, size);
    TiledSame(d, e, 0, s);
    TiledJoins(e, 0, s, t);
    forall b: nat | Tiled(d, 0, b) && t <= b <= size ensures Tiled(e, 0, b) {
      TiledSplits(d, 0, t, b);
      TiledSame(d, e, t, b);
      TiledJoins(e, 0, t, b);
    }
    forall c: nat | c * CHUNK <= size ensures Tiled(e, 0, c * CHUNK) {
      if c * CHUNK <= s {
        TiledSame(d, e, 0, c * CHUNK);
      }
    }
    TiledSame(d, e, t, size);
    TiledJoins(e, 0, t, size);
  }

  // A stretch of records begins with one that ends inside it.
  lemma RecordEnds(d: seq<Byte>, a: nat, b: nat)
    requires Tiled(d, a, b) && a != b
    ensures a + 8 <= |d| && RecOk(d, a, b) && RecOk(d, a, a + LenAt(d, a)) && a < a + LenAt(d, a) <= b
  {}

  // The record at a record boundary; it does not reach over the end of a chunk.
  lemma RecordAt(d: seq<Byte>, size: nat, o: nat)
    requires WellFormed(d, size) && Tiled(d, 0, o) && o < size
    ensures RecOk(d, o, size) && Tiled(d, 0, o + LenAt(d, o))
    ensures forall c: nat :: !(o < c * CHUNK < o + LenAt(d, o))
  {
    hide Tiled, Entries, EntryAt, RecOk;
    WholeTiled(d, size);
    TiledSplits(d, 0, o, size);
    RecordEnds(d, o, size);
    var t := o + LenAt(d, o);
    OneRecord(d, o);
    TiledJoins(d, 0, o, t);
    forall c: nat ensures !(o < c * CHUNK < t) {
      if o < c * CHUNK < t {
        TiledSplits(d, 0, o, c * CHUNK);
        RecordEnds(d, o, c * CHUNK);
      }
    }
  }

  // What is known of the record at a boundary before the chunk boundary b.
  lemma RecordBefore(d: seq<Byte>, size: nat, o: nat, b: nat)
    requires WellFormed(d, size) && Tiled(d, 0, o) && o < b <= size && b % CHUNK == 0
    ensures o + 12 <= |d| && RecOk(d, o, size) && Tiled(d, 0, o + LenAt(d, o))
    ensures 12 <= LenAt(d, o) && o + LenAt(d, o) <= b
    ensures InoAt(d, o) != 0 ==> RecLenFor(NameLenAt(d, o)) <= LenAt(d, o)
  {
    RecordAt(d, size, o);
    assert b == (b / CHUNK) * CHUNK;
  }

  // Replacing one record, by one or more.
  lemma ReplaceRecord(d: seq<Byte>, e: seq<Byte>, size: nat, o: nat)
    requires WellFormed(d, size) && Tiled(d, 0, o) && o < size
    requires |e| >= size && SameBytes(d, e, 0, o)
    requires RecOk(d, o, size) && SameBytes(d, e, o + LenAt(d, o), size) && Tiled(e, o, o + LenAt(d, o))
    ensures WellFormed(e, size) && Tiled(d, 0, size) && Tiled(e, 0, size) && Tiled(d, o + LenAt(d, o), size)
    ensures var t := o + LenAt(d, o);
            && Entries(d, 0, size) == Entries(d, 0, o) + EntryAt(d, o, size) + Entries(d, t, size)
            && Entries(e, 0, size) == Entries(d, 0, o) + Entries(e, o, t) + Entries(d, t, size)
  {
    hide Tiled, Entries, WellFormed;
    RecordAt(d, size, o);
    OneRecord(d, o);
    Replace(d, e, size, o, o + LenAt(d, o));
  }

  // A new chunk at the end.
  lemma AddChunk(d: seq<Byte>, e: seq<Byte>, size: nat)
    requires WellFormed(d, size) && |e| >= size + CHUNK && SameBytes(d, e, 0, size) && Tiled(e, size, size + CHUNK)
    ensures WellFormed(e, size + CHUNK) && Tiled(d, 0, size) && Tiled(e, 0, size + CHUNK)
    ensures Entries(e, 0, size + CHUNK) == Entries(d, 0, size) + Entries(e, size, size + CHUNK)
  {
    hide Tiled, Entries;
    WholeTiled(d, size);
    TiledSame(d, e, 0, size);
    TiledJoins(e, 0, size, size + CHUNK);
    forall c: nat | c * CHUNK <= size + CHUNK ensures Tiled(e, 0, c * CHUNK) {
      if c * CHUNK <= size {
        TiledSame(d, e, 0, c * CHUNK);
      } else {
        NextChunk(size, c);
      }
    }
  }

  lemma NextChunk(size: nat, c: nat)
    requires size % CHUNK == 0 && size < c * CHUNK <= size + CHUNK
    ensures c * CHUNK == size + CHUNK
  {}

  // ---- the directory as a map ----

  ghost predicate Named(es: seq<Entry>, name: seq<Byte>) {
    exists i :: 0 <= i < |es| && es[i].name == name
  }

  // No name occurs twice.
  ghost predicate Distinct(es: seq<Entry>) {
    forall i, j | 0 <= i < j < |es| :: es[i].name != es[j].name
  }

  // The map from names to inode numbers.
  ghost function AsMap(es: seq<Entry>): map<seq<Byte>, nat> {
    if es == [] then map[]
    else AsMap(es[..|es| - 1])[es[|es| - 1].name := es[|es| - 1].ino]
  }

  lemma {:induction false} MapHas(es: seq<Entry>, name: seq<Byte>)
    requires Distinct(es)
    ensures name in AsMap(es) <==> Named(es, name)
    ensures forall i | 0 <= i < |es| && es[i].name == name :: name in AsMap(es) && AsMap(es)[name] == es[i].ino
    decreases |es|
  {
    if es != [] {
      var front := es[..|es| - 1];
      MapHas(front, name);
      assert forall i | 0 <= i < |front| :: front[i] == es[i];
      if Named(es, name) && es[|es| - 1].name != name {
        var i :| 0 <= i < |es| && es[i].name == name;
        assert front[i].name == name;
      }
    }
  }

  // The elements of a list with one more in the middle.
  lemma InsertedAt(a: seq<Entry>, x: Entry, b: seq<Entry>)
    ensures var before, after := a + b, a + [x] + b;
            && |after| == |before| + 1 && after[|a|] == x
            && (forall i | 0 <= i < |a| :: after[i] == before[i])
            && (forall i | |a| < i < |after| :: after[i] == before[i - 1])
            && (forall i | |a| <= i < |before| :: after[i + 1] == before[i])
  {}

  lemma InsertDistinct(a: seq<Entry>, x: Entry, b: seq<Entry>)
    requires Distinct(a + b) && !Named(a + b, x.name)
    ensures Distinct(a + [x] + b)
  {
    var before, after := a + b, a + [x] + b;
    InsertedAt(a, x, b);
    assert forall i | 0 <= i < |before| :: before[i].name != x.name;
  }

  lemma InsertNamed(a: seq<Entry>, x: Entry, b: seq<Entry>, n: seq<Byte>)
    ensures Named(a + [x] + b, n) <==> n == x.name || Named(a + b, n)
  {
    var before, after := a + b, a + [x] + b;
    InsertedAt(a, x, b);
    if Named(before, n) {
      var i :| 0 <= i < |before| && before[i].name == n;
      assert after[if i < |a| then i else i + 1].name == n;
    }
    if Named(after, n) && n != x.name {
      var i :| 0 <= i < |after| && after[i].name == n;
      assert before[if i < |a| then i else i - 1].name == n;
    }
  }

  lemma InsertLookup(a: seq<Entry>, x: Entry, b: seq<Entry>, n: seq<Byte>)
    requires Distinct(a + b) && Distinct(a + [x] + b) && !Named(a + b, x.name) && Named(a + [x] + b, n)
    ensures n in AsMap(a + [x] + b)
    ensures n == x.name ==> AsMap(a + [x] + b)[n] == x.ino
    ensures n != x.name ==> n in AsMap(a + b) && AsMap(a + [x] + b)[n] == AsMap(a + b)[n]
  {
    var before, after := a + b, a + [x] + b;
    InsertedAt(a, x, b);
    MapHas(before, n);
    MapHas(after, n);
    hide Distinct, AsMap;
    if n == x.name {
      assert after[|a|].name == n;
    } else {
      var i :| 0 <= i < |after| && after[i].name == n;
      assert before[if i < |a| then i else i - 1].name == n;
    }
  }

  // Inserting an entry under a new name, wherever it goes, extends the map.
  lemma InsertExtends(a: seq<Entry>, x: Entry, b: seq<Entry>)
    requires Distinct(a + b) && !Named(a + b, x.name)
    ensures Distinct(a + [x] + b) && AsMap(a + [x] + b) == AsMap(a + b)[x.name := x.ino]
  {
    InsertDistinct(a, x, b);
    hide Distinct, AsMap, Named;
    var before, after := AsMap(a + b), AsMap(a + [x] + b);
    forall n: seq<Byte> ensures n in after <==> n in before[x.name := x.ino] {
      MapHas(a + b, n);
      MapHas(a + [x] + b, n);
      InsertNamed(a, x, b, n);
    }
    forall n: seq<Byte> | n in after ensures after[n] == before[x.name := x.ino][n] {
      MapHas(a + [x] + b, n);
      InsertLookup(a, x, b, n);
    }
  }

  lemma RemoveDistinct(a: seq<Entry>, x: Entry, b: seq<Entry>)
    requires Distinct(a + [x] + b)
    ensures Distinct(a + b) && !Named(a + b, x.name)
  {
    var before, after := a + [x] + b, a + b;
    InsertedAt(a, x, b);
    forall i | 0 <= i < |after| ensures after[i].name != x.name {
      assert after[i] == before[if i < |a| then i else i + 1];
    }
  }

  // Removing an entry removes its name and no other.
  lemma RemoveShrinks(a: seq<Entry>, x: Entry, b: seq<Entry>)
    requires Distinct(a + [x] + b)
    ensures Distinct(a + b) && !Named(a + b, x.name) && AsMap(a + b) == AsMap(a + [x] + b) - {x.name}
  {
    RemoveDistinct(a, x, b);
    InsertExtends(a, x, b);
    MapHas(a + b, x.name);
  }

  // after is before with x put in somewhere.
  ghost predicate Inserted(before: seq<Entry>, after: seq<Entry>, x: Entry) {
    exists a, b :: before == a + b && after == a + [x] + b
  }

  lemma InsertedMap(before: seq<Entry>, after: seq<Entry>, x: Entry)
    requires Inserted(before, after, x) && Distinct(before) && x.name !in AsMap(before)
    ensures Distinct(after) && AsMap(after) == AsMap(before)[x.name := x.ino]
  {
    var a, b :| before == a + b && after == a + [x] + b;
    MapHas(before, x.name);
    InsertExtends(a, x, b);
  }

  lemma InsertedMapBack(before: seq<Entry>, after: seq<Entry>, x: Entry)
    requires Inserted(before, after, x) && Distinct(after)
    ensures Distinct(before) && x.name !in AsMap(before) && AsMap(before) == AsMap(after) - {x.name}
  {
    var a, b :| before == a + b && after == a + [x] + b;
    RemoveShrinks(a, x, b);
    MapHas(before, x.name);
  }

  // ---- writing records ----

  // From d to e an entry has been written into the record at o, whose length is unchanged.
  ghost predicate EntryWritten(d: seq<Byte>, e: seq<Byte>, o: nat, name: seq<Byte>, ino: nat) {
    && o + 8 + |name| <= |d| == |e| && 1 <= |name| < 256 && ino < 0x1_0000_0000
    && LenAt(e, o) == LenAt(d, o) && NameLenAt(e, o) == |name| && NameAt(e, o) == name && InoAt(e, o) == ino
    && SameBytes(d, e, 0, o) && SameBytes(d, e, o + 8 + |name|, |d|)
  }

  // A record with this entry, filling len bytes.
  lemma Record(e: seq<Byte>, o: nat, len: nat, name: seq<Byte>, ino: nat)
    requires 12 <= len && len % 4 == 0 && o + len <= |e| && 1 <= |name| && RecLenFor(|name|) <= len && ino != 0
    requires LenAt(e, o) == len && InoAt(e, o) == ino && NameLenAt(e, o) == |name| && NameAt(e, o) == name
    ensures Tiled(e, o, o + len) && Entries(e, o, o + len) == [Entry(name, ino)]
  {
    OneRecord(e, o);
  }

  lemma RecordFacts(d: seq<Byte>, o: nat, end: nat)
    requires RecOk(d, o, end)
    ensures o + 12 <= |d| && 12 <= LenAt(d, o) && o + LenAt(d, o) <= end && LenAt(d, o) % 4 == 0
    ensures InoAt(d, o) == 0 ==> EntryAt(d, o, end) == []
    ensures InoAt(d, o) != 0 ==>
              && 1 <= NameLenAt(d, o) && RecLenFor(NameLenAt(d, o)) <= LenAt(d, o)
              && EntryAt(d, o, end) == [Entry(NameAt(d, o), InoAt(d, o))] && |NameAt(d, o)| == NameLenAt(d, o)
  {}

  lemma RecLenBounds(n: nat)
    requires n >= 1
    ensures 12 <= RecLenFor(n) && n + 8 <= RecLenFor(n) && RecLenFor(n) % 4 == 0 && (n < 256 ==> RecLenFor(n) <= 264)
    ensures RecLenFor(n) < n + 12   // so no smaller multiple of four would do
  {}

  // Using a record that is not in use.
  lemma FillUnused(d: seq<Byte>, e: seq<Byte>, size: nat, o: nat, name: seq<Byte>, ino: nat)
    requires WellFormed(d, size) && Tiled(d, 0, o) && o < size && RecOk(d, o, size) && InoAt(d, o) == 0
    requires EntryWritten(d, e, o, name, ino) && ino != 0 && RecLenFor(|name|) <= LenAt(d, o)
    ensures WellFormed(e, size) && Tiled(d, 0, size) && Tiled(e, 0, size)
    ensures Inserted(Entries(d, 0, size), Entries(e, 0, size), Entry(name, ino))
  {
    hide Tiled, Entries, RecOk, EntryAt, LenAt, InoAt, NameLenAt, NameAt, RecLenFor;
    RecordFacts(d, o, size);
    RecLenBounds(|name|);
    var t := o + LenAt(d, o);
    Record(e, o, LenAt(d, o), name, ino);
    ReplaceRecord(d, e, size, o);
    var a, b := Entries(d, 0, o), Entries(d, t, size);
    assert a + [] + b == a + b;
  }

  // From d to e the record at o has been cut down to what its entry needs, and the rest has
  // become a record with the new entry.
  ghost predicate Cut(d: seq<Byte>, e: seq<Byte>, size: nat, o: nat, name: seq<Byte>, ino: nat)
    requires o + 12 <= size && RecOk(d, o, size)
  {
    var used := RecLenFor(NameLenAt(d, o));
    && |e| == |d| && o + used + 8 + |name| <= |d|
    && LenAt(e, o) == used && InoAt(e, o) == InoAt(d, o) && NameLenAt(e, o) == NameLenAt(d, o)
    && o + 8 + NameLenAt(d, o) <= |d| && NameAt(e, o) == NameAt(d, o)
    && LenAt(e, o + used) == LenAt(d, o) - used && InoAt(e, o + used) == ino
    && NameLenAt(e, o + used) == |name| && NameAt(e, o + used) == name
    && SameBytes(d, e, 0, o) && SameBytes(d, e, o + LenAt(d, o), size)
  }

  // Splitting a record in use: its tail becomes a record of its own.
  lemma SplitRecord(d: seq<Byte>, e: seq<Byte>, size: nat, o: nat, name: seq<Byte>, ino: nat)
    requires WellFormed(d, size) && Tiled(d, 0, o) && o < size && RecOk(d, o, size) && InoAt(d, o) != 0
    requires 1 <= |name| && RecLenFor(NameLenAt(d, o)) + RecLenFor(|name|) <= LenAt(d, o)
    requires ino != 0 && o + 12 <= size && Cut(d, e, size, o, name, ino)
    ensures WellFormed(e, size) && Tiled(d, 0, size) && Tiled(e, 0, size)
    ensures Inserted(Entries(d, 0, size), Entries(e, 0, size), Entry(name, ino))
  {
    hide Tiled, Entries, RecOk, EntryAt, LenAt, InoAt, NameLenAt, NameAt, RecLenFor;
    RecordFacts(d, o, size);
    RecLenBounds(|name|);
    RecLenBounds(NameLenAt(d, o));
    var used := RecLenFor(NameLenAt(d, o));
    var t, m := o + LenAt(d, o), o + used;
    Record(e, o, used, NameAt(d, o), InoAt(d, o));
    Record(e, m, LenAt(d, o) - used, name, ino);
    TiledJoins(e, o, m, t);
    ReplaceRecord(d, e, size, o);
    var a, x, b := Entries(d, 0, o) + EntryAt(d, o, size), [Entry(name, ino)], Entries(d, t, size);
    assert Entries(d, 0, o) + (EntryAt(d, o, size) + x) + b == a + x + b;
  }

  // Starting a new chunk with one record.
  lemma FillNewChunk(d: seq<Byte>, e: seq<Byte>, size: nat, name: seq<Byte>, ino: nat)
    requires WellFormed(d, size) && |e| == |d| >= size + CHUNK && SameBytes(d, e, 0, size)
    requires LenAt(e, size) == CHUNK && InoAt(e, size) == ino != 0 && NameLenAt(e, size) == |name|
        && NameAt(e, size) == name
    requires 1 <= |name| < 256
    ensures WellFormed(e, size + CHUNK) && Tiled(d, 0, size) && Tiled(e, 0, size + CHUNK)
    ensures Inserted(Entries(d, 0, size), Entries(e, 0, size + CHUNK), Entry(name, ino))
  {
    hide Tiled, Entries, RecOk, EntryAt, LenAt, InoAt, NameLenAt, NameAt, RecLenFor;
    RecLenBounds(|name|);
    Record(e, size, CHUNK, name, ino);
    AddChunk(d, e, size);
    var a := Entries(d, 0, size);
    assert a + [] == a && a + [Entry(name, ino)] + [] == a + [Entry(name, ino)];
  }

  // ---- searching ----

  lemma NamedJoins(a: seq<Entry>, b: seq<Entry>, name: seq<Byte>)
    ensures Named(a + b, name) <==> Named(a, name) || Named(b, name)
  {
    if Named(a, name) {
      var i :| 0 <= i < |a| && a[i].name == name;
      assert (a + b)[i].name == name;
    }
    if Named(b, name) {
      var i :| 0 <= i < |b| && b[i].name == name;
      assert (a + b)[|a| + i].name == name;
    }
  }

  // A stretch too short for a name does not hold it.
  lemma {:induction false} TooShort(d: seq<Byte>, a: nat, b: nat, name: seq<Byte>)
    requires Tiled(d, a, b) && b < a + RecLenFor(|name|)
    ensures !Named(Entries(d, a, b), name)
    decreases b - a
  {
    if a < b {
      TooShort(d, a + LenAt(d, a), b, name);
      NamedJoins(EntryAt(d, a, b), Entries(d, a + LenAt(d, a), b), name);
      RecordFacts(d, a, b);
    }
  }

  // One record further.
  lemma NextRecord(d: seq<Byte>, size: nat, o: nat)
    requires WellFormed(d, size) && Tiled(d, 0, o) && o < size
    ensures RecOk(d, o, size) && Tiled(d, 0, o + LenAt(d, o))
    ensures Entries(d, 0, o + LenAt(d, o)) == Entries(d, 0, o) + EntryAt(d, o, size)
  {
    RecordAt(d, size, o);
    OneRecord(d, o);
    TiledJoins(d, 0, o, o + LenAt(d, o));
  }

  // ---- removing records ----

  // The record in use at o is marked unused.
  lemma Unuse(d: seq<Byte>, e: seq<Byte>, size: nat, o: nat)
    requires WellFormed(d, size) && Tiled(d, 0, o) && o < size && RecOk(d, o, size) && InoAt(d, o) != 0
    requires |e| == |d| && InoAt(e, o) == 0 && LenAt(e, o) == LenAt(d, o)
    requires SameBytes(d, e, 0, o) && SameBytes(d, e, o + LenAt(d, o), size)
    ensures WellFormed(e, size) && Tiled(d, 0, size) && Tiled(e, 0, size)
    ensures o + 8 + NameLenAt(d, o) <= |d|
    ensures Inserted(Entries(e, 0, size), Entries(d, 0, size), Entry(NameAt(d, o), InoAt(d, o)))
  {
    hide Tiled, Entries, RecOk, EntryAt, LenAt, InoAt, NameLenAt, NameAt, RecLenFor, WellFormed;
    RecordFacts(d, o, size);
    RecLenBounds(NameLenAt(d, o));
    WithinSize(d, size);
    UnusedRecord(e, o, LenAt(d, o));
    ReplaceRecord(d, e, size, o);
    var a, b := Entries(d, 0, o), Entries(d, o + LenAt(d, o), size);
    assert a + [] + b == a + b;
  }

  lemma WithinSize(d: seq<Byte>, size: nat)
    requires WellFormed(d, size)
    ensures size <= |d|
  {}

  lemma UnusedRecord(e: seq<Byte>, o: nat, len: nat)
    requires 12 <= len && len % 4 == 0 && o + len <= |e| && LenAt(e, o) == len && InoAt(e, o) == 0
    ensures Tiled(e, o, o + len) && Entries(e, o, o + len) == []
  {
    OneRecord(e, o);
  }

  // The record before it, in the same chunk, takes over the bytes of the record at o.
  lemma Absorb(d: seq<Byte>, e: seq<Byte>, size: nat, p: nat, o: nat)
    requires WellFormed(d, size) && Tiled(d, 0, p) && p < o < size && RecOk(d, p, size) && p + LenAt(d, p) == o
    requires RecOk(d, o, size) && InoAt(d, o) != 0 && p / CHUNK == o / CHUNK
    requires |e| == |d| && LenAt(e, p) == LenAt(d, p) + LenAt(d, o) && InoAt(e, p) == InoAt(d, p)
        && NameLenAt(e, p) == NameLenAt(d, p)
    requires InoAt(d, p) != 0 ==> p + 8 + NameLenAt(d, p) <= |d| && NameAt(e, p) == NameAt(d, p)
    requires SameBytes(d, e, 0, p) && SameBytes(d, e, o + LenAt(d, o), size)
    ensures WellFormed(e, size) && Tiled(d, 0, size) && Tiled(e, 0, size)
    ensures o + 8 + NameLenAt(d, o) <= |d|
    ensures Inserted(Entries(e, 0, size), Entries(d, 0, size), Entry(NameAt(d, o), InoAt(d, o)))
  {
    hide Tiled, Entries, RecOk, EntryAt, LenAt, InoAt, NameLenAt, NameAt, RecLenFor, WellFormed, Inserted;
    RecordAt(d, size, p);
    RecordAt(d, size, o);
    RecordFacts(d, p, size);
    RecordFacts(d, o, size);
    RecLenBounds(NameLenAt(d, o));
    WithinSize(d, size);
    var t := o + LenAt(d, o);
    OneRecordHidden(d, p, size);
    OneRecordHidden(d, o, size);
    TiledJoins(d, p, o, t);
    Enlarged(d, e, p, size, t - p);
    WithinChunk(p, o, t);
    Replace(d, e, size, p, t);
    InsertedBetween(Entries(d, 0, p), EntryAt(d, p, size), Entry(NameAt(d, o), InoAt(d, o)), Entries(d, t, size));
  }

  lemma InsertedBetween(a: seq<Entry>, x: seq<Entry>, y: Entry, b: seq<Entry>)
    ensures Inserted(a + x + b, a + (x + [y]) + b, y)
  {
    assert a + (x + [y]) + b == (a + x) + [y] + b;
  }

  lemma OneRecordHidden(d: seq<Byte>, o: nat, size: nat)
    requires RecOk(d, o, size)
    ensures o + 8 <= |d| && Tiled(d, o, o + LenAt(d, o)) && Entries(d, o, o + LenAt(d, o)) == EntryAt(d, o, size)
  {
    OneRecord(d, o);
  }

  // The same record with more room.
  lemma Enlarged(d: seq<Byte>, e: seq<Byte>, p: nat, size: nat, len: nat)
    requires RecOk(d, p, size) && LenAt(d, p) <= len && len % 4 == 0 && p + len <= |e| && |e| == |d|
    requires LenAt(e, p) == len && InoAt(e, p) == InoAt(d, p) && NameLenAt(e, p) == NameLenAt(d, p)
    requires InoAt(d, p) != 0 ==> p + 8 + NameLenAt(d, p) <= |d| && NameAt(e, p) == NameAt(d, p)
    ensures Tiled(e, p, p + len) && Entries(e, p, p + len) == EntryAt(d, p, size)
  {
    OneRecord(e, p);
  }

  lemma WithinChunk(p: nat, o: nat, t: nat)
    requires p < o < t && p / CHUNK == o / CHUNK
    requires forall c: nat :: !(p < c * CHUNK < o)
    requires forall c: nat :: !(o < c * CHUNK < t)
    ensures forall c: nat :: !(p < c * CHUNK < t)
  {}
}
