/**
  Block allocation of lkfs (lkfs/inode.c): the block bitmaps, the free-block counter and the
  allocation of file blocks through lkfs_get_blocks.  A block of the disk is modelled by its
  256 words; reading and writing buffers is array access.
  */
module Lkfs {
  import opened BlockMap

  const BLOCKS_PER_BITMAP := 8192

  // ---- one allocation step after another ----

  // Blocks in which the tree of v keeps pointers.
  ghost predicate TreeBlock(v: View, b: int)
    requires |v.ptrs| == NPTRS
  {
    b != 0 && (b == v.Ptr(Ind) || b == v.Ptr(Dind) || exists i | 0 <= i < WORDS :: b == v.Ptr(DindEntry(i)))
  }

  // From v to w some empty slots of `path` were given new blocks, and nothing else changed, save
  // perhaps block 0, to which no pointer leads.
  ghost predicate Grown(v: View, used: set<nat>, w: View, used': set<nat>, path: set<Slot>) {
    && v.Sound(used) && w.Sound(used') && used <= used' && |w.disk| == |v.disk|
    && (forall t: Slot | t.Legal() && (t !in path || v.Ptr(t) != 0) :: w.Ptr(t) == v.Ptr(t))
    && (forall t: Slot | t.Legal() && v.Ptr(t) == 0 && w.Ptr(t) != 0 :: w.Ptr(t) !in used)
    && (forall b | b in used' && b !in used :: PointedTo(w, b))
    && (forall b | 0 < b < |v.disk| && b in used && !TreeBlock(v, b) :: w.disk[b] == v.disk[b])
  }

  lemma GrownRefl(v: View, used: set<nat>, path: set<Slot>)
    requires v.Sound(used)
    ensures Grown(v, used, v, used, path)
  {}

  lemma GrownCompose(v: View, used: set<nat>, w: View, used': set<nat>, x: View, used'': set<nat>, path: set<Slot>)
    requires Grown(v, used, w, used', path) && Grown(w, used', x, used'', path)
    ensures Grown(v, used, x, used'', path)
  {
    hide View.Ptr;
    forall b | 0 < b < |v.disk| && b in used && !TreeBlock(v, b) ensures x.disk[b] == v.disk[b] {
      NotNewTree(v, used, w, used', path, b);
    }
  }

  lemma NotNewTree(v: View, used: set<nat>, w: View, used': set<nat>, path: set<Slot>, b: nat)
    requires Grown(v, used, w, used', path) && b in used && !TreeBlock(v, b)
    ensures !TreeBlock(w, b)
  {
    hide View.Ptr;
    assert Ind.Legal() && Dind.Legal();
    forall i | 0 <= i < WORDS ensures b == 0 || b != w.Ptr(DindEntry(i)) {
      assert DindEntry(i).Legal();
    }
  }

  // A pointer in use leads into the disk.
  lemma PointsInside(v: View, used: set<nat>, s: Slot)
    requires v.Sound(used) && s.Legal()
    ensures |v.ptrs| == NPTRS && (v.Ptr(s) != 0 ==> 0 < v.Ptr(s) < |v.disk|)
  {}

  lemma GrownSound(v: View, used: set<nat>, w: View, used': set<nat>, path: set<Slot>, s: Slot)
    requires Grown(v, used, w, used', path) && s.Legal()
    ensures w.Sound(used') && |v.ptrs| == |w.ptrs| == NPTRS && (v.Ptr(s) != 0 ==> w.Ptr(s) == v.Ptr(s))
  {}

  // One block attached.
  lemma GrownStep(v: View, used: set<nat>, w: View, s: Slot, b: nat, path: set<Slot>)
    requires v.Sound(used) && s.Legal() && s in path && w.Extends(v, s, b) && 0 < b < |v.disk| && b !in used
    requires forall c | 0 < c < |v.disk| && c in used && !TreeBlock(v, c) :: w.disk[c] == v.disk[c]
    ensures Grown(v, used, w, used + {b}, path)
  {
    ExtendSound(v, w, s, b, used);
    hide View.Ptr;
  }

  lemma GrownIndirect(v: View, used: set<nat>, k: nat, b: nat, path: set<Slot>)
    requires v.Sound(used) && (k == IND || k == DIND) && v.ptrs[k] == 0 && 0 < b < |v.disk| && b !in used
    requires (if k == IND then Ind else Dind) in path
    ensures Grown(v, used, View(v.ptrs[k := b], v.disk[b := Zeros()]), used + {b}, path)
  {
    hide View.Ptr, Zeros, TreeBlock;
    AttachIndirect(v, k, b, used);
    GrownStep(v, used, View(v.ptrs[k := b], v.disk[b := Zeros()]), if k == IND then Ind else Dind, b, path);
  }

  // The slots on the way to file block n.
  function Path(n: nat): set<Slot>
    requires n < MAX_BLOCKS
  {
    match SlotOf(n)
    case IndEntry(i) => {Ind, IndEntry(i)}
    case Leaf(i, j) => {Dind, DindEntry(i), Leaf(i, j)}
    case s => {s}
  }

  function IsZero(p: int): nat {
    if p == 0 then 1 else 0
  }

  // How many pointer blocks an allocation of file block n takes.
  function MissingPointers(v: View, n: nat): nat
    requires |v.ptrs| == NPTRS && n < MAX_BLOCKS
  {
    match SlotOf(n)
    case IndEntry(_) => IsZero(v.Ptr(Ind))
    case Leaf(i, _) => IsZero(v.Ptr(Dind)) + IsZero(v.Ptr(DindEntry(i)))
    case _ => 0
  }

  // How many blocks it takes in all.
  function Missing(v: View, n: nat): nat
    requires |v.ptrs| == NPTRS && n < MAX_BLOCKS
  {
    MissingPointers(v, n) + IsZero(v.Ptr(SlotOf(n)))
  }

  function Min(a: nat, b: nat): nat {
    if a < b then a else b
  }

  // The mappings of all other file blocks are untouched.
  lemma OtherMappings(v: View, used: set<nat>, w: View, used': set<nat>, n: nat, m: nat)
    requires n < MAX_BLOCKS && m < MAX_BLOCKS && m != n && Grown(v, used, w, used', Path(n))
    ensures w.Ptr(SlotOf(m)) == v.Ptr(SlotOf(m))
  {
    if SlotOf(m) in Path(n) {
      SlotOfInjective(m, n);
    }
    hide View.Ptr;
  }

  // So is every pointer of any other file.
  lemma OtherFiles(v: View, used: set<nat>, w: View, used': set<nat>, path: set<Slot>, other: View, t: Slot)
    requires Grown(v, used, w, used', path) && other.disk == v.disk && other.Sound(used) && t.Legal()
    requires forall s: Slot, u: Slot | s.Legal() && u.Legal() && v.Ptr(s) != 0 :: other.Ptr(u) != v.Ptr(s)
    ensures View(other.ptrs, w.disk).Ptr(t) == other.Ptr(t)
  {
    assert Ind.Legal() && Dind.Legal() && forall i | 0 <= i < WORDS :: DindEntry(i).Legal();
    forall u: Slot | u.Legal() && other.Ptr(u) != 0 ensures w.disk[other.Ptr(u)] == v.disk[other.Ptr(u)] {
      NotInTree(v, other.Ptr(u));
    }
    match t
    case Leaf(i, _) => assert other.Ptr(DindEntry(i)) == other.Word(other.ptrs[DIND], i)
      && other.Ptr(Dind) == other.ptrs[DIND];
    case IndEntry(_) => assert other.Ptr(Ind) == other.ptrs[IND];
    case DindEntry(_) => assert other.Ptr(Dind) == other.ptrs[DIND];
    case _ =>
  }

  lemma NotInTree(v: View, b: int)
    requires |v.ptrs| == NPTRS && forall s: Slot | s.Legal() && v.Ptr(s) != 0 :: v.Ptr(s) != b
    ensures !TreeBlock(v, b)
  {
    hide View.Ptr;
    assert Ind.Legal() && Dind.Legal() && forall i | 0 <= i < WORDS :: DindEntry(i).Legal();
  }

  // Allocating the next file block of a file without holes leaves a file without holes.
  lemma DenseGrows(v: View, used: set<nat>, w: View, used': set<nat>, n: nat)
    requires n < MAX_BLOCKS && Dense(v, n) && Grown(v, used, w, used', Path(n)) && w.Ptr(SlotOf(n)) != 0
    ensures Dense(w, n + 1)
  {
    forall s: Slot | s.Legal() ensures w.Ptr(s) != 0 <==> Needed(s, n + 1) {
      if s in Path(n) {
        PathFilled(w, n, s);
      } else {
        NeededNext(s, n);
      }
    }
  }

  lemma PathFilled(w: View, n: nat, s: Slot)
    requires |w.ptrs| == NPTRS && n < MAX_BLOCKS && w.Ptr(SlotOf(n)) != 0 && s in Path(n)
    ensures s.Legal() && w.Ptr(s) != 0 && Needed(s, n + 1)
  {}

  lemma NeededNext(s: Slot, n: nat)
    requires n < MAX_BLOCKS && s.Legal() && s !in Path(n)
    ensures Needed(s, n + 1) == Needed(s, n)
  {}

  // All blocks used beyond used0 belong to the file, and no others do.
  ghost predicate NewOnly(v: View, used0: set<nat>, used: set<nat>)
    requires |v.ptrs| == NPTRS
  {
    && used0 <= used
    && (forall t: Slot | t.Legal() && v.Ptr(t) != 0 :: v.Ptr(t) !in used0)
    && (forall b | b in used && b !in used0 :: PointedTo(v, b))
  }

  lemma StartsNew(v: View, used: set<nat>)
    requires Dense(v, 0)
    ensures NewOnly(v, used, used)
  {
    hide View.Ptr;
  }

  lemma StaysNew(v: View, used: set<nat>, w: View, used': set<nat>, path: set<Slot>, used0: set<nat>)
    requires Grown(v, used, w, used', path) && NewOnly(v, used0, used)
    ensures NewOnly(w, used0, used') && used0 <= used'
  {
    hide View.Ptr;
  }

  lemma NewOnlyOwned(v: View, used0: set<nat>, used: set<nat>)
    requires v.Sound(used) && NewOnly(v, used0, used)
    ensures used == used0 + Owned(v, used) && Owned(v, used) !! used0
  {
    hide View.Ptr;
  }

  // Clearing block 0 changes no pointer.
  lemma BootPointers(v: View, s: Slot)
    requires |v.ptrs| == NPTRS && s.Legal() && |v.disk| > 0
    ensures View(v.ptrs, v.disk[0 := Zeros()]).Ptr(s) == v.Ptr(s)
  {
    hide Zeros;
    var w := View(v.ptrs, v.disk[0 := Zeros()]);
    assert forall p: int, i: nat | i < WORDS :: w.Word(p, i) == v.Word(p, i);
  }

  lemma BootCleared(v: View, used: set<nat>, path: set<Slot>)
    requires v.Sound(used) && |v.disk| > 0
    ensures var w := View(v.ptrs, v.disk[0 := Zeros()]);
            Grown(v, used, w, used, path) && forall s: Slot | s.Legal() :: w.Ptr(s) == v.Ptr(s)
  {
    hide View.Ptr, Zeros;
    var w := View(v.ptrs, v.disk[0 := Zeros()]);
    forall s: Slot | s.Legal() ensures w.Ptr(s) == v.Ptr(s) {
      BootPointers(v, s);
    }
  }

  // Blocks, with pointer blocks, of a file of n blocks without holes.
  function BlocksFor(n: nat): nat {
    n + (if n > NDIR then 1 else 0) + if n > NDIR + WORDS then 1 + (n - NDIR - WORDS + WORDS - 1) / WORDS else 0
  }

  lemma MissingNext(v: View, n: nat)
    requires n < MAX_BLOCKS && Dense(v, n)
    ensures BlocksFor(n + 1) == BlocksFor(n) + Missing(v, n)
  {
    var t := SlotOf(n);
    assert t.Legal() && Ind.Legal() && Dind.Legal();
    if t.Leaf? {
      assert DindEntry(t.i).Legal() && n == NDIR + WORDS + WORDS * t.i + t.j;
    }
  }

  // When n blocks of a new file have been asked for, those are mapped for which, and for all
  // before them, there was room.
  ghost predicate Mapped(v: View, n: nat, room: nat) {
    && |v.ptrs| == NPTRS && n <= MAX_BLOCKS
    && (forall k | 0 <= k < n :: v.Ptr(SlotOf(k)) != 0 <==> BlocksFor(k + 1) <= room)
    && (forall k | n <= k < MAX_BLOCKS :: v.Ptr(SlotOf(k)) == 0)
  }

  lemma NothingMapped(v: View, room: nat)
    requires Dense(v, 0)
    ensures Mapped(v, 0, room) && BlocksFor(0) == 0
  {
    hide View.Ptr;
    forall k | 0 <= k < MAX_BLOCKS ensures v.Ptr(SlotOf(k)) == 0 {
      assert !Needed(SlotOf(k), 0);
    }
  }

  // The next block can be had exactly if there is room for the file so far.
  lemma NextMissing(v: View, n: nat, room: nat)
    requires Mapped(v, n, room) && n < MAX_BLOCKS && (BlocksFor(n) <= room ==> Dense(v, n))
    ensures BlocksFor(n) < BlocksFor(n + 1)
    ensures Missing(v, n) >= 1 && MissingPointers(v, n) < Missing(v, n)
    ensures BlocksFor(n) <= room ==> BlocksFor(n + 1) == BlocksFor(n) + Missing(v, n)
  {
    if BlocksFor(n) <= room {
      MissingNext(v, n);
    }
  }

  lemma MappedStep(v: View, used: set<nat>, w: View, used': set<nat>, n: nat, room: nat)
    requires Mapped(v, n, room) && n < MAX_BLOCKS && Grown(v, used, w, used', Path(n))
    requires |w.ptrs| == NPTRS && (w.Ptr(SlotOf(n)) != 0 <==> BlocksFor(n + 1) <= room)
    ensures Mapped(w, n + 1, room)
  {
    hide BlocksFor, View.Ptr, Grown, SlotOf, Path;
    forall k | 0 <= k < MAX_BLOCKS && k != n ensures w.Ptr(SlotOf(k)) == v.Ptr(SlotOf(k)) {
      OtherMappings(v, used, w, used', n, k);
    }
  }

  // No pointer block is missing on the way to the first n blocks.
  ghost predicate PointersThere(v: View, n: nat) {
    |v.ptrs| == NPTRS && n <= MAX_BLOCKS && forall k | 0 <= k < n :: MissingPointers(v, k) == 0
  }

  // Nothing is there but what the first n blocks need.
  ghost predicate OnlyNeeded(v: View, n: nat) {
    |v.ptrs| == NPTRS && forall s: Slot | s.Legal() && v.Ptr(s) != 0 :: Needed(s, n)
  }

  lemma NothingNeeded(v: View)
    requires Dense(v, 0)
    ensures OnlyNeeded(v, 0) && PointersThere(v, 0)
  {
    hide View.Ptr;
  }

  lemma NeededStep(v: View, used: set<nat>, w: View, used': set<nat>, n: nat)
    requires n < MAX_BLOCKS && Grown(v, used, w, used', Path(n)) && OnlyNeeded(v, n)
    ensures OnlyNeeded(w, n + 1)
  {
    hide View.Ptr;
    forall s: Slot | s.Legal() && w.Ptr(s) != 0 ensures Needed(s, n + 1) {
      if s !in Path(n) {
        assert v.Ptr(s) != 0;
      }
    }
  }

  lemma PointersStep(v: View, used: set<nat>, w: View, used': set<nat>, n: nat)
    requires n < MAX_BLOCKS && Grown(v, used, w, used', Path(n)) && PointersThere(v, n)
    ensures |w.ptrs| == NPTRS && (MissingPointers(w, n) == 0 ==> PointersThere(w, n + 1))
  {
    forall k | 0 <= k < n ensures MissingPointers(w, k) == 0 {
      StillThere(v, used, w, used', Path(n), k);
    }
    hide MissingPointers;
  }

  lemma StillThere(v: View, used: set<nat>, w: View, used': set<nat>, path: set<Slot>, k: nat)
    requires k < MAX_BLOCKS && Grown(v, used, w, used', path) && MissingPointers(v, k) == 0
    ensures |w.ptrs| == NPTRS && MissingPointers(w, k) == 0
  {
    hide View.Ptr;
    assert Ind.Legal() && Dind.Legal();
    if SlotOf(k).Leaf? {
      assert DindEntry(SlotOf(k).i).Legal();
    }
  }

  // Every pointer block is on the way to some block.
  lemma PointersNeeded(v: View, n: nat, s: Slot)
    requires PointersThere(v, n) && s.Legal() && (s.Ind? || s.Dind? || s.DindEntry?) && Needed(s, n)
    ensures v.Ptr(s) != 0
  {
    var k := match s case Ind => NDIR case DindEntry(i) => NDIR + WORDS + WORDS * i case _ => NDIR + WORDS;
    assert MissingPointers(v, k) == 0;
    hide View.Ptr;
  }

  lemma EachMapped(v: View, n: nat, room: nat)
    requires Mapped(v, n, room)
    ensures forall k | 0 <= k < n :: v.Ptr(SlotOf(k)) != 0 <==> BlocksFor(k + 1) <= room
  {
    hide BlocksFor, View.Ptr;
  }

  // Numbers of blocks: used, free, taken for free by first fit, and the counter of free blocks;
  // whether first fit takes the number after the last block for free.
  datatype Tally = Tally(used: nat, free: nat, room: nat, past: bool, count: int) {
    // Of the blocks wanted as many have been taken as were available.
    predicate Took(want: nat, before: Tally) {
      && used == before.used + Min(want, before.room) && room == before.room - Min(want, before.room)
      && free == before.free - Min(want, before.free) && count + used == before.count + before.used
      && (past ==> before.past)
    }
  }

  // Taking m more blocks, when there was room for a file of `a` blocks before.
  lemma TookNext(t: Tally, u: Tally, w: Tally, a: nat, m: nat, b: nat)
    requires u.Took(a, t) && w.Took(m, u) && t.free <= t.room
    requires a < b && m >= 1 && (a <= t.room ==> b == a + m)
    ensures w.Took(b, t)
  {}

  lemma {:induction false} SubsetSize(a: set<nat>, b: set<nat>)
    requires a <= b
    ensures |a| <= |b|
    decreases a
  {
    if a != {} {
      var x :| x in a;
      SubsetSize(a - {x}, b - {x});
    }
  }

  lemma BlocksForGrows(m: nat, n: nat)
    requires m <= n
    ensures BlocksFor(m) <= BlocksFor(n)
  {}

  class FileSystem {
    const bitmapCount: nat                // s_block_bitmap_count
    const blocksCount: nat                // s_blocks_count
    const bitmaps: array2<bool>           // s_sbb[]: bit set means block in use
    const disk: array<Block>
    var freeBlocks: int                   // s_free_blocks_count

    ghost predicate Shape() {
      && bitmaps.Length0 == bitmapCount && bitmaps.Length1 == BLOCKS_PER_BITMAP
      && blocksCount <= bitmapCount * BLOCKS_PER_BITMAP && blocksCount <= disk.Length && 0 < disk.Length
    }

    ghost predicate Valid()
      reads this, bitmaps
    {
      Shape() && 0 in Used()
    }

    ghost function Used(): set<nat>
      requires bitmaps.Length0 == bitmapCount && bitmaps.Length1 == BLOCKS_PER_BITMAP
      reads this, bitmaps
    {
      set b: nat | b < bitmapCount * BLOCKS_PER_BITMAP && bitmaps[b / BLOCKS_PER_BITMAP, b % BLOCKS_PER_BITMAP]
    }

    ghost function Free(): set<nat>
      requires bitmaps.Length0 == bitmapCount && bitmaps.Length1 == BLOCKS_PER_BITMAP
      reads this, bitmaps
    {
      set b: nat | b < blocksCount && b !in Used()
    }

    // What first fit takes for free: the free blocks and, since the bound is tested with >, the
    // number after the last block if its bit exists and is clear.
    ghost function Room(): set<nat>
      requires bitmaps.Length0 == bitmapCount && bitmaps.Length1 == BLOCKS_PER_BITMAP
      reads this, bitmaps
    {
      set b: nat | b <= blocksCount && b < bitmapCount * BLOCKS_PER_BITMAP && b !in Used()
    }

    ghost function Count(): Tally
      requires bitmaps.Length0 == bitmapCount && bitmaps.Length1 == BLOCKS_PER_BITMAP
      reads this, bitmaps
    {
      Tally(|Used()|, |Free()|, |Room()|, blocksCount in Room(), freeBlocks)
    }

    lemma FreeInRoom()
      requires Shape()
      ensures Free() <= Room() && Count().free <= Count().room
    {
      SubsetSize(Free(), Room());
    }

    // Whatever number the next `want` allocations give, the device has that block.
    ghost predicate Backed(want: nat)
      requires Shape()
      reads this, bitmaps
    {
      Count().free >= want || !Count().past || blocksCount < disk.Length
    }

    // The pointers of an inode and the disk they lead into.
    ghost function Now(ino: array<int>): View
      reads ino, disk
    {
      View(ino[..], disk[..])
    }

    // generic_find_next_zero_le_bit from bit 0 of one bitmap
    method FindZero(i: nat) returns (nr: nat)
      requires i < bitmapCount == bitmaps.Length0 && bitmaps.Length1 == BLOCKS_PER_BITMAP
      ensures nr <= BLOCKS_PER_BITMAP && forall k | 0 <= k < nr :: bitmaps[i, k]
      ensures nr < BLOCKS_PER_BITMAP ==> !bitmaps[i, nr]
    {
      nr := 0;
      while nr < BLOCKS_PER_BITMAP && bitmaps[i, nr]
        invariant nr <= BLOCKS_PER_BITMAP && forall k | 0 <= k < nr :: bitmaps[i, k]
      {
        nr := nr + 1;
      }
    }

    // lkfs_new_blocks: first fit.  The number 0 says that there is no room; on a full disk the
    // number after the last block is given out.
    method NewBlock() returns (b: nat)
      requires Valid()
      modifies bitmaps, this`freeBlocks
      ensures Valid()
      ensures b == 0 ==> Used() == old(Used()) && freeBlocks == old(freeBlocks)
      ensures b == 0 <==> old(Room()) == {}
      ensures b != 0 ==> b in old(Room()) && (b == blocksCount <==> old(Free()) == {})
      ensures b != 0 ==> b !in old(Used()) && Used() == old(Used()) + {b} && freeBlocks == old(freeBlocks) - 1
      ensures b != 0 ==> forall c: nat | c < b :: c in old(Used())
    {
      var i, nr := 0, 0;
      while i < bitmapCount
        invariant i <= bitmapCount
        invariant forall c: nat | c < i * BLOCKS_PER_BITMAP :: c in Used()
        invariant i > 0 ==> nr == BLOCKS_PER_BITMAP
        modifies {}
      {
        nr := FindZero(i);
        if nr != BLOCKS_PER_BITMAP {
          break;
        }
        i := i + 1;
      }
      b := i * BLOCKS_PER_BITMAP + nr;
      ghost var used, free, room := Used(), Free(), Room();
      assert forall c: nat | c < b && c < bitmapCount * BLOCKS_PER_BITMAP :: c in used by {
        forall c: nat | i * BLOCKS_PER_BITMAP <= c < b && i < bitmapCount ensures c in used {
          assert c / BLOCKS_PER_BITMAP == i && c % BLOCKS_PER_BITMAP == c - i * BLOCKS_PER_BITMAP;
        }
      }
      if b > blocksCount {
        assert room == {};
        return 0;
      }
      assert b / BLOCKS_PER_BITMAP == i && b % BLOCKS_PER_BITMAP == nr;
      assert b !in used && b in room && (b < blocksCount ==> b in free) && (b == blocksCount ==> free == {});
      bitmaps[i, nr] := true;
      freeBlocks := freeBlocks - 1;
    }

    // One allocation, if there is room.
    method TakeBlock() returns (b: nat)
      requires Valid() && Backed(1)
      modifies bitmaps, this`freeBlocks
      ensures Valid() && (b != 0 ==> b < disk.Length && b !in old(Used()) && Used() == old(Used()) + {b})
      ensures b == 0 ==> Used() == old(Used())
      ensures Count().Took(1, old(Count())) && (b != 0 <==> old(|Room()|) > 0)
    {
      b := NewBlock();
      if b != 0 {
        assert Room() == old(Room()) - {b};
        assert Free() == old(Free()) - {b};
      } else {
        assert Room() == old(Room()) && Free() == old(Free());
        assert Free() <= Room();
      }
    }

    // A direct pointer gets a block, if there is one.
    method AddDirect(ino: array<int>, k: nat, ghost path: set<Slot>) returns (b: nat)
      requires Valid() && Backed(1) && ino.Length == NPTRS && k < NDIR && ino[k] == 0
      requires Now(ino).Sound(Used()) && Direct(k) in path
      modifies bitmaps, this`freeBlocks, ino
      ensures Valid() && Grown(old(Now(ino)), old(Used()), Now(ino), Used(), path)
      ensures Count().Took(1, old(Count())) && (b != 0 <==> old(|Room()|) > 0)
      ensures Now(ino).Ptr(Direct(k)) == b
      ensures b == 0 ==> ino[..] == old(ino[..])
    {
      ghost var v := Now(ino);
      b := TakeBlock();
      if b == 0 {
        GrownRefl(v, old(Used()), path);
        return;
      }
      ino[k] := b;
      AttachDirect(v, k, b, old(Used()));
      assert Now(ino) == View(v.ptrs[k := b], v.disk);
      GrownStep(v, old(Used()), Now(ino), Direct(k), b, path);
    }

    // The indirect or double-indirect pointer gets a block, cleared.  If there is none, the
    // pointer stays zero and block 0 is cleared.
    method AddIndirect(ino: array<int>, k: nat, ghost path: set<Slot>) returns (b: nat)
      requires Valid() && Backed(1) && ino.Length == NPTRS && (k == IND || k == DIND) && ino[k] == 0
      requires Now(ino).Sound(Used()) && (if k == IND then Ind else Dind) in path
      modifies bitmaps, this`freeBlocks, ino, disk
      ensures Valid() && Grown(old(Now(ino)), old(Used()), Now(ino), Used(), path)
      ensures Count().Took(1, old(Count())) && (b != 0 <==> old(|Room()|) > 0)
      ensures ino[k] == b
      ensures disk[b] == Zeros() && (b != 0 ==> disk[0] == old(disk[0]))
    {
      hide Grown, View.Sound, View.Ptr, Zeros, FileSystem.Free, FileSystem.Room;
      ghost var v := Now(ino);
      b := TakeBlock();
      ino[k] := b;
      disk[b] := Zeros();
      if b == 0 {
        BootCleared(v, old(Used()), path);
        assert Now(ino) == View(v.ptrs, v.disk[0 := Zeros()]);
        return;
      }
      GrownIndirect(v, old(Used()), k, b, path);
      assert Now(ino) == View(v.ptrs[k := b], v.disk[b := Zeros()]);
    }

    // lkfs_new_ind_blocks: word i of pointer block p gets a block, if there is one.
    method NewIndBlock(p: nat, i: nat) returns (b: nat)
      requires Valid() && Backed(1) && p < disk.Length && i < WORDS
      modifies bitmaps, this`freeBlocks, disk
      ensures Valid() && (b != 0 ==> b < disk.Length && b !in old(Used()) && Used() == old(Used()) + {b})
      ensures b == 0 ==> Used() == old(Used())
      ensures Count().Took(1, old(Count())) && (b != 0 <==> old(|Room()|) > 0)
      ensures disk[..] == if b == 0 then old(disk[..]) else old(disk[..])[p := old(disk[p])[i := b]]
    {
      b := TakeBlock();
      if b == 0 {
        return;
      }
      disk[p] := disk[p][i := b];
    }

    // A pointer in the indirect block gets a block.
    method AddIndEntry(ino: array<int>, i: nat, ghost path: set<Slot>) returns (b: nat)
      requires Valid() && Backed(1) && ino.Length == NPTRS && i < WORDS && 0 <= ino[IND] < disk.Length
      requires ino[IND] == 0 ==> |Room()| == 0
      requires Now(ino).Sound(Used()) && IndEntry(i) in path && Now(ino).Ptr(IndEntry(i)) == 0
      modifies bitmaps, this`freeBlocks, disk
      ensures Valid() && Grown(old(Now(ino)), old(Used()), Now(ino), Used(), path)
      ensures Count().Took(1, old(Count())) && (b != 0 <==> old(|Room()|) > 0)
      ensures Now(ino).Ptr(IndEntry(i)) == b
      ensures disk[0] == old(disk[0])
    {
      ghost var v := Now(ino);
      assert v.Ptr(Ind) == ino[IND];
      b := NewIndBlock(ino[IND], i);
      if b == 0 {
        GrownRefl(v, old(Used()), path);
        assert Now(ino) == v;
        return;
      }
      AttachIndEntry(v, i, b, old(Used()));
      GrownStep(v, old(Used()), Now(ino), IndEntry(i), b, path);
    }

    // A pointer in the double-indirect block gets a block of pointers, cleared.  If there is
    // none, block 0 is cleared.
    method AddDindEntry(ino: array<int>, i: nat, ghost path: set<Slot>) returns (b: nat)
      requires Valid() && Backed(1) && ino.Length == NPTRS && i < WORDS && 0 <= ino[DIND] < disk.Length
      requires ino[DIND] == 0 ==> |Room()| == 0
      requires Now(ino).Sound(Used()) && DindEntry(i) in path && Now(ino).Ptr(DindEntry(i)) == 0
      modifies bitmaps, this`freeBlocks, disk
      ensures Valid() && Grown(old(Now(ino)), old(Used()), Now(ino), Used(), path)
      ensures Count().Took(1, old(Count())) && (b != 0 <==> old(|Room()|) > 0)
      ensures Now(ino).Ptr(DindEntry(i)) == b
      ensures disk[b] == Zeros() && (b != 0 ==> disk[0] == old(disk[0]))
    {
      ghost var v := Now(ino);
      assert v.Ptr(Dind) == ino[DIND];
      b := NewIndBlock(ino[DIND], i);
      disk[b] := Zeros();
      if b == 0 {
        BootCleared(v, old(Used()), path);
        assert Now(ino) == View(v.ptrs, v.disk[0 := Zeros()]);
        return;
      }
      AttachDindEntry(v, i, b, old(Used()));
      assert Now(ino) == View(v.ptrs, v.disk[v.ptrs[DIND] := v.disk[v.ptrs[DIND]][i := b]][b := Zeros()]);
      GrownStep(v, old(Used()), Now(ino), DindEntry(i), b, path);
    }

    // A pointer in pointer block p below the double-indirect block gets a data block.
    method AddLeaf(ino: array<int>, p: nat, i: nat, j: nat, ghost path: set<Slot>) returns (b: nat)
      requires Valid() && Backed(1) && ino.Length == NPTRS && i < WORDS && j < WORDS && p < disk.Length
      requires p == 0 ==> |Room()| == 0
      requires Now(ino).Sound(Used()) && Leaf(i, j) in path
      requires Now(ino).Ptr(DindEntry(i)) == p && Now(ino).Ptr(Leaf(i, j)) == 0
      modifies bitmaps, this`freeBlocks, disk
      ensures Valid() && Grown(old(Now(ino)), old(Used()), Now(ino), Used(), path)
      ensures Count().Took(1, old(Count())) && (b != 0 <==> old(|Room()|) > 0)
      ensures Now(ino).Ptr(Leaf(i, j)) == b
      ensures disk[0] == old(disk[0])
    {
      ghost var v := Now(ino);
      assert v.Ptr(DindEntry(i)) == v.Word(v.ptrs[DIND], i) && v.Ptr(Dind) == v.ptrs[DIND];
      b := NewIndBlock(p, j);
      if b == 0 {
        GrownRefl(v, old(Used()), path);
        assert Now(ino) == v;
        return;
      }
      AttachLeaf(v, i, j, b, old(Used()));
      GrownStep(v, old(Used()), Now(ino), Leaf(i, j), b, path);
    }

    // What an allocation has done that found `pointers` pointer blocks and `leaf` data blocks
    // missing: it has taken them, or what was there; block 0 is cleared for want of a pointer block.
    ghost predicate Allocated(pointers: nat, leaf: nat, before: Tally, boot: Block)
      requires Shape()
      reads this, bitmaps, disk
    {
      Count().Took(pointers + leaf, before) && disk[0] == if before.room < pointers then Zeros() else boot
    }

    // The indirect range of lkfs_get_blocks.
    method GetIndirect(ino: array<int>, i: nat, ghost path: set<Slot>) returns (block: nat)
      requires Valid() && ino.Length == NPTRS && i < WORDS && Now(ino).Sound(Used())
      requires path == {Ind, IndEntry(i)}
      requires Backed(IsZero(Now(ino).Ptr(Ind)) + IsZero(Now(ino).Ptr(IndEntry(i))))
      modifies bitmaps, this`freeBlocks, ino, disk
      ensures Valid() && Grown(old(Now(ino)), old(Used()), Now(ino), Used(), path)
      ensures block == Now(ino).Ptr(IndEntry(i))
      ensures var v := old(Now(ino));
              && Allocated(IsZero(v.Ptr(Ind)), IsZero(v.Ptr(IndEntry(i))), old(Count()), old(disk[0]))
              && (block != 0 <==> IsZero(v.Ptr(Ind)) + IsZero(v.Ptr(IndEntry(i))) <= old(|Room()|))
              && (IsZero(v.Ptr(Ind)) <= old(|Room()|) ==> Now(ino).Ptr(Ind) != 0)
      ensures old(Now(ino).Ptr(IndEntry(i))) != 0 ==> Now(ino) == old(Now(ino))
    {
      hide Grown, View.Sound, FileSystem.Used, FileSystem.Free, FileSystem.Room;
      ghost var v, used := Now(ino), Used();
      PointsInside(v, used, Ind);
      PointsInside(v, used, IndEntry(i));
      assert ino[IND] == v.Ptr(Ind);
      if ino[IND] != 0 {
        block := disk[ino[IND]][i];
        assert block == v.Ptr(IndEntry(i));
        if block == 0 {
          block := AddIndEntry(ino, i, path);
        } else {
          GrownRefl(v, used, path);
        }
      } else {
        var newBlock := AddIndirect(ino, IND, path);
        ghost var w, used' := Now(ino), Used();
        GrownSound(v, used, w, used', path, Ind);
        PointsInside(w, used', Ind);
        assert w.Ptr(IndEntry(i)) == 0;
        block := AddIndEntry(ino, i, path);
        GrownCompose(v, used, w, used', Now(ino), Used(), path);
      }
    }

    // The double-indirect range, once its top block is there or known to be missing.
    method GetBelowDouble(ino: array<int>, i: nat, j: nat, ghost path: set<Slot>) returns (block: nat)
      requires Valid() && ino.Length == NPTRS && i < WORDS && j < WORDS && Now(ino).Sound(Used())
      requires path == {Dind, DindEntry(i), Leaf(i, j)}
      requires Backed(IsZero(Now(ino).Ptr(DindEntry(i))) + IsZero(Now(ino).Ptr(Leaf(i, j))))
      requires ino[DIND] == 0 ==> |Room()| == 0 && disk[0] == Zeros()
      modifies bitmaps, this`freeBlocks, ino, disk
      ensures Valid() && Grown(old(Now(ino)), old(Used()), Now(ino), Used(), path)
      ensures block == Now(ino).Ptr(Leaf(i, j))
      ensures var v := old(Now(ino));
              && Allocated(IsZero(v.Ptr(DindEntry(i))), IsZero(v.Ptr(Leaf(i, j))), old(Count()), old(disk[0]))
              && (block != 0 <==> IsZero(v.Ptr(DindEntry(i))) + IsZero(v.Ptr(Leaf(i, j))) <= old(|Room()|))
              && (IsZero(v.Ptr(DindEntry(i))) <= old(|Room()|) ==> Now(ino).Ptr(DindEntry(i)) != 0)
      ensures old(Now(ino).Ptr(Leaf(i, j))) != 0 ==> Now(ino) == old(Now(ino))
    {
      hide Grown, View.Sound, FileSystem.Used, FileSystem.Free, FileSystem.Room;
      ghost var v, used := Now(ino), Used();
      PointsInside(v, used, Dind);
      PointsInside(v, used, DindEntry(i));
      PointsInside(v, used, Leaf(i, j));
      assert ino[DIND] == v.Ptr(Dind);
      var indBlock := disk[ino[DIND]][i];
      assert indBlock == v.Ptr(DindEntry(i));
      if indBlock != 0 {
        block := disk[indBlock][j];
        assert block == v.Ptr(Leaf(i, j));
        if block == 0 {
          block := AddLeaf(ino, indBlock, i, j, path);
        } else {
          GrownRefl(v, used, path);
        }
      } else {
        indBlock := AddDindEntry(ino, i, path);
        ghost var w, used' := Now(ino), Used();
        GrownSound(v, used, w, used', path, Dind);
        PointsInside(w, used', Dind);
        PointsInside(w, used', DindEntry(i));
        assert w.Ptr(Leaf(i, j)) == 0;
        block := AddLeaf(ino, indBlock, i, j, path);
        GrownCompose(v, used, w, used', Now(ino), Used(), path);
      }
    }

    method GetDouble(ino: array<int>, i: nat, j: nat, ghost path: set<Slot>) returns (block: nat)
      requires Valid() && ino.Length == NPTRS && i < WORDS && j < WORDS && Now(ino).Sound(Used())
      requires path == {Dind, DindEntry(i), Leaf(i, j)}
      requires var v := Now(ino);
               Backed(IsZero(v.Ptr(Dind)) + IsZero(v.Ptr(DindEntry(i))) + IsZero(v.Ptr(Leaf(i, j))))
      modifies bitmaps, this`freeBlocks, ino, disk
      ensures Valid() && Grown(old(Now(ino)), old(Used()), Now(ino), Used(), path)
      ensures block == Now(ino).Ptr(Leaf(i, j))
      ensures var v := old(Now(ino));
              var pointers := IsZero(v.Ptr(Dind)) + IsZero(v.Ptr(DindEntry(i)));
              && Allocated(pointers, IsZero(v.Ptr(Leaf(i, j))), old(Count()), old(disk[0]))
              && (block != 0 <==> pointers + IsZero(v.Ptr(Leaf(i, j))) <= old(|Room()|))
              && (pointers <= old(|Room()|) ==> Now(ino).Ptr(Dind) != 0 && Now(ino).Ptr(DindEntry(i)) != 0)
      ensures old(Now(ino).Ptr(Leaf(i, j))) != 0 ==> Now(ino) == old(Now(ino))
    {
      hide Grown, View.Sound, FileSystem.Used, FileSystem.Free, FileSystem.Room;
      ghost var v, used := Now(ino), Used();
      PointsInside(v, used, Dind);
      assert ino[DIND] == v.Ptr(Dind);
      if ino[DIND] != 0 {
        block := GetBelowDouble(ino, i, j, path);
      } else {
        var newBlock := AddIndirect(ino, DIND, path);
        ghost var w, used' := Now(ino), Used();
        GrownSound(v, used, w, used', path, Dind);
        PointsInside(w, used', Dind);
        PointsInside(w, used', DindEntry(i));
        assert w.Ptr(DindEntry(i)) == 0 && w.Ptr(Leaf(i, j)) == 0;
        block := GetBelowDouble(ino, i, j, path);
        GrownCompose(v, used, w, used', Now(ino), Used(), path);
      }
    }

    // lkfs_get_blocks: the disk block of file block iblock, allocated with whatever leads to it
    // if need be; none if the file block is beyond the double-indirect range.  When blocks run
    // out the caller is given block 0, and is told so only in the direct range.
    method GetBlocks(ino: array<int>, iblock: nat) returns (ok: bool, block: nat)
      requires Valid() && ino.Length == NPTRS && Now(ino).Sound(Used())
      requires iblock < MAX_BLOCKS ==> Backed(Missing(Now(ino), iblock))
      modifies bitmaps, this`freeBlocks, ino, disk
      ensures Valid() && Now(ino).Sound(Used())
      ensures iblock < MAX_BLOCKS ==>
                var v := old(Now(ino));
                && Grown(v, old(Used()), Now(ino), Used(), Path(iblock))
                && block == Now(ino).Ptr(SlotOf(iblock))
                && Allocated(MissingPointers(v, iblock), IsZero(v.Ptr(SlotOf(iblock))), old(Count()), old(disk[0]))
                && (block != 0 <==> Missing(v, iblock) <= old(|Room()|))
                && (MissingPointers(v, iblock) <= old(|Room()|) ==> MissingPointers(Now(ino), iblock) == 0)
      ensures iblock < MAX_BLOCKS && old(Now(ino)).Ptr(SlotOf(iblock)) != 0 ==> Now(ino) == old(Now(ino))
      ensures iblock >= MAX_BLOCKS ==>
                block == 0 && Now(ino) == old(Now(ino)) && Used() == old(Used()) && freeBlocks == old(freeBlocks)
      ensures ok <==> iblock >= NDIR || block != 0
    {
      hide Grown, View.Sound, FileSystem.Used, FileSystem.Free, FileSystem.Room;
      ghost var v, used := Now(ino), Used();
      ok, block := true, 0;
      if iblock < MAX_BLOCKS {
        PointsInside(v, used, SlotOf(iblock));
      }
      if iblock < NDIR {
        assert ino[iblock] == v.Ptr(Direct(iblock));
        if ino[iblock] != 0 {
          GrownRefl(v, used, Path(iblock));
          block := ino[iblock];
        } else {
          block := AddDirect(ino, iblock, Path(iblock));
          ok := block != 0;
        }
      } else if iblock - NDIR < WORDS {
        block := GetIndirect(ino, iblock - NDIR, Path(iblock));
      } else if iblock - NDIR - WORDS < 65536 {
        var n := iblock - NDIR - WORDS;
        block := GetDouble(ino, n / WORDS, n % WORDS, Path(iblock));
      }
      if iblock < MAX_BLOCKS {
        GrownSound(v, used, Now(ino), Used(), Path(iblock), SlotOf(iblock));
      }
    }

    // lkfs_free_meta_block: clear a block's bit and count it as free.
    method FreeMetaBlock(b: nat)
      requires Shape() && b < bitmapCount * BLOCKS_PER_BITMAP
      modifies bitmaps, this`freeBlocks
      ensures Used() == old(Used()) - {b} && freeBlocks == old(freeBlocks) + 1
    {
      bitmaps[b / BLOCKS_PER_BITMAP, b % BLOCKS_PER_BITMAP] := false;
      freeBlocks := freeBlocks + 1;
    }

    // lkfs_free_block: the same for a block held in the inode.
    method FreeBlock(ino: array<int>, offset: nat, b: nat)
      requires Shape() && b < bitmapCount * BLOCKS_PER_BITMAP && offset < ino.Length
      modifies bitmaps, this`freeBlocks, ino
      ensures Used() == old(Used()) - {b} && freeBlocks == old(freeBlocks) + 1
      ensures ino[..] == old(ino[..])[offset := 0]
    {
      bitmaps[b / BLOCKS_PER_BITMAP, b % BLOCKS_PER_BITMAP] := false;
      freeBlocks := freeBlocks + 1;
      ino[offset] := 0;
    }

    // lkfs_free_meta_blocks: free the blocks that the first `count` words of a pointer block
    // name, and the pointer block itself if asked to.
    method FreeMetaBlocks(p: nat, count: nat, itself: bool)
      requires Shape() && p < disk.Length && count <= WORDS
      requires forall i | 0 <= i < count :: 0 <= disk[p][i] < bitmapCount * BLOCKS_PER_BITMAP
      requires itself ==> p < bitmapCount * BLOCKS_PER_BITMAP
      modifies bitmaps, this`freeBlocks
      ensures Used() == old(Used()) - (set i | 0 <= i < count :: disk[p][i] as nat) - (if itself then {p} else {})
      ensures freeBlocks == old(freeBlocks) + count + if itself then 1 else 0
    {
      for i := 0 to count
        invariant Used() == old(Used()) - (set k | 0 <= k < i :: disk[p][k] as nat)
        invariant freeBlocks == old(freeBlocks) + i
      {
        FreeMetaBlock(disk[p][i]);
      }
      if itself {
        FreeMetaBlock(p);
      }
    }

    // Free the first n direct blocks, as far as they are there.
    method FreeDirects(ino: array<int>, n: nat, ghost v: View) returns (ghost done: set<Slot>)
      requires Shape() && ino.Length == NPTRS && n <= NDIR && v == Now(ino) && v.Sound(Used())
      modifies bitmaps, this`freeBlocks, ino
      ensures Gone(v, done, old(Used()), old(freeBlocks), Used(), freeBlocks)
      ensures forall s :: s in done <==> s.Direct? && s.i < n
      ensures forall k | 0 <= k < NPTRS :: ino[k] == if k < n then 0 else v.ptrs[k]
    {
      hide Gone, View.Sound, FileSystem.Used;
      done := {};
      ghost var used0, free0 := Used(), freeBlocks;
      UsedInRange();
      NothingGone(v, used0, free0);
      for i := 0 to n
        invariant Gone(v, done, used0, free0, Used(), freeBlocks)
        invariant forall s :: s in done <==> s.Direct? && s.i < i
        invariant forall k | 0 <= k < NPTRS :: ino[k] == if k < i then 0 else v.ptrs[k]
      {
        assert v.Ptr(Direct(i)) == ino[i] == v.ptrs[i];
        PointerUsed(v, used0, Direct(i));
        if ino[i] != 0 {
          GoneOne(v, done, Direct(i), ino[i], used0, free0, Used(), freeBlocks);
          FreeBlock(ino, i, ino[i]);
        } else {
          GoneSkip(v, done, Direct(i), used0, free0, Used(), freeBlocks);
        }
        done := done + {Direct(i)};
      }
    }

    // The first `count` words of block p are block numbers.
    predicate WordsOk(p: int, count: nat)
      requires count <= WORDS
      reads disk
    {
      0 <= p < disk.Length && p < bitmapCount * BLOCKS_PER_BITMAP
      && forall i | 0 <= i < count :: 0 <= disk[p][i] < bitmapCount * BLOCKS_PER_BITMAP
    }

    // What truncation to nothing of a file of n blocks reads as block numbers are block numbers.
    // That is so if the pointer blocks are there; else words of block 0 are read.
    predicate Readable(ino: array<int>, n: nat)
      requires ino.Length == NPTRS
      reads ino, disk
    {
      && (NDIR <= n < MAX_BLOCKS ==> WordsOk(ino[IND], Min(n - NDIR, WORDS)))
      && (NDIR + WORDS <= n < MAX_BLOCKS ==> BranchesOk(ino[DIND], n - NDIR - WORDS))
    }

    predicate BranchesOk(p: int, m: nat)
      requires m < 65536
      reads disk
    {
      && 0 <= p < disk.Length && p < bitmapCount * BLOCKS_PER_BITMAP
      && forall i | 0 <= i <= m / WORDS :: WordsOk(disk[p][i], if i < m / WORDS then WORDS else m % WORDS)
    }

    // Every branch below the double-indirect block: 256 blocks and the pointer block, `rounds` times.
    method FreeBranches(p: nat, rounds: nat, ghost v: View, ghost done: set<Slot>, ghost used0: set<nat>,
                        ghost free0: int)
      returns (ghost done': set<Slot>)
      requires Shape() && v.Sound(used0) && disk[..] == v.disk && rounds < WORDS
      requires p < disk.Length && v.Ptr(Dind) == p && forall i | 0 <= i < rounds :: WordsOk(disk[p][i], WORDS)
      requires p != 0 ==> Gone(v, done, used0, free0, Used(), freeBlocks)
      requires forall s | s in done :: s.Legal()
      requires forall s: Slot | s.Legal() :: s in done <==> DoneUpTo(s, 0)
      modifies bitmaps, this`freeBlocks
      ensures p != 0 ==> Gone(v, done', used0, free0, Used(), freeBlocks)
      ensures forall s | s in done' :: s.Legal()
      ensures forall s: Slot | s.Legal() :: s in done' <==> DoneUpTo(s, rounds)
    {
      hide Gone, View.Sound, View.Ptr, FileSystem.Used, DoneUpTo, Children;
      done' := done;
      var i := 0;
      while i < rounds
        invariant i <= rounds && (p != 0 ==> Gone(v, done', used0, free0, Used(), freeBlocks))
        invariant forall s | s in done' :: s.Legal()
        invariant forall s: Slot | s.Legal() :: s in done' <==> DoneUpTo(s, i)
      {
        var block := disk[p][i];
        BranchDone(done', i);
        if p != 0 {
          EntryWord(v, used0, i, p);
          BranchGone(v, done', DindEntry(i), WORDS, block, used0, free0, Used(), freeBlocks);
        }
        FreeMetaBlocks(block, WORDS, true);
        done' := done' + Children(DindEntry(i), WORDS) + {DindEntry(i)};
        i := i + 1;
      }
    }

    // The indirect block and the first `count` blocks below it.
    method TruncateIndirect(ino: array<int>, count: nat, ghost v: View, ghost done: set<Slot>, ghost used0: set<nat>,
                            ghost free0: int)
      returns (ghost done': set<Slot>)
      requires Shape() && ino.Length == NPTRS && v.Sound(used0) && disk[..] == v.disk && ino[IND] == v.ptrs[IND]
      requires count <= WORDS && WordsOk(ino[IND], count)
      requires Gone(v, done, used0, free0, Used(), freeBlocks)
      requires forall s: Slot :: s in done <==> s.Direct? && s.i < NDIR
      modifies bitmaps, this`freeBlocks, ino
      ensures Gone(v, done', used0, free0, Used(), freeBlocks)
      ensures forall s: Slot :: s in done' <==> (s.Direct? && s.i < NDIR) || s.Ind? || (s.IndEntry? && s.i < count)
      ensures ino[..] == old(ino[..])[IND := 0]
    {
      hide Gone, View.Sound, FileSystem.Used, Children;
      PointerUsed(v, used0, Ind);
      assert v.Ptr(Ind) == ino[IND];
      ChildrenOf(Ind, count);
      BranchGone(v, done, Ind, count, ino[IND], used0, free0, Used(), freeBlocks);
      FreeMetaBlocks(ino[IND], count, false);
      assert forall u: set<nat> :: u - {} == u;
      FreeBlock(ino, IND, ino[IND]);
      done' := done + Children(Ind, count) + {Ind};
    }

    // What lies below the double-indirect block of a file of 277 + m blocks, and that block.
    method TruncateDouble(ino: array<int>, m: nat, ghost v: View, ghost done: set<Slot>, ghost used0: set<nat>,
                          ghost free0: int)
      returns (ghost done': set<Slot>)
      requires Shape() && ino.Length == NPTRS && v.Sound(used0) && disk[..] == v.disk && ino[DIND] == v.ptrs[DIND]
      requires m < 65536 && BranchesOk(ino[DIND], m)
      requires Gone(v, done, used0, free0, Used(), freeBlocks)
      requires forall s | s in done :: s.Legal()
      requires forall s: Slot | s.Legal() :: s in done <==> DoneUpTo(s, 0)
      modifies bitmaps, this`freeBlocks, ino
      ensures Gone(v, done', used0, free0, Used(), freeBlocks)
      ensures forall s | s in done' :: s.Legal()
      ensures forall s: Slot | s.Legal() :: s in done' <==> Visited(s, NDIR + WORDS + m)
      ensures ino[..] == old(ino[..])[DIND := 0]
    {
      hide Gone, View.Sound, FileSystem.Used, Children, DoneUpTo, Visited;
      var p, rounds, rest := ino[DIND], m / WORDS, m % WORDS;
      PointerUsed(v, used0, Dind);
      assert v.Ptr(Dind) == p;
      done' := FreeBranches(p, rounds, v, done, used0, free0);
      var block := disk[p][rounds];
      LastBranchDone(done', m);
      if p != 0 {
        EntryWord(v, used0, rounds, p);
        BranchGone(v, done', DindEntry(rounds), rest, block, used0, free0, Used(), freeBlocks);
      }
      FreeMetaBlocks(block, rest, true);
      done' := done' + Children(DindEntry(rounds), rest) + {DindEntry(rounds)};
      if p != 0 {
        GoneOne(v, done', Dind, p, used0, free0, Used(), freeBlocks);
      } else {
        HoleGone(v, done' + {Dind}, Dind, used0, free0, Used() - {p as nat}, freeBlocks + 1);
      }
      FreeBlock(ino, DIND, p);
      done' := done' + {Dind};
    }

    // The first word of block 0 can be taken for a block number (it is, in one case).
    predicate BootWordOk()
      requires 0 < disk.Length
      reads disk
    {
      0 <= disk[0][0] < bitmapCount * BLOCKS_PER_BITMAP && disk[0][0] < disk.Length
    }

    lemma UsedInRange()
      requires Shape()
      ensures forall b | b in Used() :: b < bitmapCount * BLOCKS_PER_BITMAP
    {}

    // If the pointer blocks are there, only block numbers are read.  An empty double-indirect
    // pointer does no harm either if the first word of block 0 is one, nor does any empty one if
    // block 0 is cleared.
    lemma PointersReadable(ino: array<int>, n: nat)
      requires Valid() && ino.Length == NPTRS && Now(ino).Sound(Used()) && n < MAX_BLOCKS
      requires disk[0] == Zeros() || (PointersThere(Now(ino), n) && (n == NDIR + WORDS ==> BootWordOk()))
      ensures Readable(ino, n)
    {
      UsedInRange();
      var v := Now(ino);
      assert v.Ptr(Ind) == ino[IND] && v.Ptr(Dind) == ino[DIND];
      hide FileSystem.Used, PointersThere;
      PointerUsed(v, Used(), Ind);
      PointerUsed(v, Used(), Dind);
      if ino[IND] != 0 {
        IndWords(ino);
      } else if disk[0] != Zeros() && n > NDIR {
        PointersNeeded(v, n, Ind);
      }
      if n >= NDIR + WORDS {
        var m := n - NDIR - WORDS;
        if ino[DIND] == 0 && disk[0] != Zeros() && m > 0 {
          PointersNeeded(v, n, Dind);
        }
        forall i | 0 <= i <= m / WORDS
          ensures WordsOk(disk[ino[DIND]][i], if i < m / WORDS then WORDS else m % WORDS)
        {
          if ino[DIND] != 0 {
            BranchWords(ino, i);
            if disk[0] != Zeros() && Needed(DindEntry(i), n) {
              PointersNeeded(v, n, DindEntry(i));
            }
          }
        }
      }
    }

    lemma IndWords(ino: array<int>)
      requires Valid() && ino.Length == NPTRS && Now(ino).Sound(Used()) && ino[IND] != 0
      ensures WordsOk(ino[IND], WORDS)
    {
      UsedInRange();
      var v := Now(ino);
      PointerUsed(v, Used(), Ind);
      hide FileSystem.Used, View.Sound;
      forall i | 0 <= i < WORDS ensures 0 <= disk[ino[IND]][i] < bitmapCount * BLOCKS_PER_BITMAP {
        assert v.Ptr(IndEntry(i)) == disk[ino[IND]][i];
        PointerUsed(v, Used(), IndEntry(i));
      }
    }

    lemma BranchWords(ino: array<int>, i: nat)
      requires Valid() && ino.Length == NPTRS && Now(ino).Sound(Used()) && ino[DIND] != 0 && i < WORDS
      ensures 0 < ino[DIND] < disk.Length
      ensures var p := disk[ino[DIND]][i];
              p == Now(ino).Ptr(DindEntry(i)) && WordsOk(p, 0) && (p != 0 ==> WordsOk(p, WORDS))
    {
      UsedInRange();
      var v := Now(ino);
      PointerUsed(v, Used(), Dind);
      PointerUsed(v, Used(), DindEntry(i));
      hide FileSystem.Used, View.Sound;
      var p := disk[ino[DIND]][i];
      if p != 0 {
        forall j | 0 <= j < WORDS ensures 0 <= disk[p][j] < bitmapCount * BLOCKS_PER_BITMAP {
          assert v.Ptr(Leaf(i, j)) == disk[p][j];
          PointerUsed(v, Used(), Leaf(i, j));
        }
      }
    }

    // __lkfs_truncate_blocks for an inode of the given size.  Beyond the direct range pointers are
    // not tested for zero, and an empty one costs block 0 its bit.
    method TruncateBlocks(ino: array<int>, size: nat)
      requires Valid() && ino.Length == NPTRS && Now(ino).Sound(Used()) && Readable(ino, (size + 1023) / 1024)
      modifies bitmaps, this`freeBlocks, ino
      ensures var n := (size + 1023) / 1024;
              && (n < MAX_BLOCKS && NoHole(old(Now(ino)), n) ==>
                    Returned(old(Now(ino)), n, old(Used()), old(freeBlocks), Used(), freeBlocks) && 0 in Used())
              && (n < MAX_BLOCKS && !NoHole(old(Now(ino)), n) ==> 0 !in Used())
              && (n >= MAX_BLOCKS ==> Used() == old(Used()) && freeBlocks == old(freeBlocks))
              && forall k | 0 <= k < NPTRS :: ino[k] == if Emptied(k, n) then 0 else old(ino[k])
    {
      hide View.Ptr, View.Sound, OwnedUpTo, Gone, NoHole, Returned, FileSystem.Used;
      ghost var v, used0, free0 := Now(ino), Used(), freeBlocks;
      var n := (size + 1023) / 1024;
      ghost var done: set<Slot>;
      if n < NDIR {
        done := FreeDirects(ino, n, v);
      } else if n - NDIR < WORDS {
        done := FreeDirects(ino, NDIR, v);
        done := TruncateIndirect(ino, n - NDIR, v, done, used0, free0);
      } else if n - NDIR - WORDS < 65536 {
        done := FreeDirects(ino, NDIR, v);
        done := TruncateIndirect(ino, WORDS, v, done, used0, free0);
        done := TruncateDouble(ino, n - NDIR - WORDS, v, done, used0, free0);
      }
      if n < MAX_BLOCKS {
        AllGone(v, n, done, used0, free0, Used(), freeBlocks);
        BootStays(v, n, used0, free0, Used(), freeBlocks);
      }
    }

    // The first n blocks of a new file have been written, as far as there was room.
    ghost predicate Writing(ino: array<int>, n: nat, used0: set<nat>, before: Tally, boot: Block)
      requires Shape()
      reads this, bitmaps, ino, disk
    {
      && ino.Length == NPTRS && Valid() && Now(ino).Sound(Used()) && NewOnly(Now(ino), used0, Used())
      && Count().Took(BlocksFor(n), before) && Mapped(Now(ino), n, before.room)
      && (BlocksFor(n) <= before.room ==> Dense(Now(ino), n) && disk[0] == boot)
      && OnlyNeeded(Now(ino), n) && (disk[0] == Zeros() || (disk[0] == boot && PointersThere(Now(ino), n)))
    }

    method WriteNext(ino: array<int>, i: nat, ghost used0: set<nat>, ghost before: Tally, ghost boot: Block)
      requires Shape() && Writing(ino, i, used0, before, boot) && i < MAX_BLOCKS && before.free <= before.room
      requires before.free >= BlocksFor(i + 1) || !before.past || blocksCount < disk.Length
      modifies bitmaps, this`freeBlocks, ino, disk
      ensures Writing(ino, i + 1, used0, before, boot)
    {
      hide View.Ptr, Dense, View.Sound, NewOnly, Grown, MissingPointers, BlocksFor, Mapped, OnlyNeeded;
      hide PointersThere, Zeros, FileSystem.Used, FileSystem.Free, FileSystem.Room;
      ghost var v, used, count := Now(ino), Used(), Count();
      NextMissing(v, i, before.room);
      var ok, block := GetBlocks(ino, i);
      TookNext(before, count, Count(), BlocksFor(i), Missing(v, i), BlocksFor(i + 1));
      MappedStep(v, used, Now(ino), Used(), i, before.room);
      if block != 0 {
        DenseGrows(v, used, Now(ino), Used(), i);
      }
      GrownSound(v, used, Now(ino), Used(), Path(i), SlotOf(i));
      StaysNew(v, used, Now(ino), Used(), Path(i), used0);
      NeededStep(v, used, Now(ino), Used(), i);
      if PointersThere(v, i) {
        PointersStep(v, used, Now(ino), Used(), i);
      }
    }

    // Writing a file of n blocks front to back.  It gets its blocks as long as there are enough.
    method WriteFile(ino: array<int>, n: nat)
      requires Valid() && ino.Length == NPTRS && n <= MAX_BLOCKS
      requires Dense(Now(ino), 0) && Now(ino).Sound(Used()) && Backed(BlocksFor(n))
      modifies bitmaps, this`freeBlocks, ino, disk
      ensures Valid() && Now(ino).Sound(Used()) && Count().Took(BlocksFor(n), old(Count()))
      ensures Used() == old(Used()) + Owned(Now(ino), Used()) && Owned(Now(ino), Used()) !! old(Used())
      ensures forall k | 0 <= k < n :: Now(ino).Ptr(SlotOf(k)) != 0 <==> BlocksFor(k + 1) <= old(|Room()|)
      ensures BlocksFor(n) <= old(|Room()|) ==> Dense(Now(ino), n) && disk[0] == old(disk[0])
      ensures OnlyNeeded(Now(ino), n)
      ensures disk[0] == Zeros() || (disk[0] == old(disk[0]) && PointersThere(Now(ino), n))
    {
      hide View.Ptr, Dense, View.Sound, Owned, NewOnly, BlocksFor, Mapped, OnlyNeeded, PointersThere, Zeros;
      hide FileSystem.Used, FileSystem.Free, FileSystem.Room;
      ghost var used0, before, boot := Used(), Count(), disk[0];
      StartsNew(Now(ino), used0);
      NothingMapped(Now(ino), before.room);
      NothingNeeded(Now(ino));
      FreeInRoom();
      for i := 0 to n
        invariant Writing(ino, i, used0, before, boot)
      {
        BlocksForGrows(i + 1, n);
        WriteNext(ino, i, used0, before, boot);
      }
      NewOnlyOwned(Now(ino), used0, Used());
      EachMapped(Now(ino), n, before.room);
    }

    // Truncation undoes allocation: all blocks a file took, data and pointers, are free again,
    // and the free count is what it was, if and only if the size is not at the edge of the
    // indirect range or of one of the pointer blocks below the double-indirect one, and there
    // was room for the file unless it is of direct blocks only.
    method WriteAndTruncate(ino: array<int>, size: nat)
      requires Valid() && ino.Length == NPTRS && (size + 1023) / 1024 < MAX_BLOCKS
      requires Dense(Now(ino), 0) && Now(ino).Sound(Used()) && Backed(BlocksFor((size + 1023) / 1024))
      requires (size + 1023) / 1024 == NDIR + WORDS ==> BootWordOk()
      modifies bitmaps, this`freeBlocks, ino, disk
      ensures var n := (size + 1023) / 1024;
              && (Used() == old(Used()) <==> WellCut(n) && (n < NDIR || BlocksFor(n) <= old(|Room()|)))
              && (Used() == old(Used()) ==> freeBlocks == old(freeBlocks))
      ensures forall k | 0 <= k < NPTRS :: ino[k] == 0
    {
      hide View.Ptr, Dense, View.Sound, Owned, WellCut, NoHole, Within, Readable, OwnedUpTo, BlocksFor, PointersThere;
      hide OnlyNeeded, Zeros, FileSystem.Used, FileSystem.Free, FileSystem.Room;
      var n := (size + 1023) / 1024;
      FreeInRoom();
      WriteFile(ino, n);
      ghost var v, mid, room := Now(ino), Used(), old(|Room()|);
      assert mid - Owned(v, mid) == old(Used());
      PointersReadable(ino, n);
      CutAsMapped(v, n, room);
      WithinOwned(v, n, mid);
      WithinTop(v, n);
      TruncateBlocks(ino, size);
    }
  }

  // A file that got its blocks as far as there was room has no hole exactly if it has them all
  // and is well cut, or has direct blocks only.
  lemma CutAsMapped(v: View, n: nat, room: nat)
    requires n < MAX_BLOCKS && OnlyNeeded(v, n) && (BlocksFor(n) <= room ==> Dense(v, n))
    requires forall k | 0 <= k < n :: v.Ptr(SlotOf(k)) != 0 <==> BlocksFor(k + 1) <= room
    ensures Within(v, n) && (NoHole(v, n) <==> WellCut(n) && (n < NDIR || BlocksFor(n) <= room))
  {
    hide View.Ptr;
    if BlocksFor(n) <= room {
      DenseCut(v, n);
    } else if n == NDIR {
      assert Ind.Legal() && Visited(Ind, n) && !Needed(Ind, n);
    } else if n > NDIR {
      assert v.Ptr(SlotOf(n - 1)) == 0 && Visited(SlotOf(n - 1), n) && !SlotOf(n - 1).Direct?;
    }
  }

  // The top pointers that truncation of a file of n blocks sets to zero.
  predicate Emptied(k: nat, n: nat) {
    n < MAX_BLOCKS && if k < NDIR then k < n else if k == IND then NDIR <= n else NDIR + WORDS <= n
  }

  lemma WithinTop(v: View, n: nat)
    requires |v.ptrs| == NPTRS && Within(v, n) && n < MAX_BLOCKS
    ensures forall k | 0 <= k < NPTRS && v.ptrs[k] != 0 :: Emptied(k, n)
  {
    forall k | 0 <= k < NPTRS && v.ptrs[k] != 0 ensures Emptied(k, n) {
      var s := if k < NDIR then Direct(k) else if k == IND then Ind else Dind;
      assert s.Legal() && v.Ptr(s) == v.ptrs[k];
    }
  }

  // A pointer is zero or leads to a used block.
  lemma PointerUsed(v: View, used: set<nat>, s: Slot)
    requires v.Sound(used) && s.Legal()
    ensures |v.ptrs| == NPTRS && (v.Ptr(s) == 0 || (0 < v.Ptr(s) < |v.disk| && v.Ptr(s) in used))
  {}

  lemma BootStays(v: View, n: nat, used0: set<nat>, free0: int, used: set<nat>, free: int)
    requires |v.ptrs| == NPTRS && 0 in used0
    ensures Returned(v, n, used0, free0, used, free) ==> 0 in used
  {
    hide View.Ptr, Visited;
  }

  // A visited empty slot, with bit 0 cleared.
  lemma HoleGone(v: View, done: set<Slot>, s: Slot, used0: set<nat>, free0: int, used: set<nat>, free: int)
    requires |v.ptrs| == NPTRS && s in done && s.Legal() && !s.Direct? && v.Ptr(s) == 0 && 0 !in used
    ensures Gone(v, done, used0, free0, used, free)
  {}

  // One more branch visited.
  lemma BranchDone(done: set<Slot>, i: nat)
    requires i < WORDS && forall s | s in done :: s.Legal()
    requires forall s: Slot | s.Legal() :: s in done <==> DoneUpTo(s, i)
    ensures DindEntry(i) !in done && forall j | 0 <= j < WORDS :: Child(DindEntry(i), j) !in done
    ensures var done' := done + Children(DindEntry(i), WORDS) + {DindEntry(i)};
            && (forall s | s in done' :: s.Legal())
            && forall s: Slot | s.Legal() :: s in done' <==> DoneUpTo(s, i + 1)
  {
    ChildrenOf(DindEntry(i), WORDS);
    assert DindEntry(i).Legal();
    forall j | 0 <= j < WORDS ensures Child(DindEntry(i), j) !in done {
      assert Leaf(i, j).Legal();
    }
  }

  // The last, partly filled branch and the double-indirect block itself.
  lemma LastBranchDone(done: set<Slot>, m: nat)
    requires m < 65536 && forall s | s in done :: s.Legal()
    requires forall s: Slot | s.Legal() :: s in done <==> DoneUpTo(s, m / WORDS)
    ensures DindEntry(m / WORDS) !in done && Dind !in done && DindEntry(m / WORDS).Legal()
    ensures forall j | 0 <= j < m % WORDS :: Child(DindEntry(m / WORDS), j) !in done
    ensures var done' := done + Children(DindEntry(m / WORDS), m % WORDS) + {DindEntry(m / WORDS)};
            && Dind !in done' && (forall s | s in done' :: s.Legal())
            && forall s: Slot | s.Legal() :: s in done' + {Dind} <==> Visited(s, NDIR + WORDS + m)
  {
    var i, rest := m / WORDS, m % WORDS;
    ChildrenOf(DindEntry(i), rest);
    assert Dind.Legal() && DindEntry(i).Legal();
    forall j | 0 <= j < rest ensures Child(DindEntry(i), j) !in done {
      assert Leaf(i, j).Legal();
    }
  }

  lemma EntryWord(v: View, used: set<nat>, i: nat, p: nat)
    requires v.Sound(used) && i < WORDS && p == v.Ptr(Dind) && p != 0
    ensures 0 < p < |v.disk| && v.disk[p][i] == v.Ptr(DindEntry(i))
  {
    assert Dind.Legal();
  }

  // Freeing what the first words of a pointer block name, and the pointer block itself.
  lemma BranchGone(v: View, done: set<Slot>, parent: Slot, count: nat, p: nat, used0: set<nat>, free0: int,
                   used: set<nat>, free: int)
    requires v.Sound(used0) && parent.Legal() && (parent.Ind? || parent.DindEntry?) && v.Ptr(parent) == p < |v.disk|
    requires count <= WORDS && forall i | 0 <= i < count :: Child(parent, i) !in done && v.disk[p][i] >= 0
    requires parent !in done && Gone(v, done, used0, free0, used, free)
    ensures Gone(v, done + Children(parent, count) + {parent}, used0, free0,
                 used - (set i | 0 <= i < count :: v.disk[p][i] as nat) - {p}, free + count + 1)
  {
    hide View.Sound, Gone, Children;
    var words := set i | 0 <= i < count :: v.disk[p][i] as nat;
    PointerUsed(v, used0, parent);
    if p == 0 {
      HoleGone(v, done + Children(parent, count) + {parent}, parent, used0, free0, used - words - {p},
        free + count + 1);
    } else {
      ChildrenGone(v, done, parent, count, p, used0, free0, used, free);
      ChildrenOf(parent, count);
      GoneOne(v, done + Children(parent, count), parent, p, used0, free0, used - words, free + count);
    }
  }

  lemma ChildrenGone(v: View, done: set<Slot>, parent: Slot, count: nat, p: nat, used0: set<nat>, free0: int,
                     used: set<nat>, free: int)
    requires v.Sound(used0) && parent.Legal() && (parent.Ind? || parent.DindEntry?) && v.Ptr(parent) == p > 0
    requires count <= WORDS && forall i | 0 <= i < count :: Child(parent, i) !in done
    requires p < |v.disk| && forall i | 0 <= i < count :: v.disk[p][i] >= 0
    requires Gone(v, done, used0, free0, used, free)
    ensures Gone(v, done + Children(parent, count), used0, free0,
                 used - (set i | 0 <= i < count :: v.disk[p][i] as nat), free + count)
  {
    var more := Children(parent, count);
    hide View.Sound, View.Ptr, Freed, Child;
    if Whole(v, done + more) {
      ChildrenFreed(v, done, parent, count, p, used0, free0, used, free);
    } else if Whole(v, done) {
      ChildWords(v, used0, parent, p, count);
      var s :| s in done + more && !(s.Legal() && (s.Direct? || v.Ptr(s) != 0));
      assert s in more;
      var i: nat :| i < count && s == Child(parent, i);
      assert v.disk[p][i] == 0;
    }
  }

  lemma ChildrenFreed(v: View, done: set<Slot>, parent: Slot, count: nat, p: nat, used0: set<nat>, free0: int,
                      used: set<nat>, free: int)
    requires v.Sound(used0) && parent.Legal() && (parent.Ind? || parent.DindEntry?) && v.Ptr(parent) == p > 0
    requires count <= WORDS && forall i | 0 <= i < count :: Child(parent, i) !in done
    requires Whole(v, done) && Freed(v, NonEmpty(v, done), used0, free0, used, free)
    requires Whole(v, done + Children(parent, count))
    ensures p < |v.disk| && forall i | 0 <= i < count :: v.disk[p][i] > 0
    ensures Freed(v, NonEmpty(v, done + Children(parent, count)), used0, free0,
                  used - (set i | 0 <= i < count :: v.disk[p][i] as nat), free + count)
  {
    var more := Children(parent, count);
    ChildWords(v, used0, parent, p, count);
    hide View.Sound, View.Ptr, Freed, Child, Filled;
    WordsBelow(v, used0, parent, p, count);
    ChildrenSize(parent, count);
    assert NonEmpty(v, done + more) == NonEmpty(v, done) + more;
    FreedMore(v, NonEmpty(v, done), more, used0, free0, used, free);
  }

  // The words of a pointer block are the pointers of its entries.
  lemma ChildWords(v: View, used: set<nat>, parent: Slot, p: nat, count: nat)
    requires v.Sound(used) && parent.Legal() && (parent.Ind? || parent.DindEntry?) && v.Ptr(parent) == p > 0
    requires count <= WORDS
    ensures p < |v.disk|
    ensures forall i | 0 <= i < count ::
              Child(parent, i).Legal() && !Child(parent, i).Direct? && v.disk[p][i] == v.Ptr(Child(parent, i))
  {}

  // If they are all there, they name the blocks below it.
  lemma WordsBelow(v: View, used: set<nat>, parent: Slot, p: nat, count: nat)
    requires v.Sound(used) && parent.Legal() && (parent.Ind? || parent.DindEntry?) && v.Ptr(parent) == p > 0
    requires count <= WORDS && p < |v.disk|
    requires forall i | 0 <= i < count :: Child(parent, i).Legal() && v.Ptr(Child(parent, i)) != 0
    ensures forall i | 0 <= i < count :: v.disk[p][i] > 0
    ensures Filled(v, Children(parent, count))
    ensures Image(v, Children(parent, count)) == set i | 0 <= i < count :: v.disk[p][i] as nat
  {
    ChildWords(v, used, parent, p, count);
    hide View.Ptr, Child;
  }
}
