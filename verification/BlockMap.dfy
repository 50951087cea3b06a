/**
  Block pointers of an lkfs file (lkfs/inode.c): 21 direct pointers, one indirect block of
  256 pointers and one double-indirect block.  A pointer of zero means that nothing is
  allocated there.
  */
module BlockMap {
  const NDIR := 21
  const IND := 21
  const DIND := 22
  const NPTRS := 23
  const WORDS := 256

  // File blocks below this one can be mapped.
  const MAX_BLOCKS := 21 + 256 + 65536

  type Block = b: seq<int> | |b| == WORDS witness seq(WORDS, i => 0)

  function Zeros(): Block {
    seq(WORDS, i => 0)
  }

  // The places of an inode's pointer tree.
  datatype Slot = Direct(i: nat) | Ind | IndEntry(i: nat) | Dind | DindEntry(i: nat) | Leaf(i: nat, j: nat) {
    predicate Legal() {
      match this
      case Direct(i) => i < NDIR
      case IndEntry(i) => i < WORDS
      case DindEntry(i) => i < WORDS
      case Leaf(i, j) => i < WORDS && j < WORDS
      case _ => true
    }
  }

  // The slot that maps file block n.
  function SlotOf(n: nat): (s: Slot)
    requires n < MAX_BLOCKS
    ensures s.Legal()
  {
    if n < NDIR then Direct(n)
    else if n - NDIR < WORDS then IndEntry(n - NDIR)
    else Leaf((n - NDIR - WORDS) / WORDS, (n - NDIR - WORDS) % WORDS)
  }

  lemma SlotOfInjective(m: nat, n: nat)
    requires m < MAX_BLOCKS && n < MAX_BLOCKS
    requires SlotOf(m) == SlotOf(n)
    ensures m == n
  {}

  // An inode's pointers and the blocks of the disk, as values.
  datatype View = View(ptrs: seq<int>, disk: seq<Block>) {
    function Word(p: int, i: nat): int
      requires i < WORDS
    {
      if 0 < p < |disk| then disk[p][i] else 0
    }

    function Ptr(s: Slot): int
      requires |ptrs| == NPTRS && s.Legal()
    {
      match s
      case Direct(i) => ptrs[i]
      case Ind => ptrs[IND]
      case Dind => ptrs[DIND]
      case IndEntry(i) => Word(ptrs[IND], i)
      case DindEntry(i) => Word(ptrs[DIND], i)
      case Leaf(i, j) => Word(Word(ptrs[DIND], i), j)
    }

    // Pointers lead to used blocks of the disk, and no two of them to the same block.
    ghost predicate Sound(used: set<nat>) {
      && |ptrs| == NPTRS
      && (forall s: Slot | s.Legal() && Ptr(s) != 0 :: 0 < Ptr(s) < |disk| && Ptr(s) in used)
      && (forall s: Slot, t: Slot | s.Legal() && t.Legal() && Ptr(s) == Ptr(t) != 0 :: s == t)
    }

    // The pointers are those of v, except that slot s, empty before, now holds b.
    ghost predicate Extends(v: View, s: Slot, b: int)
      requires s.Legal()
    {
      && |ptrs| == |v.ptrs| == NPTRS && |disk| == |v.disk|
      && v.Ptr(s) == 0 && Ptr(s) == b
      && forall t: Slot | t.Legal() && t != s :: Ptr(t) == v.Ptr(t)
    }
  }

  // Attaching a free block at an empty slot.
  lemma ExtendSound(v: View, w: View, s: Slot, b: nat, used: set<nat>)
    requires v.Sound(used) && s.Legal() && w.Extends(v, s, b) && 0 < b < |v.disk| && b !in used
    ensures w.Sound(used + {b})
  {
    hide View.Ptr;
  }

  // The ways in which lkfs_get_blocks attaches blocks.  An indirect block is cleared.
  lemma AttachDirect(v: View, k: nat, b: nat, used: set<nat>)
    requires v.Sound(used) && k < NDIR && v.ptrs[k] == 0
    ensures View(v.ptrs[k := b], v.disk).Extends(v, Direct(k), b)
  {}

  lemma AttachIndirect(v: View, k: nat, b: nat, used: set<nat>)
    requires v.Sound(used) && (k == IND || k == DIND) && v.ptrs[k] == 0 && 0 < b < |v.disk| && b !in used
    ensures View(v.ptrs[k := b], v.disk[b := Zeros()]).Extends(v, if k == IND then Ind else Dind, b)
  {
    var w := View(v.ptrs[k := b], v.disk[b := Zeros()]);
    forall t: Slot | t.Legal() && t != (if k == IND then Ind else Dind) ensures w.Ptr(t) == v.Ptr(t) {
      OtherWords(v, b, used);
    }
  }

  // A free block is not one the pointer tree is read from.
  lemma OtherWords(v: View, b: nat, used: set<nat>)
    requires v.Sound(used) && b !in used
    ensures v.ptrs[IND] != b || b == 0
    ensures v.ptrs[DIND] != b || b == 0
    ensures forall i | 0 <= i < WORDS :: v.Word(v.ptrs[DIND], i) != b || b == 0
  {
    assert v.Ptr(Ind) == v.ptrs[IND] && v.Ptr(Dind) == v.ptrs[DIND];
    forall i | 0 <= i < WORDS ensures v.Word(v.ptrs[DIND], i) != b || b == 0 {
      assert v.Ptr(DindEntry(i)) == v.Word(v.ptrs[DIND], i);
    }
  }

  lemma AttachIndEntry(v: View, i: nat, b: nat, used: set<nat>)
    requires v.Sound(used) && i < WORDS && v.ptrs[IND] != 0 && v.Ptr(IndEntry(i)) == 0
    ensures 0 < v.ptrs[IND] < |v.disk|
    ensures var p := v.ptrs[IND];
            View(v.ptrs, v.disk[p := v.disk[p][i := b]]).Extends(v, IndEntry(i), b)
  {
    assert v.Ptr(Ind) != 0;
    var p := v.ptrs[IND];
    var w := View(v.ptrs, v.disk[p := v.disk[p][i := b]]);
    TreeBlocksApart(v, used);
    forall t: Slot | t.Legal() && t != IndEntry(i) ensures w.Ptr(t) == v.Ptr(t) {}
  }

  lemma AttachDindEntry(v: View, i: nat, b: nat, used: set<nat>)
    requires v.Sound(used) && i < WORDS && v.ptrs[DIND] != 0 && v.Ptr(DindEntry(i)) == 0
    requires 0 < b < |v.disk| && b !in used
    ensures 0 < v.ptrs[DIND] < |v.disk|
    ensures var p := v.ptrs[DIND];
            View(v.ptrs, v.disk[p := v.disk[p][i := b]][b := Zeros()]).Extends(v, DindEntry(i), b)
  {
    assert v.Ptr(Dind) != 0;
    var p := v.ptrs[DIND];
    var w := View(v.ptrs, v.disk[p := v.disk[p][i := b]][b := Zeros()]);
    TreeBlocksApart(v, used);
    OtherWords(v, b, used);
    forall t: Slot | t.Legal() && t != DindEntry(i) ensures w.Ptr(t) == v.Ptr(t) {}
  }

  lemma AttachLeaf(v: View, i: nat, j: nat, b: nat, used: set<nat>)
    requires v.Sound(used) && i < WORDS && j < WORDS
    requires v.Ptr(DindEntry(i)) != 0 && v.Ptr(Leaf(i, j)) == 0
    ensures 0 < v.Ptr(DindEntry(i)) < |v.disk|
    ensures var p := v.Ptr(DindEntry(i));
            View(v.ptrs, v.disk[p := v.disk[p][j := b]]).Extends(v, Leaf(i, j), b)
  {
    var p := v.Ptr(DindEntry(i));
    var w := View(v.ptrs, v.disk[p := v.disk[p][j := b]]);
    TreeBlocksApart(v, used);
    forall t: Slot | t.Legal() && t != Leaf(i, j) ensures w.Ptr(t) == v.Ptr(t) {
      match t
      case Leaf(m, n) =>
        assert v.Ptr(DindEntry(m)) == p ==> m == i;
      case _ =>
    }
  }

  // The blocks that hold pointers are all different.
  lemma TreeBlocksApart(v: View, used: set<nat>)
    requires v.Sound(used)
    ensures v.ptrs[IND] != 0 ==> v.ptrs[IND] != v.ptrs[DIND]
    ensures forall i | 0 <= i < WORDS && v.Word(v.ptrs[DIND], i) != 0 ::
              v.Word(v.ptrs[DIND], i) != v.ptrs[IND] && v.Word(v.ptrs[DIND], i) != v.ptrs[DIND]
    ensures forall i, j | 0 <= i < WORDS && 0 <= j < WORDS && i != j && v.Word(v.ptrs[DIND], i) != 0 ::
              v.Word(v.ptrs[DIND], i) != v.Word(v.ptrs[DIND], j)
  {
    assert v.Ptr(Ind) == v.ptrs[IND] && v.Ptr(Dind) == v.ptrs[DIND];
    forall i | 0 <= i < WORDS && v.Word(v.ptrs[DIND], i) != 0
      ensures v.Word(v.ptrs[DIND], i) != v.ptrs[IND] && v.Word(v.ptrs[DIND], i) != v.ptrs[DIND]
    {
      assert v.Ptr(DindEntry(i)) == v.Word(v.ptrs[DIND], i);
    }
    forall i, j | 0 <= i < WORDS && 0 <= j < WORDS && i != j && v.Word(v.ptrs[DIND], i) != 0
      ensures v.Word(v.ptrs[DIND], i) != v.Word(v.ptrs[DIND], j)
    {
      assert v.Ptr(DindEntry(i)) == v.Word(v.ptrs[DIND], i) && v.Ptr(DindEntry(j)) == v.Word(v.ptrs[DIND], j);
    }
  }

  // ---- freeing ----

  ghost predicate Filled(v: View, done: set<Slot>) {
    |v.ptrs| == NPTRS && forall s | s in done :: s.Legal() && v.Ptr(s) > 0
  }

  // The blocks that the slots of `done` point to.
  ghost function Image(v: View, done: set<Slot>): set<nat>
    requires Filled(v, done)
  {
    set s | s in done :: v.Ptr(s)
  }

  // Different slots point to different blocks.
  lemma {:induction false} ImageSize(v: View, done: set<Slot>, used: set<nat>)
    requires v.Sound(used) && Filled(v, done)
    ensures |Image(v, done)| == |done| && Image(v, done) <= used
    decreases done
  {
    hide View.Ptr;
    if done != {} {
      var s :| s in done;
      ImageSize(v, done - {s}, used);
      assert Image(v, done) == Image(v, done - {s}) + {v.Ptr(s)};
      assert v.Ptr(s) !in Image(v, done - {s});
    }
  }

  // The slots of `done` have been freed, and counted, since `used` and `free` were used0 and free0.
  ghost predicate Freed(v: View, done: set<Slot>, used0: set<nat>, free0: int, used: set<nat>, free: int) {
    Filled(v, done) && used == used0 - Image(v, done) && free == free0 + |done|
  }

  lemma FreedOne(v: View, done: set<Slot>, s: Slot, used0: set<nat>, free0: int, used: set<nat>, free: int)
    requires Freed(v, done, used0, free0, used, free) && s !in done && s.Legal() && v.Ptr(s) > 0
    ensures Freed(v, done + {s}, used0, free0, used - {v.Ptr(s)}, free + 1)
  {
    hide View.Ptr;
    assert Image(v, done + {s}) == Image(v, done) + {v.Ptr(s)};
  }

  lemma FreedMore(v: View, done: set<Slot>, more: set<Slot>, used0: set<nat>, free0: int, used: set<nat>, free: int)
    requires Freed(v, done, used0, free0, used, free) && Filled(v, more) && done !! more
    ensures Freed(v, done + more, used0, free0, used - Image(v, more), free + |more|)
  {
    hide View.Ptr;
    assert Image(v, done + more) == Image(v, done) + Image(v, more);
  }

  // Some slot points to block b.
  ghost predicate PointedTo(v: View, b: int)
    requires |v.ptrs| == NPTRS
  {
    b != 0 && exists s: Slot :: s.Legal() && v.Ptr(s) == b
  }

  // The blocks that belong to the file.
  ghost function Owned(v: View, used: set<nat>): set<nat>
    requires |v.ptrs| == NPTRS
  {
    set b | b in used && PointedTo(v, b)
  }

  // ---- what truncation frees ----

  // The slots that truncation of a file of n blocks visits.
  predicate Visited(s: Slot, n: nat) {
    match s
    case Direct(i) => i < n
    case Ind => NDIR <= n
    case IndEntry(i) => NDIR + i < n
    case Dind => NDIR + WORDS <= n
    case DindEntry(i) => NDIR + WORDS + WORDS * i <= n
    case Leaf(i, j) => NDIR + WORDS + WORDS * i + j < n
  }

  // Those of them that are not tested for zero all hold a block.
  ghost predicate NoHole(v: View, n: nat)
    requires |v.ptrs| == NPTRS
  {
    forall s: Slot | s.Legal() && Visited(s, n) && !s.Direct? :: v.Ptr(s) != 0
  }

  // The file has no block beyond its first n.
  ghost predicate Within(v: View, n: nat)
    requires |v.ptrs| == NPTRS
  {
    forall s: Slot | s.Legal() && v.Ptr(s) != 0 :: Visited(s, n)
  }

  // The file's blocks among its first n, with their pointer blocks.
  ghost function OwnedUpTo(v: View, n: nat, used: set<nat>): set<nat>
    requires |v.ptrs| == NPTRS
  {
    set b | b in used && b != 0 && exists s: Slot :: s.Legal() && Visited(s, n) && v.Ptr(s) == b
  }

  lemma WithinOwned(v: View, n: nat, used: set<nat>)
    requires |v.ptrs| == NPTRS && Within(v, n)
    ensures OwnedUpTo(v, n, used) == Owned(v, used)
  {
    hide View.Ptr, Visited;
  }

  // These blocks, and nothing else, have become free, each counted once.
  ghost predicate Returned(v: View, n: nat, used0: set<nat>, free0: int, used: set<nat>, free: int)
    requires |v.ptrs| == NPTRS
  {
    used == used0 - OwnedUpTo(v, n, used0) && free + |used| == free0 + |used0|
  }

  // No slot of `done` is empty, save direct ones.
  ghost predicate Whole(v: View, done: set<Slot>) {
    |v.ptrs| == NPTRS && forall s | s in done :: s.Legal() && (s.Direct? || v.Ptr(s) != 0)
  }

  ghost function NonEmpty(v: View, done: set<Slot>): set<Slot>
    requires Whole(v, done)
  {
    set s | s in done && v.Ptr(s) != 0
  }

  // The slots of `done` have been visited: their blocks are free, or bit 0 has been cleared.
  ghost predicate Gone(v: View, done: set<Slot>, used0: set<nat>, free0: int, used: set<nat>, free: int) {
    if Whole(v, done) then Freed(v, NonEmpty(v, done), used0, free0, used, free) else 0 !in used
  }

  lemma NothingGone(v: View, used: set<nat>, free: int)
    requires |v.ptrs| == NPTRS
    ensures Gone(v, {}, used, free, used, free)
  {
    assert NonEmpty(v, {}) == {};
  }

  lemma GoneOne(v: View, done: set<Slot>, s: Slot, b: nat, used0: set<nat>, free0: int, used: set<nat>, free: int)
    requires v.Sound(used0) && Gone(v, done, used0, free0, used, free) && s !in done && s.Legal() && v.Ptr(s) == b
    requires b != 0 || !s.Direct?
    ensures Gone(v, done + {s}, used0, free0, used - {b}, free + 1)
  {
    hide View.Ptr, View.Sound, Freed;
    if Whole(v, done + {s}) {
      assert NonEmpty(v, done + {s}) == NonEmpty(v, done) + {s};
      FreedOne(v, NonEmpty(v, done), s, used0, free0, used, free);
    }
  }

  lemma GoneSkip(v: View, done: set<Slot>, s: Slot, used0: set<nat>, free0: int, used: set<nat>, free: int)
    requires Gone(v, done, used0, free0, used, free) && s.Legal() && s.Direct?
    requires |v.ptrs| == NPTRS && v.Ptr(s) == 0
    ensures Gone(v, done + {s}, used0, free0, used, free)
  {
    hide View.Ptr, Freed;
    if Whole(v, done + {s}) {
      assert NonEmpty(v, done + {s}) == NonEmpty(v, done);
    }
  }

  // Everything has been visited.
  lemma AllGone(v: View, n: nat, done: set<Slot>, used0: set<nat>, free0: int, used: set<nat>, free: int)
    requires v.Sound(used0) && Gone(v, done, used0, free0, used, free)
    requires forall s | s in done :: s.Legal()
    requires forall s: Slot | s.Legal() :: s in done <==> Visited(s, n)
    ensures NoHole(v, n) ==> Returned(v, n, used0, free0, used, free)
    ensures !NoHole(v, n) ==> 0 !in used
  {
    hide View.Ptr, Visited;
    if NoHole(v, n) {
      var full := NonEmpty(v, done);
      ImageSize(v, full, used0);
      assert Image(v, full) == OwnedUpTo(v, n, used0);
    }
  }

  // The entries below a pointer block.
  function Child(parent: Slot, i: nat): Slot {
    if parent.DindEntry? then Leaf(parent.i, i) else IndEntry(i)
  }

  lemma ChildInjective(parent: Slot, i: nat, j: nat)
    requires Child(parent, i) == Child(parent, j)
    ensures i == j
  {}

  function Children(parent: Slot, count: nat): set<Slot> {
    set i: nat | i < count :: Child(parent, i)
  }

  lemma {:induction false} ChildrenSize(parent: Slot, count: nat)
    ensures |Children(parent, count)| == count
  {
    hide Child;
    if count > 0 {
      ChildrenSize(parent, count - 1);
      var last := Child(parent, count - 1);
      forall i: nat | i < count - 1 ensures Child(parent, i) != last {
        if Child(parent, i) == last {
          ChildInjective(parent, i, count - 1);
        }
      }
      assert Children(parent, count) == Children(parent, count - 1) + {last};
    }
  }

  // ---- files without holes ----

  // The slots a file of n blocks without holes needs.
  predicate Needed(s: Slot, n: nat) {
    match s
    case Direct(i) => i < n
    case Ind => NDIR < n
    case IndEntry(i) => NDIR + i < n
    case Dind => NDIR + WORDS < n
    case DindEntry(i) => NDIR + WORDS + WORDS * i < n
    case Leaf(i, j) => NDIR + WORDS + WORDS * i + j < n
  }

  // Exactly the first n file blocks are allocated, and the pointer blocks that lead to them.
  ghost predicate Dense(v: View, n: nat) {
    |v.ptrs| == NPTRS && forall s: Slot | s.Legal() :: v.Ptr(s) != 0 <==> Needed(s, n)
  }

  // The sizes, in blocks, at which truncation gives back exactly what such a file holds.
  predicate WellCut(n: nat) {
    n != NDIR && (n < NDIR + WORDS || (n - NDIR - WORDS) % WORDS != 0)
  }

  lemma DenseCut(v: View, n: nat)
    requires Dense(v, n) && n < MAX_BLOCKS
    ensures Within(v, n) && (NoHole(v, n) <==> WellCut(n))
  {
    hide View.Ptr;
    if n == NDIR {
      assert !Needed(Ind, n) && Visited(Ind, n);
    } else if !WellCut(n) {
      var s := DindEntry((n - NDIR - WORDS) / WORDS);
      assert s.Legal() && !Needed(s, n) && Visited(s, n);
    }
  }

  // What has been visited when the first n direct blocks, all below the indirect block, and the
  // first `rounds` pointer blocks below the double-indirect block have been.
  predicate DoneUpTo(s: Slot, rounds: nat) {
    match s
    case Direct(i) => i < NDIR
    case Ind => true
    case IndEntry(i) => i < WORDS
    case Dind => false
    case DindEntry(i) => i < rounds
    case Leaf(i, j) => i < rounds && j < WORDS
  }

  lemma ChildrenOf(parent: Slot, count: nat)
    requires parent.Ind? || parent.DindEntry?
    ensures forall s: Slot :: s in Children(parent, count) <==>
              if parent.Ind? then s.IndEntry? && s.i < count else s.Leaf? && s.i == parent.i && s.j < count
  {
    forall s: Slot | (if parent.Ind? then s.IndEntry? && s.i < count else s.Leaf? && s.i == parent.i && s.j < count)
      ensures s in Children(parent, count)
    {
      assert s == Child(parent, if parent.Ind? then s.i else s.j);
    }
  }
}
