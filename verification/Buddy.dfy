/**
  The buddy bitmap of an ext4 block group (EXT4_review/mballoc.c): ext4_mb_generate_buddy
  cuts every run of free blocks into aligned chunks of power-of-two size and records the
  chunks of each order in a bitmap of that order.

  The reference is Canonical: a free aligned chunk that is not part of a larger one, up to
  the top order.  A block bitmap is modelled by a sequence of booleans, true for a used block.
  */
module Buddy {
  import opened Arithmetic
  import opened BitStrings

  // ---- aligned chunks ----

  predicate Aligned(s: int, k: nat) {
    s % Pow2(k) == 0
  }

  // All blocks of the chunk of order k at block s are free.
  ghost predicate FreeChunk(bm: seq<bool>, k: nat, s: int) {
    && 0 <= s && Aligned(s, k) && s + Pow2(k) <= |bm|
    && forall x | s <= x < s + Pow2(k) :: !bm[x]
  }

  // Where the chunk of the next order that contains block s begins.
  function ParentStart(k: nat, s: int): int {
    s - s % Pow2(k + 1)
  }

  // A free chunk that is of the top order or not part of a larger free chunk.
  ghost predicate Canonical(bm: seq<bool>, top: nat, k: nat, s: int) {
    k <= top && FreeChunk(bm, k, s) && (k < top ==> !FreeChunk(bm, k + 1, ParentStart(k, s)))
  }

  lemma Pow2Divides(j: nat, k: nat)
    requires j <= k
    ensures Pow2(k) == Pow2(j) * Pow2(k - j)
  {
    Pow2Adds(j, k - j);
  }

  // An aligned position is a multiple of the chunk size.
  lemma Multiple(s: int, k: nat) returns (q: int)
    requires Aligned(s, k)
    ensures s == Pow2(k) * q
  {
    q := s / Pow2(k);
    DivMod(s, Pow2(k));
  }

  lemma MultipleAligned(q: int, k: nat)
    ensures Aligned(Pow2(k) * q, k)
  {
    QuotientIs(Pow2(k) * q, Pow2(k), q);
  }

  lemma AlignedDown(j: nat, k: nat, s: int)
    requires j <= k && Aligned(s, k)
    ensures Aligned(s, j)
  {
    hide Aligned, Pow2;
    var q := Multiple(s, k);
    Pow2Divides(j, k);
    ProductAssoc(Pow2(j), Pow2(k - j), q);
    MultipleAligned(Pow2(k - j) * q, j);
  }

  lemma NestedMultiples(p: nat, a: int, b: int, m: int, x: int)
    requires p * b <= x < p * (b + 1) && p * a <= x < p * (a + m)
    ensures p * a <= p * b && p * (b + 1) <= p * (a + m)
  {
    if a > b {
      ProductMonotone(p, b + 1, a);
    } else if b >= a + m {
      ProductMonotone(p, a + m, b);
    } else {
      ProductMonotone(p, a, b);
      ProductMonotone(p, b + 1, a + m);
    }
  }

  // Aligned chunks that overlap are nested.
  lemma Nested(j: nat, t: int, k: nat, s: int, x: int)
    requires j <= k && Aligned(t, j) && Aligned(s, k)
    requires t <= x < t + Pow2(j) && s <= x < s + Pow2(k)
    ensures s <= t && t + Pow2(j) <= s + Pow2(k)
  {
    hide Aligned, Pow2;
    AlignedDown(j, k, s);
    Pow2Divides(j, k);
    var p, m := Pow2(j), Pow2(k - j);
    var a := Multiple(s, j);
    var b := Multiple(t, j);
    NestedMultiples(p, a, b, m, x);
  }

  lemma ParentCovers(k: nat, s: int)
    requires Aligned(s, k)
    ensures var p := ParentStart(k, s);
            Aligned(p, k + 1) && p <= s && s + Pow2(k) <= p + Pow2(k + 1) && (s >= 0 ==> p >= 0)
  {
    hide Aligned, Pow2;
    var p, q := Pow2(k + 1), s / Pow2(k + 1);
    DivMod(s, p);
    RemainderRange(s, p);
    MultipleAligned(q, k + 1);
    Nested(k, s, k + 1, p * q, s);
    ProductAtLeast(p, q);
  }

  lemma RemainderRange(s: int, p: nat)
    requires p > 0
    ensures 0 <= s % p < p && (s >= 0 ==> s / p >= 0)
  {}

  // A free chunk that a larger free chunk overlaps has a free parent.
  lemma ParentFree(bm: seq<bool>, j: nat, t: int, k: nat, s: int)
    requires j < k && Aligned(t, j) && FreeChunk(bm, k, s) && s <= t < s + Pow2(k)
    ensures FreeChunk(bm, j + 1, ParentStart(j, t))
  {
    hide Aligned, Pow2, ParentStart;
    ParentCovers(j, t);
    Nested(j + 1, ParentStart(j, t), k, s, t);
  }

  // Canonical chunks do not overlap.
  lemma CanonicalDisjoint(bm: seq<bool>, top: nat, j: nat, t: int, k: nat, s: int, x: int)
    requires Canonical(bm, top, j, t) && Canonical(bm, top, k, s)
    requires t <= x < t + Pow2(j) && s <= x < s + Pow2(k)
    ensures j == k && t == s
  {
    hide Aligned, ParentStart;
    if j < k {
      Nested(j, t, k, s, x);
      ParentFree(bm, j, t, k, s);
    } else if k < j {
      Nested(k, s, j, t, x);
      ParentFree(bm, k, s, j, t);
    } else {
      Nested(j, t, k, s, x);
      Nested(k, s, j, t, x);
    }
  }

  // Every free block lies in a canonical chunk.
  lemma {:induction false} CanonicalCovers(bm: seq<bool>, top: nat, k: nat, s: int, x: int) returns (j: nat, t: int)
    requires k <= top && FreeChunk(bm, k, s) && s <= x < s + Pow2(k)
    ensures Canonical(bm, top, j, t) && t <= x < t + Pow2(j)
    decreases top - k
  {
    hide Aligned, ParentStart;
    j, t := k, s;
    if k < top && FreeChunk(bm, k + 1, ParentStart(k, s)) {
      ParentCovers(k, s);
      j, t := CanonicalCovers(bm, top, k + 1, ParentStart(k, s), x);
    }
  }

  lemma EveryFreeBlockCovered(bm: seq<bool>, top: nat, x: nat) returns (j: nat, t: int)
    requires x < |bm| && !bm[x]
    ensures Canonical(bm, top, j, t) && t <= x < t + Pow2(j)
  {
    j, t := CanonicalCovers(bm, top, 0, x, x);
  }

  // Below the top order, the two halves of a chunk are never both canonical.
  lemma NoCanonicalSiblings(bm: seq<bool>, top: nat, k: nat, s: int)
    requires k < top && Aligned(s, k + 1)
    ensures !(Canonical(bm, top, k, s) && Canonical(bm, top, k, s + Pow2(k)))
  {
    assert ParentStart(k, s) == s && Pow2(k + 1) == 2 * Pow2(k);
    hide Aligned, ParentStart, Pow2;
  }

  // ---- greedy cutting of a run ----

  // No free chunk reaches over position p.
  ghost predicate NoStraddle(bm: seq<bool>, top: nat, p: int) {
    forall k: nat, s: int | k <= top && FreeChunk(bm, k, s) :: !(s < p < s + Pow2(k))
  }

  // The blocks from p to e are free and the run ends at e.
  ghost predicate RunEnds(bm: seq<bool>, p: int, e: int) {
    0 <= p < e <= |bm| && (forall x | p <= x < e :: !bm[x]) && (e < |bm| ==> bm[e])
  }

  // k is the largest order of a chunk that starts at p, is aligned and fits into the run.
  ghost predicate Largest(top: nat, p: int, e: int, k: nat) {
    && k <= top && Aligned(p, k) && p + Pow2(k) <= e
    && (k < top ==> !Aligned(p, k + 1) || p + Pow2(k + 1) > e)
  }

  // The largest chunk at p is canonical, and nothing reaches over its end.
  lemma GreedyCanonical(bm: seq<bool>, top: nat, p: int, e: int, k: nat)
    requires NoStraddle(bm, top, p) && RunEnds(bm, p, e) && Largest(top, p, e, k)
    ensures Canonical(bm, top, k, p) && NoStraddle(bm, top, p + Pow2(k))
  {
    hide Aligned, ParentStart, Pow2;
    if k < top {
      ParentCovers(k, p);
      ParentNotFree(bm, top, p, e, k, ParentStart(k, p));
    }
    forall j: nat, s: int | j <= top && FreeChunk(bm, j, s) ensures !(s < p + Pow2(k) < s + Pow2(j)) {
      GreedyEnd(bm, top, p, e, k, j, s);
    }
  }

  lemma ParentNotFree(bm: seq<bool>, top: nat, p: int, e: int, k: nat, q: int)
    requires NoStraddle(bm, top, p) && RunEnds(bm, p, e) && Largest(top, p, e, k) && k < top
    requires q <= p < q + Pow2(k + 1)
    ensures !FreeChunk(bm, k + 1, q)
  {
    hide Aligned, Pow2;
    if FreeChunk(bm, k + 1, q) && q == p {
      FreeNotPastEnd(bm, k + 1, q, p, e);
    }
  }

  lemma FreeNotPastEnd(bm: seq<bool>, k: nat, s: int, p: int, e: int)
    requires FreeChunk(bm, k, s) && RunEnds(bm, p, e) && s <= p < s + Pow2(k)
    ensures s + Pow2(k) <= e
  {
    hide Aligned, Pow2;
  }

  lemma GreedyEnd(bm: seq<bool>, top: nat, p: int, e: int, k: nat, j: nat, s: int)
    requires NoStraddle(bm, top, p) && RunEnds(bm, p, e) && Largest(top, p, e, k)
    requires j <= top && FreeChunk(bm, j, s)
    ensures !(s < p + Pow2(k) < s + Pow2(j))
  {
    hide Aligned;
    if s < p + Pow2(k) < s + Pow2(j) {
      var x := if s <= p then p else s;
      if k < j {
        Nested(k, p, j, s, x);
        AlignedDown(k + 1, j, p);
        Pow2Monotone(k + 1, j);
        FreeNotPastEnd(bm, j, s, p, e);
      } else {
        Nested(j, s, k, p, x);
      }
    }
  }

  lemma Pow2Monotone(j: nat, k: nat)
    requires j <= k
    ensures Pow2(j) <= Pow2(k)
  {
    Pow2Divides(j, k);
    ProductAtLeast(Pow2(j), Pow2(k - j));
  }
}
