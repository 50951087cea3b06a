/**
  ext4_mb_init's tables, ext4_mb_mark_free_simple and ext4_mb_generate_buddy
  (EXT4_review/mballoc.c), proved against the canonical chunks of module Buddy.
  */
module BuddyGenerator {
  import opened Arithmetic
  import opened BitStrings
  import opened Buddy

  // ---- finding bits ----

  // ffs(x) - 1
  function TrailingZeros(x: nat): nat
    requires x > 0
  {
    if x % 2 == 1 then 0 else 1 + TrailingZeros(x / 2)
  }

  // fls(x) - 1
  function FloorLog2(x: nat): (m: nat)
    requires x > 0
    ensures Pow2(m) <= x < Pow2(m + 1)
  {
    if x == 1 then 0 else 1 + FloorLog2(x / 2)
  }

  // x | (1 << t)
  function OrBit(x: nat, t: nat): (r: nat)
    ensures r > 0
  {
    if x / Pow2(t) % 2 == 1 then x else x + Pow2(t)
  }

  lemma {:induction false} TrailingZerosAligned(x: nat)
    requires x > 0
    ensures Aligned(x, TrailingZeros(x)) && !Aligned(x, TrailingZeros(x) + 1)
  {
    if x % 2 == 0 {
      var m := TrailingZeros(x / 2);
      TrailingZerosAligned(x / 2);
      ModHalves(x, Pow2(m));
      ModHalves(x, Pow2(m + 1));
    }
  }

  lemma OddQuotient(y: nat, t: nat)
    requires y / Pow2(t) % 2 == 1
    ensures !Aligned(y, t + 1)
  {
    if Aligned(y, t + 1) {
      var q := Multiple(y, t + 1);
      ProductAssoc(Pow2(t), 2, q);
      QuotientIs(y, Pow2(t), 2 * q);
    }
  }

  lemma OrBitOdd(x: nat, t: nat)
    ensures OrBit(x, t) / Pow2(t) % 2 == 1
  {
    hide Pow2;
    var p, q := Pow2(t), x / Pow2(t);
    ShiftQuotient(x, p, 1);
    assert x + 1 * p == x + p;
    NextOdd(q, (x + p) / p);
  }

  lemma NextOdd(q: int, next: int)
    requires next == q + 1
    ensures q % 2 != 1 ==> next % 2 == 1
  {}

  lemma OrBitAligned(x: nat, t: nat, m: nat)
    requires m <= t
    ensures Aligned(OrBit(x, t), m) <==> Aligned(x, m)
  {
    Pow2Divides(m, t);
    ShiftRemainder(x, Pow2(m), Pow2(t - m));
  }

  // x | y
  function Or(x: nat, y: nat): nat {
    if x == 0 && y == 0 then 0 else 2 * Or(x / 2, y / 2) + if x % 2 == 1 || y % 2 == 1 then 1 else 0
  }

  lemma {:induction false} OrZero(x: nat)
    ensures Or(x, 0) == x
  {
    if x > 0 {
      OrZero(x / 2);
    }
  }

  lemma {:induction false} OrPower(x: nat, t: nat)
    ensures Or(x, Pow2(t)) == OrBit(x, t)
    decreases t
  {
    if t == 0 {
      OrZero(x / 2);
    } else {
      OrPower(x / 2, t - 1);
      HalfQuotient(x, Pow2(t - 1));
    }
  }

  lemma HalfQuotient(x: nat, p: nat)
    requires p > 0
    ensures (x / 2) / p == x / (2 * p)
  {
    var q := x / (2 * p);
    DivMod(x, 2 * p);
    assert (2 * p) * q == 2 * (p * q);
    QuotientIs(x / 2, p, q);
  }

  lemma Pow2Of16()
    ensures Pow2(16) == 0x1_0000 && Pow2(15) == 0x8000
  {
    assert Pow2(4) == 16;
    Pow2Adds(4, 4);
    Pow2Adds(8, 8);
  }

  // The 16-bit `border` of ext4_mb_mark_free_simple, for blocks of 2^b bytes.
  function Border(b: nat): nat {
    2 * Pow2(b) % 0x1_0000
  }

  lemma BorderIs(b: nat)
    ensures Border(b) == if b <= 14 then Pow2(b + 1) else 0
  {
    Pow2Of16();
    if b <= 14 {
      Pow2Monotone(b + 1, 15);
    } else {
      Pow2Divides(16, b + 1);
      QuotientIs(Pow2(b + 1), 0x1_0000, Pow2(b - 15));
    }
  }

  // ffs(first | border) - 1
  function BorderOrder(b: nat, first: nat): int {
    var x := Or(first, Border(b));
    if x == 0 then -1 else TrailingZeros(x)
  }

  // It is the largest order up to b + 1 at which `first` is aligned, except at block 0 when the border
  // has lost its only bit.
  lemma BorderOrderIs(b: nat, first: nat)
    requires first <= 0xFFFF
    ensures BorderOrder(b, first) == -1 <==> b >= 15 && first == 0
    ensures var m := BorderOrder(b, first);
            m >= 0 ==> m <= b + 1 && Aligned(first, m) && (m < b + 1 ==> !Aligned(first, m + 1))
  {
    BorderIs(b);
    if b <= 14 {
      OrPower(first, b + 1);
      BitOrder(first, b + 1);
    } else {
      OrZero(first);
      if first > 0 {
        TrailingZerosAligned(first);
        SmallOrder(first, TrailingZeros(first));
      }
    }
  }

  // A 16-bit number is not a multiple of 2^16.
  lemma SmallOrder(x: nat, m: nat)
    requires 0 < x <= 0xFFFF && Aligned(x, m)
    ensures m < 16
  {
    hide Pow2, Aligned;
    Pow2Of16();
    var q := Multiple(x, m);
    if m >= 16 {
      Pow2Monotone(16, m);
      ProductAtLeast(Pow2(m), q);
    }
  }

  lemma BitOrder(x: nat, t: nat)
    ensures var m := TrailingZeros(OrBit(x, t));
            m <= t && Aligned(x, m) && (m < t ==> !Aligned(x, m + 1))
  {
    var y := OrBit(x, t);
    var m := TrailingZeros(y);
    TrailingZerosAligned(y);
    OrBitOdd(x, t);
    OddQuotient(y, t);
    hide Aligned, OrBit, TrailingZeros;
    if m > t {
      AlignedDown(t + 1, m, y);
    } else {
      OrBitAligned(x, t, m);
      if m < t {
        OrBitAligned(x, t, m + 1);
      }
    }
  }

  // ---- the layout of the buddy block ----

  // Offsets (in bytes) and sizes (in bits) of the bitmaps of orders 1 .. b + 1.
  ghost predicate TablesOk(b: nat, offsets: seq<nat>, maxs: seq<nat>) {
    && |offsets| == |maxs| == b + 2
    && maxs[0] == Pow2(b + 3) && offsets[0] == 0
    && forall k | 1 <= k <= b + 1 :: OrderPlaced(b, k, offsets[k], maxs[k])
  }

  ghost predicate OrderPlaced(b: nat, k: nat, offset: nat, max: nat)
    requires 1 <= k <= b + 1
  {
    offset == Pow2(b) - Pow2(b + 1 - k) && max == Pow2(b + 3 - k)
  }

  // The first block of chunk n of order k.
  function ChunkStart(k: nat, n: nat): nat {
    Pow2(k) * n
  }

  // The bit of chunk n in the bitmap of order k.
  function BitPos(offsets: seq<nat>, k: nat, n: nat): nat
    requires k < |offsets|
  {
    8 * offsets[k] + n
  }

  // The bitmaps of different orders do not overlap, and all fit into one block.
  lemma Layout(b: nat, offsets: seq<nat>, maxs: seq<nat>, j: nat, k: nat)
    requires TablesOk(b, offsets, maxs) && 1 <= j < k <= b + 1
    ensures 8 * offsets[j] + maxs[j] <= 8 * offsets[k]
  {
    assert OrderPlaced(b, j, offsets[j], maxs[j]) && OrderPlaced(b, k, offsets[k], maxs[k]);
    Pow2Monotone(b + 1 - k, b - j);
    assert Pow2(b + 1 - j) == 2 * Pow2(b - j);
    assert Pow2(b + 3 - j) == 8 * Pow2(b - j) by { Pow2Adds(3, b - j); assert Pow2(3) == 8; }
  }

  lemma InBlock(b: nat, offsets: seq<nat>, maxs: seq<nat>, k: nat)
    requires TablesOk(b, offsets, maxs) && 1 <= k <= b + 1
    ensures 8 * offsets[k] + maxs[k] <= 8 * Pow2(b)
  {
    assert OrderPlaced(b, k, offsets[k], maxs[k]);
    Pow2Adds(2, b + 1 - k);
    assert Pow2(2) == 4;
  }

  // The offsets are kept in 16 bits, which is enough exactly for blocks of up to 64 KB.
  lemma OffsetsFit(b: nat, offsets: seq<nat>, maxs: seq<nat>)
    requires TablesOk(b, offsets, maxs)
    ensures b <= 16 <==> forall k | 0 <= k <= b + 1 :: offsets[k] <= 0xFFFF
  {
    Pow2Of16();
    assert OrderPlaced(b, b + 1, offsets[b + 1], maxs[b + 1]) && Pow2(0) == 1;
    if b <= 16 {
      Pow2Monotone(b, 16);
      forall k | 1 <= k <= b + 1 ensures offsets[k] <= 0xFFFF {
        assert OrderPlaced(b, k, offsets[k], maxs[k]);
      }
    } else {
      Pow2Monotone(17, b);
      assert Pow2(17) == 2 * Pow2(16);
    }
  }

  lemma BitsApart(b: nat, offsets: seq<nat>, maxs: seq<nat>, j: nat, m: nat, k: nat, n: nat)
    requires TablesOk(b, offsets, maxs) && 1 <= j <= b + 1 && 1 <= k <= b + 1 && m < maxs[j] && n < maxs[k]
    requires BitPos(offsets, j, m) == BitPos(offsets, k, n)
    ensures j == k && m == n
  {
    hide TablesOk;
    if j < k {
      Layout(b, offsets, maxs, j, k);
    } else if k < j {
      Layout(b, offsets, maxs, k, j);
    }
  }

  // The table loop of ext4_mb_init.  Its last shift, whose result is not used, is left out.
  method InitTables(b: nat) returns (offsets: array<nat>, maxs: array<nat>)
    ensures fresh(offsets) && fresh(maxs) && TablesOk(b, offsets[..], maxs[..])
  {
    offsets := new nat[b + 2];
    maxs := new nat[b + 2];
    maxs[0] := 8 * Pow2(b);
    offsets[0] := 0;
    assert Pow2(b + 3) == 8 * Pow2(b) by { Pow2Adds(3, b); assert Pow2(3) == 8; }
    var i: nat, offset: nat, max: nat := 1, 0, 4 * Pow2(b);
    assert Pow2(b + 2) == 4 * Pow2(b) by { Pow2Adds(2, b); assert Pow2(2) == 4; }
    while i <= b + 1
      invariant 1 <= i <= b + 2
      invariant maxs[0] == Pow2(b + 3) && offsets[0] == 0
      invariant i <= b + 1 ==> OrderPlaced(b, i, offset, max)
      invariant forall k | 1 <= k < i :: OrderPlaced(b, k, offsets[k], maxs[k])
    {
      offsets[i] := offset;
      maxs[i] := max;
      if i <= b {
        assert Pow2(b + 1 - i) == 2 * Pow2(b - i);
        assert Pow2(b + 3 - i) == 2 * Pow2(b + 2 - i);
        offset := offset + Pow2(b - i);
        max := max / 2;
      }
      i := i + 1;
    }
  }

  // ---- what has been recorded ----

  // The orders' bitmaps have the bit clear of exactly the canonical chunks that begin before `upto`.
  ghost predicate Marked(bm: seq<bool>, b: nat, offsets: seq<nat>, maxs: seq<nat>, upto: int, buddy: seq<bool>)
    requires TablesOk(b, offsets, maxs)
  {
    && |buddy| == 8 * Pow2(b)
    && forall k, n | 1 <= k <= b + 1 && 0 <= n < maxs[k] :: BitRight(bm, b, offsets, upto, buddy, k, n)
  }

  ghost predicate BitRight(bm: seq<bool>, b: nat, offsets: seq<nat>, upto: int, buddy: seq<bool>, k: nat, n: nat)
    requires k < |offsets|
  {
    && BitPos(offsets, k, n) < |buddy|
    && (!buddy[BitPos(offsets, k, n)] <==> ChunkStart(k, n) < upto && Canonical(bm, b + 1, k, ChunkStart(k, n)))
  }

  // The canonical chunks of order k that begin before `upto`.
  ghost function Starts(bm: seq<bool>, top: nat, k: nat, upto: int): set<int> {
    set s | 0 <= s < upto && Canonical(bm, top, k, s)
  }

  ghost predicate Counted(bm: seq<bool>, top: nat, upto: int, counters: seq<nat>) {
    |counters| == top + 1 && forall k | 0 <= k <= top :: counters[k] == |Starts(bm, top, k, upto)|
  }

  // Blocks in all the chunks counted.
  function Weight(counters: seq<nat>): nat {
    if counters == [] then 0
    else Weight(counters[..|counters| - 1]) + counters[|counters| - 1] * Pow2(|counters| - 1)
  }

  lemma {:induction false} WeightStep(counters: seq<nat>, k: nat)
    requires k < |counters|
    ensures Weight(counters[k := counters[k] + 1]) == Weight(counters) + Pow2(k)
    decreases |counters|
  {
    var last := |counters| - 1;
    var after := counters[k := counters[k] + 1];
    if k == last {
      assert after[..last] == counters[..last];
    } else {
      WeightStep(counters[..last], k);
      assert after[..last] == counters[..last][k := counters[k] + 1];
    }
  }

  // Chunk (k, p) is the only canonical chunk that begins in it.
  ghost predicate Sole(bm: seq<bool>, top: nat, k: nat, p: int) {
    && 0 <= p && Canonical(bm, top, k, p)
    && forall j: nat, s: int | Canonical(bm, top, j, s) && p <= s < p + Pow2(k) :: j == k && s == p
  }

  lemma CanonicalSole(bm: seq<bool>, top: nat, k: nat, p: int)
    requires Canonical(bm, top, k, p)
    ensures Sole(bm, top, k, p)
  {
    forall j: nat, s: int | Canonical(bm, top, j, s) && p <= s < p + Pow2(k) ensures j == k && s == p {
      CanonicalDisjoint(bm, top, j, s, k, p, s);
    }
    hide Canonical;
    CanonicalStart(bm, top, k, p);
  }

  lemma CanonicalStart(bm: seq<bool>, top: nat, k: nat, p: int)
    requires Canonical(bm, top, k, p)
    ensures 0 <= p && p + Pow2(k) <= |bm| && !bm[p] && k <= top && Aligned(p, k)
  {}

  lemma CountedStep(bm: seq<bool>, top: nat, k: nat, p: int, counters: seq<nat>)
    requires k <= top && Sole(bm, top, k, p) && Counted(bm, top, p, counters)
    ensures Counted(bm, top, p + Pow2(k), counters[k := counters[k] + 1])
  {
    hide Canonical;
    assert Starts(bm, top, k, p + Pow2(k)) == Starts(bm, top, k, p) + {p};
    forall j | 0 <= j <= top && j != k ensures Starts(bm, top, j, p + Pow2(k)) == Starts(bm, top, j, p) {}
  }

  lemma MarkedStep(bm: seq<bool>, b: nat, offsets: seq<nat>, maxs: seq<nat>, k: nat, n: nat, p: int, buddy: seq<bool>)
    requires TablesOk(b, offsets, maxs) && 1 <= k <= b + 1 && n < maxs[k] && p == ChunkStart(k, n)
    requires Sole(bm, b + 1, k, p) && Marked(bm, b, offsets, maxs, p, buddy)
    ensures BitPos(offsets, k, n) < |buddy|
    ensures Marked(bm, b, offsets, maxs, p + Pow2(k), buddy[BitPos(offsets, k, n) := false])
  {
    hide BitRight, Canonical, Sole, TablesOk, BitPos, Pow2, ChunkStart;
    TableLengths(b, offsets, maxs);
    BitInside(bm, b, offsets, p, buddy, k, n);
    var after, next := buddy[BitPos(offsets, k, n) := false], p + Pow2(k);
    forall j, m | 1 <= j <= b + 1 && 0 <= m < maxs[j] ensures BitRight(bm, b, offsets, next, after, j, m) {
      BitKept(bm, b, offsets, maxs, k, n, p, buddy, j, m);
    }
  }

  lemma BitKept(bm: seq<bool>, b: nat, offsets: seq<nat>, maxs: seq<nat>, k: nat, n: nat, p: int, buddy: seq<bool>,
                j: nat, m: nat)
    requires TablesOk(b, offsets, maxs) && 1 <= k <= b + 1 && 1 <= j <= b + 1 && n < maxs[k] && m < maxs[j]
    requires p == ChunkStart(k, n) && Sole(bm, b + 1, k, p)
    requires BitPos(offsets, k, n) < |buddy| && BitRight(bm, b, offsets, p, buddy, j, m)
    ensures BitRight(bm, b, offsets, p + Pow2(k), buddy[BitPos(offsets, k, n) := false], j, m)
  {
    hide BitRight, Sole, BitPos;
    if BitPos(offsets, j, m) == BitPos(offsets, k, n) {
      BitsApart(b, offsets, maxs, j, m, k, n);
    }
    BitStep(bm, b, offsets, k, n, p, buddy, j, m);
  }

  lemma BitInside(bm: seq<bool>, b: nat, offsets: seq<nat>, p: int, buddy: seq<bool>, k: nat, n: nat)
    requires k < |offsets| && BitRight(bm, b, offsets, p, buddy, k, n)
    ensures BitPos(offsets, k, n) < |buddy|
  {}

  lemma BitStep(bm: seq<bool>, b: nat, offsets: seq<nat>, k: nat, n: nat, p: int, buddy: seq<bool>, j: nat, m: nat)
    requires k < |offsets| && j < |offsets| && p == ChunkStart(k, n) && Sole(bm, b + 1, k, p)
    requires BitPos(offsets, k, n) < |buddy| && BitRight(bm, b, offsets, p, buddy, j, m)
    requires BitPos(offsets, j, m) == BitPos(offsets, k, n) ==> j == k && m == n
    ensures BitRight(bm, b, offsets, p + Pow2(k), buddy[BitPos(offsets, k, n) := false], j, m)
  {
    hide Canonical;
    SameStart(k, n, m);
  }

  lemma SameStart(k: nat, n: nat, m: nat)
    ensures ChunkStart(k, n) == ChunkStart(k, m) ==> n == m
  {
    ProductAtLeast(Pow2(k), n - m);
    assert Pow2(k) * (n - m) == Pow2(k) * n - Pow2(k) * m;
  }

  // A chunk of order 0 has no bit of its own.
  lemma MarkedSingle(bm: seq<bool>, b: nat, offsets: seq<nat>, maxs: seq<nat>, p: int, buddy: seq<bool>)
    requires TablesOk(b, offsets, maxs) && Sole(bm, b + 1, 0, p) && Marked(bm, b, offsets, maxs, p, buddy)
    ensures Marked(bm, b, offsets, maxs, p + 1, buddy)
  {
    assert Pow2(0) == 1;
    var next := p + 1;
    forall j, m | 1 <= j <= b + 1 && 0 <= m < maxs[j] ensures BitRight(bm, b, offsets, next, buddy, j, m) {
      assert BitRight(bm, b, offsets, p, buddy, j, m);
    }
    hide Canonical;
  }

  // ---- cutting the runs ----

  // Everything before position `upto` has been cut into its canonical chunks.
  ghost predicate Recorded(bm: seq<bool>, b: nat, offsets: seq<nat>, maxs: seq<nat>, upto: int, buddy: seq<bool>,
                           counters: seq<nat>)
    requires TablesOk(b, offsets, maxs)
  {
    Marked(bm, b, offsets, maxs, upto, buddy) && Counted(bm, b + 1, upto, counters) && NoStraddle(bm, b + 1, upto)
  }

  // The order ext4_mb_mark_free_simple picks for the next chunk of a run of len blocks from `first` on.
  function Order(b: nat, first: nat, len: nat): int
    requires len > 0
  {
    var max, min := BorderOrder(b, first), FloorLog2(len);
    if max < min then max else min
  }

  // It is the largest possible; in a run from block 0 it is -1 if the border has lost its bit.
  lemma OrderIsLargest(b: nat, first: nat, len: nat)
    requires len > 0 && first <= 0xFFFF
    ensures Order(b, first, len) == -1 <==> b >= 15 && first == 0
    ensures Order(b, first, len) >= 0 ==> Largest(b + 1, first, first + len, Order(b, first, len))
    ensures Order(b, first, len) >= -1
  {
    BorderOrderIs(b, first);
    var max, min := BorderOrder(b, first), FloorLog2(len);
    hide Aligned, BorderOrder, FloorLog2;
    if max < 0 {
    } else if max < min {
      Pow2Monotone(max, min);
    } else {
      AlignedDown(min, max, first);
    }
  }

  lemma ChunkPlace(bm: seq<bool>, b: nat, offsets: seq<nat>, maxs: seq<nat>, k: nat, first: nat, e: nat)
    requires TablesOk(b, offsets, maxs) && Largest(b + 1, first, e, k) && e <= |bm| <= Pow2(b + 3)
    ensures ChunkStart(k, first / Pow2(k)) == first && (k > 0 ==> first / Pow2(k) < maxs[k])
  {
    var n := first / Pow2(k);
    DivMod(first, Pow2(k));
    if k > 0 {
      assert OrderPlaced(b, k, offsets[k], maxs[k]);
      Pow2Divides(k, b + 3);
      hide Pow2;
      if n >= maxs[k] {
        ProductMonotone(Pow2(k), maxs[k], n);
      }
    }
  }

  method PickOrder(b: nat, first: nat, len: nat) returns (min: int)
    requires len > 0
    ensures min == Order(b, first, len)
  {
    hide FloorLog2, BorderOrder;
    var max := BorderOrder(b, first);
    min := FloorLog2(len);
    if max < min {
      min := max;
    }
  }

  // One chunk of a run.  It is refused where the source would count it in bb_counters[-1].
  method MarkChunk(b: nat, offsets: array<nat>, ghost maxs: seq<nat>, buddy: array<bool>, counters: array<nat>,
                   first: nat, len: nat, ghost bm: seq<bool>) returns (chunk: nat, ok: bool)
    requires TablesOk(b, offsets[..], maxs) && |bm| <= Pow2(b + 3) && len > 0
    requires offsets != counters && first <= 0xFFFF
    requires RunEnds(bm, first, first + len) && Recorded(bm, b, offsets[..], maxs, first, buddy[..], counters[..])
    modifies buddy, counters
    ensures ok <==> b <= 14 || first > 0
    ensures ok ==> 0 < chunk <= len && Recorded(bm, b, offsets[..], maxs, first + chunk, buddy[..], counters[..])
    ensures ok ==> Weight(counters[..]) == old(Weight(counters[..])) + chunk
    ensures !ok ==> buddy[..] == old(buddy[..]) && counters[..] == old(counters[..])
  {
    hide Recorded, TablesOk, Largest, FloorLog2, BorderOrder, Pow2, BitPos, RunEnds, Weight, Order;
    var min := PickOrder(b, first, len);
    OrderIsLargest(b, first, len);
    if min < 0 {
      return 0, false;
    }
    ok := true;
    chunk := Pow2(min);
    ChunkFits(b + 1, first, first + len, min);
    RecordedStep(bm, b, offsets[..], maxs, min, first, first + len, buddy[..], counters[..]);
    counters[min] := counters[min] + 1;
    if min > 0 {
      buddy[BitPos(offsets[..], min, first / Pow2(min))] := false;
    }
  }

  lemma RecordedStep(bm: seq<bool>, b: nat, offsets: seq<nat>, maxs: seq<nat>, k: nat, p: nat, e: nat,
                     buddy: seq<bool>, counters: seq<nat>)
    requires TablesOk(b, offsets, maxs) && |bm| <= Pow2(b + 3)
    requires RunEnds(bm, p, e) && Largest(b + 1, p, e, k) && Recorded(bm, b, offsets, maxs, p, buddy, counters)
    ensures |offsets| == |counters| == b + 2 && k <= b + 1
    ensures k > 0 ==> BitPos(offsets, k, p / Pow2(k)) < |buddy|
    ensures var buddy' := if k > 0 then buddy[BitPos(offsets, k, p / Pow2(k)) := false] else buddy;
            Recorded(bm, b, offsets, maxs, p + Pow2(k), buddy', counters[k := counters[k] + 1])
    ensures Weight(counters[k := counters[k] + 1]) == Weight(counters) + Pow2(k)
  {
    hide TablesOk, Marked, NoStraddle, Canonical, Sole, ChunkStart, BitPos, Weight, Aligned, Pow2;
    ChunkPlace(bm, b, offsets, maxs, k, p, e);
    TableLengths(b, offsets, maxs);
    GreedyCanonical(bm, b + 1, p, e, k);
    CanonicalSole(bm, b + 1, k, p);
    CountedStep(bm, b + 1, k, p, counters);
    WeightStep(counters, k);
    if k > 0 {
      MarkedStep(bm, b, offsets, maxs, k, p / Pow2(k), p, buddy);
    } else {
      PowZero();
      MarkedSingle(bm, b, offsets, maxs, p, buddy);
    }
  }

  lemma PowZero()
    ensures Pow2(0) == 1
  {}

  lemma TableLengths(b: nat, offsets: seq<nat>, maxs: seq<nat>)
    requires TablesOk(b, offsets, maxs)
    ensures |offsets| == |maxs| == b + 2
  {}

  lemma ChunkFits(top: nat, p: int, e: int, k: nat)
    requires Largest(top, p, e, k)
    ensures k <= top && 0 < Pow2(k) && p + Pow2(k) <= e
  {}

  // ext4_mb_mark_free_simple: cut the run of len free blocks from block `first` on.  It fails at once,
  // or not at all.
  method MarkFreeSimple(b: nat, offsets: array<nat>, ghost maxs: seq<nat>, buddy: array<bool>, counters: array<nat>,
                        first: nat, len: nat, ghost bm: seq<bool>) returns (ok: bool)
    requires TablesOk(b, offsets[..], maxs) && |bm| <= Pow2(b + 3)
    requires offsets != counters && len > 0 && first + len <= 0xFFFF
    requires RunEnds(bm, first, first + len) && Recorded(bm, b, offsets[..], maxs, first, buddy[..], counters[..])
    modifies buddy, counters
    ensures ok <==> b <= 14 || first > 0
    ensures ok ==> Recorded(bm, b, offsets[..], maxs, first + len, buddy[..], counters[..])
    ensures ok ==> Weight(counters[..]) == old(Weight(counters[..])) + len
    ensures !ok ==> buddy[..] == old(buddy[..]) && counters[..] == old(counters[..])
  {
    hide Recorded, TablesOk;
    var p, left := first, len;
    while left > 0
      invariant p + left == first + len && p >= first && left >= 0
      invariant left < len ==> p > first && (b <= 14 || first > 0)
      invariant left == len ==> buddy[..] == old(buddy[..]) && counters[..] == old(counters[..])
      invariant left > 0 ==> RunEnds(bm, p, first + len)
      invariant Recorded(bm, b, offsets[..], maxs, p, buddy[..], counters[..])
      invariant offsets[..] == old(offsets[..])
      invariant Weight(counters[..]) == old(Weight(counters[..])) + p - first
    {
      var chunk, fits := MarkChunk(b, offsets, maxs, buddy, counters, p, left, bm);
      if !fits {
        return false;
      }
      left := left - chunk;
      p := p + chunk;
    }
    ok := true;
  }

  // ---- the whole bitmap ----

  ghost function FreeBefore(bm: seq<bool>, upto: int): set<int>
    requires upto <= |bm|
  {
    set x | 0 <= x < upto && !bm[x]
  }

  // Where maximal runs of free blocks begin.
  ghost function RunsBefore(bm: seq<bool>, upto: int): set<int>
    requires upto <= |bm|
  {
    set x | 0 <= x < upto && RunStart(bm, x)
  }

  predicate RunStart(bm: seq<bool>, x: int)
    requires 0 <= x < |bm|
  {
    !bm[x] && (x == 0 || bm[x - 1])
  }

  lemma RecordedStarts(bm: seq<bool>, b: nat, offsets: seq<nat>, maxs: seq<nat>, buddy: seq<bool>, counters: seq<nat>)
    requires TablesOk(b, offsets, maxs) && |buddy| == 8 * Pow2(b) && |counters| == b + 2
    requires (forall x | 0 <= x < |buddy| :: buddy[x]) && (forall k | 0 <= k < |counters| :: counters[k] == 0)
    ensures Recorded(bm, b, offsets, maxs, 0, buddy, counters) && Weight(counters) == 0
  {
    forall k, n | 1 <= k <= b + 1 && 0 <= n < maxs[k] ensures BitRight(bm, b, offsets, 0, buddy, k, n) {
      InBlock(b, offsets, maxs, k);
      assert BitPos(offsets, k, n) < |buddy|;
    }
    NoWeight(counters);
    hide Canonical, Aligned;
  }

  lemma {:induction false} NoWeight(counters: seq<nat>)
    requires forall k | 0 <= k < |counters| :: counters[k] == 0
    ensures Weight(counters) == 0
    decreases |counters|
  {
    if counters != [] {
      NoWeight(counters[..|counters| - 1]);
    }
  }

  // Used blocks begin no chunk, and no free chunk reaches over them.
  lemma RecordedGap(bm: seq<bool>, b: nat, offsets: seq<nat>, maxs: seq<nat>, i: nat, j: nat, buddy: seq<bool>,
                    counters: seq<nat>)
    requires TablesOk(b, offsets, maxs) && Recorded(bm, b, offsets, maxs, i, buddy, counters)
    requires i <= j <= |bm| && forall x | i <= x < j :: bm[x]
    ensures Recorded(bm, b, offsets, maxs, j, buddy, counters)
    ensures FreeBefore(bm, j) == FreeBefore(bm, i) && RunsBefore(bm, j) == RunsBefore(bm, i)
  {
    var top := b + 1;
    forall k: nat, s: int | i <= s < j ensures !Canonical(bm, top, k, s) {
      if Canonical(bm, top, k, s) {
        CanonicalStart(bm, top, k, s);
      }
    }
    GapNoStraddle(bm, b + 1, i, j);
    hide Canonical, NoStraddle, TablesOk, BitPos, ChunkStart;
    forall k | 0 <= k <= b + 1 ensures Starts(bm, top, k, j) == Starts(bm, top, k, i) {}
    forall k, n | 1 <= k <= b + 1 && 0 <= n < maxs[k] ensures BitRight(bm, b, offsets, j, buddy, k, n) {
      assert BitRight(bm, b, offsets, i, buddy, k, n);
    }
  }

  lemma GapNoStraddle(bm: seq<bool>, top: nat, i: nat, j: nat)
    requires NoStraddle(bm, top, i) && i <= j <= |bm| && forall x | i <= x < j :: bm[x]
    ensures NoStraddle(bm, top, j)
  {
    hide Aligned;
    if i < j {
      var y := j - 1;
      forall k: nat, s: int | k <= top && FreeChunk(bm, k, s) ensures !(s < j < s + Pow2(k)) {
        assert bm[y];
      }
    }
  }

  // One run more.
  lemma RunCounted(bm: seq<bool>, i: nat, e: nat)
    requires RunEnds(bm, i, e) && (i == 0 || bm[i - 1])
    ensures |FreeBefore(bm, e)| == |FreeBefore(bm, i)| + (e - i)
    ensures |RunsBefore(bm, e)| == |RunsBefore(bm, i)| + 1
  {
    FreeGrows(bm, i, e);
    assert RunsBefore(bm, e) == RunsBefore(bm, i) + {i};
  }

  lemma {:induction false} FreeGrows(bm: seq<bool>, i: nat, e: nat)
    requires i <= e <= |bm| && forall x | i <= x < e :: !bm[x]
    ensures |FreeBefore(bm, e)| == |FreeBefore(bm, i)| + (e - i)
    decreases e
  {
    if i < e {
      FreeGrows(bm, i, e - 1);
      assert FreeBefore(bm, e) == FreeBefore(bm, e - 1) + {e - 1};
    }
  }

  // mb_find_next_zero_bit and mb_find_next_bit
  method FindNextZero(bm: seq<bool>, start: nat) returns (i: nat)
    requires start <= |bm|
    ensures start <= i <= |bm| && (forall x | start <= x < i :: bm[x]) && (i < |bm| ==> !bm[i])
  {
    i := start;
    while i < |bm| && bm[i]
      invariant start <= i <= |bm| && forall x | start <= x < i :: bm[x]
    {
      i := i + 1;
    }
  }

  method FindNextUsed(bm: seq<bool>, start: nat) returns (i: nat)
    requires start <= |bm|
    ensures start <= i <= |bm| && (forall x | start <= x < i :: !bm[x]) && (i < |bm| ==> bm[i])
  {
    i := start;
    while i < |bm| && !bm[i]
      invariant start <= i <= |bm| && forall x | start <= x < i :: !bm[x]
    {
      i := i + 1;
    }
  }

  class GroupInfo {
    var freeBlocks: int       // bb_free
    var fragments: nat        // bb_fragments
    var firstFree: nat        // bb_first_free
    const counters: array<nat>

    constructor (orders: nat)
      ensures fresh(counters) && counters.Length == orders && forall k | 0 <= k < orders :: counters[k] == 0
    {
      counters := new nat[orders](_ => 0);
      freeBlocks, fragments, firstFree := 0, 0, 0;
    }
  }

  // The whole group: the record is complete, and the counts are those of the bitmap.
  ghost predicate Generated(bm: seq<bool>, b: nat, offsets: seq<nat>, maxs: seq<nat>, buddy: seq<bool>,
                            counters: seq<nat>,
                            free: int, fragments: nat, firstFree: nat)
    requires TablesOk(b, offsets, maxs)
  {
    && Marked(bm, b, offsets, maxs, |bm|, buddy)
    && Counted(bm, b + 1, |bm|, counters)
    && free == |FreeBefore(bm, |bm|)| == Weight(counters)
    && fragments == |RunsBefore(bm, |bm|)|
    && firstFree <= |bm| && (forall x | 0 <= x < firstFree :: bm[x]) && (firstFree < |bm| ==> !bm[firstFree])
  }

  // A run of one block is only counted.
  method CutRun(b: nat, offsets: array<nat>, ghost maxs: seq<nat>, buddy: array<bool>, counters: array<nat>,
                first: nat, len: nat, ghost bm: seq<bool>) returns (ok: bool)
    requires TablesOk(b, offsets[..], maxs) && |bm| <= Pow2(b + 3) && offsets != counters && len > 0
    requires first + len <= 0xFFFF
    requires RunEnds(bm, first, first + len) && Recorded(bm, b, offsets[..], maxs, first, buddy[..], counters[..])
    modifies buddy, counters
    ensures ok <==> b <= 14 || first > 0 || len == 1
    ensures ok ==> Recorded(bm, b, offsets[..], maxs, first + len, buddy[..], counters[..])
    ensures ok ==> Weight(counters[..]) == old(Weight(counters[..])) + len
    ensures !ok ==> buddy[..] == old(buddy[..]) && counters[..] == old(counters[..])
  {
    hide Recorded, TablesOk, RunEnds, Largest;
    if len > 1 {
      ok := MarkFreeSimple(b, offsets, maxs, buddy, counters, first, len, bm);
    } else {
      ok := true;
      SingleIsLargest(b + 1, first);
      RecordedStep(bm, b, offsets[..], maxs, 0, first, first + 1, buddy[..], counters[..]);
      PowZero();
      counters[0] := counters[0] + 1;
    }
  }

  lemma SingleIsLargest(top: nat, p: nat)
    ensures Largest(top, p, p + 1, 0)
  {
    assert Pow2(0) == 1 && Pow2(1) == 2;
  }

  // What ext4_mb_generate_buddy looks at: the number of blocks is kept in 16 bits.
  function Seen(group: seq<bool>): (bm: seq<bool>)
    ensures |bm| <= 0xFFFF && (bm == group <==> |group| <= 0xFFFF)
  {
    group[..|group| % 0x1_0000]
  }

  // The groups whose buddy can be generated: the border keeps its bit, or no run of several blocks
  // begins at block 0.
  predicate Generable(bm: seq<bool>, b: nat) {
    b <= 14 || |bm| < 2 || bm[0] || bm[1]
  }

  // Blocks of 32 KB, and blocks 0 and 1 free: the first chunk would get order -1.
  lemma LargeBlocks()
    ensures !Generable([false, false], 15) && Order(15, 0, 2) == -1
    ensures RunEnds([false, false], 0, 2) && |Seen([false, false])| == 2 <= Pow2(15 + 3)
  {
    OrderIsLargest(15, 0, 2);
    Pow2Monotone(1, 18);
  }

  lemma UsedFirst(bm: seq<bool>, b: nat)
    requires |bm| == 0 || bm[0]
    ensures Generable(bm, b)
  {}

  // Only the run from block 0 can fail.
  lemma OnceCut(bm: seq<bool>, b: nat, first: nat, e: nat, ok: bool)
    requires RunEnds(bm, first, e) && (ok <==> b <= 14 || first > 0 || e == 1)
    requires first > 0 ==> Generable(bm, b)
    ensures ok <==> Generable(bm, b)
    ensures ok || first == 0
  {}

  // The run that begins at block `first`.
  method CutNext(b: nat, offsets: array<nat>, ghost maxs: seq<nat>, buddy: array<bool>, counters: array<nat>,
                 bm: seq<bool>, first: nat) returns (i: nat, ok: bool)
    requires TablesOk(b, offsets[..], maxs) && |bm| <= Pow2(b + 3) && |bm| <= 0xFFFF && offsets != counters
    requires first < |bm| && !bm[first] && (first == 0 || bm[first - 1])
    requires Recorded(bm, b, offsets[..], maxs, first, buddy[..], counters[..])
    requires first > 0 ==> Generable(bm, b)
    modifies buddy, counters
    ensures first < i <= |bm| && (i < |bm| ==> bm[i]) && offsets[..] == old(offsets[..])
    ensures |FreeBefore(bm, i)| == |FreeBefore(bm, first)| + (i - first)
    ensures |RunsBefore(bm, i)| == |RunsBefore(bm, first)| + 1
    ensures ok <==> Generable(bm, b)
    ensures ok ==> Recorded(bm, b, offsets[..], maxs, i, buddy[..], counters[..])
    ensures ok ==> Weight(counters[..]) == old(Weight(counters[..])) + (i - first)
    ensures !ok ==> first == 0 && buddy[..] == old(buddy[..]) && counters[..] == old(counters[..])
  {
    hide TablesOk, Recorded, Weight, Pow2, RunEnds, FreeBefore, RunsBefore, Generable;
    i := FindNextUsed(bm, first);
    var len := i - first;
    RunFound(bm, first, i);
    ok := CutRun(b, offsets, maxs, buddy, counters, first, len, bm);
    OnceCut(bm, b, first, i, ok);
  }

  // The next run of free blocks.
  method SkipUsed(b: nat, offsets: array<nat>, ghost maxs: seq<nat>, buddy: array<bool>, counters: array<nat>,
                  bm: seq<bool>, i: nat) returns (next: nat)
    requires TablesOk(b, offsets[..], maxs) && i <= |bm|
    requires Recorded(bm, b, offsets[..], maxs, i, buddy[..], counters[..])
    ensures i <= next <= |bm| && Recorded(bm, b, offsets[..], maxs, next, buddy[..], counters[..])
    ensures next < |bm| ==> !bm[next] && (next == i || bm[next - 1])
    ensures FreeBefore(bm, next) == FreeBefore(bm, i) && RunsBefore(bm, next) == RunsBefore(bm, i)
    ensures forall x | i <= x < next :: bm[x]
  {
    hide TablesOk, Recorded, FreeBefore, RunsBefore;
    next := FindNextZero(bm, i);
    RecordedGap(bm, b, offsets[..], maxs, i, next, buddy[..], counters[..]);
  }

  // ext4_mb_generate_buddy, from all-ones buddy maps and zero counters.
  method GenerateBuddy(group: seq<bool>, b: nat, offsets: array<nat>, ghost maxs: seq<nat>, buddy: array<bool>,
                       grp: GroupInfo) returns (ok: bool)
    requires TablesOk(b, offsets[..], maxs) && |group| <= Pow2(b + 3)
    requires offsets != grp.counters && buddy.Length == 8 * Pow2(b) && grp.counters.Length == b + 2
    requires forall x | 0 <= x < buddy.Length :: buddy[x]
    requires forall k | 0 <= k < b + 2 :: grp.counters[k] == 0
    modifies buddy, grp, grp.counters
    ensures offsets[..] == old(offsets[..])
    ensures ok <==> Generable(Seen(group), b)
    ensures ok ==> Generated(Seen(group), b, offsets[..], maxs, buddy[..], grp.counters[..], grp.freeBlocks,
                             grp.fragments, grp.firstFree)
    ensures !ok ==> buddy[..] == old(buddy[..]) && grp.counters[..] == old(grp.counters[..])
  {
    var bm := Seen(group);
    RecordedStarts(bm, b, offsets[..], maxs, buddy[..], grp.counters[..]);
    hide TablesOk, Recorded, Weight, Pow2, FreeBefore, RunsBefore, Seen, Generable, Generated;
    var i := SkipUsed(b, offsets, maxs, buddy, grp.counters, bm, 0);
    var firstFree := i;
    grp.firstFree := firstFree;
    NothingBefore(bm);
    if |bm| == 0 || bm[0] {
      UsedFirst(bm, b);
    }
    var free, fragments := 0, 0;
    while i < |bm|
      invariant i <= |bm| && (i < |bm| ==> !bm[i] && (i == 0 || bm[i - 1])) && grp.firstFree == firstFree
      invariant Recorded(bm, b, offsets[..], maxs, i, buddy[..], grp.counters[..]) && offsets[..] == old(offsets[..])
      invariant free == |FreeBefore(bm, i)| == Weight(grp.counters[..])
      invariant fragments == |RunsBefore(bm, i)|
      invariant i == 0 ==> buddy[..] == old(buddy[..]) && grp.counters[..] == old(grp.counters[..])
      invariant i > 0 || |bm| == 0 ==> Generable(bm, b)
    {
      fragments := fragments + 1;
      var first := i;
      i, ok := CutNext(b, offsets, maxs, buddy, grp.counters, bm, first);
      free := free + (i - first);
      if !ok {
        return;
      }
      if i < |bm| {
        i := SkipUsed(b, offsets, maxs, buddy, grp.counters, bm, i);
      }
    }
    ok := true;
    grp.fragments := fragments;
    if free != grp.freeBlocks {
      grp.freeBlocks := free;
    }
    RecordedAll(bm, b, offsets[..], maxs, buddy[..], grp.counters[..], free, fragments, firstFree);
  }

  lemma RunFound(bm: seq<bool>, i: nat, e: nat)
    requires i < e <= |bm| && (forall x | i <= x < e :: !bm[x]) && (e < |bm| ==> bm[e]) && (i == 0 || bm[i - 1])
    ensures RunEnds(bm, i, e)
    ensures |FreeBefore(bm, e)| == |FreeBefore(bm, i)| + (e - i)
    ensures |RunsBefore(bm, e)| == |RunsBefore(bm, i)| + 1
  {
    RunCounted(bm, i, e);
  }

  lemma NothingBefore(bm: seq<bool>)
    ensures FreeBefore(bm, 0) == {} && RunsBefore(bm, 0) == {}
  {}

  lemma RecordedAll(bm: seq<bool>, b: nat, offsets: seq<nat>, maxs: seq<nat>, buddy: seq<bool>, counters: seq<nat>,
                    free: int, fragments: nat, firstFree: nat)
    requires TablesOk(b, offsets, maxs) && Recorded(bm, b, offsets, maxs, |bm|, buddy, counters)
    requires free == |FreeBefore(bm, |bm|)| == Weight(counters) && fragments == |RunsBefore(bm, |bm|)|
    requires firstFree <= |bm| && (forall x | 0 <= x < firstFree :: bm[x]) && (firstFree < |bm| ==> !bm[firstFree])
    ensures Generated(bm, b, offsets, maxs, buddy, counters, free, fragments, firstFree)
  {}

  // ---- what a generated buddy says ----

  // Bit n of the bitmap of order k, which begins at byte offsets[k], is clear exactly if the 2^k blocks
  // from 2^k * n on are a canonical chunk.
  lemma ClearBits(bm: seq<bool>, b: nat, offsets: seq<nat>, maxs: seq<nat>, buddy: seq<bool>, counters: seq<nat>,
                  free: int, fragments: nat, firstFree: nat, k: nat, n: nat)
    requires TablesOk(b, offsets, maxs) && Generated(bm, b, offsets, maxs, buddy, counters, free, fragments, firstFree)
    requires 1 <= k <= b + 1 && n < maxs[k]
    ensures 8 * offsets[k] + n < |buddy|
    ensures !buddy[8 * offsets[k] + n] <==> Canonical(bm, b + 1, k, Pow2(k) * n)
  {
    hide Canonical, Pow2, Counted, Weight, FreeBefore, RunsBefore, OrderPlaced;
    assert BitRight(bm, b, offsets, |bm|, buddy, k, n);
    var start := ChunkStart(k, n);
    assert start == Pow2(k) * n;
    if Canonical(bm, b + 1, k, start) {
      CanonicalStart(bm, b + 1, k, start);
    }
  }
}
