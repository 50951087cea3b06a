/**
  AC refinement scans of the progressive Huffman decoder (decode_mcu_AC_refine and
  process_restart of jdphuff.c).  A call that runs out of input takes back the coefficients
  it made non-zero but leaves the correction bits it applied; the proofs show that a later
  call nevertheless ends exactly where one uninterrupted call would have ended.
  */
module ProgressiveDecoder {
  import opened BitStrings
  import opened EntropyStream
  import opened HuffmanCode
  import opened HuffmanTable
  import opened BitReader
  import opened Coefficients
  import opened Refinement
  import opened Options

  // ---- the block with its new coefficients ----

  // The new coefficients lie at different zero places before coefficient k.
  ghost predicate Fresh(cur: seq<int>, news: seq<New>, k: nat) {
    && |cur| == DCTSIZE2
    && |news| < k
    && forall j | 0 <= j < |news| :: cur[news[j].index] == 0 && ZigZagNumber(news[j].index) < k
  }

  lemma {:induction false} OverlayElsewhere(cur: seq<int>, news: seq<New>, i: Index)
    requires |cur| == DCTSIZE2 && forall j | 0 <= j < |news| :: news[j].index != i
    ensures Overlay(cur, news)[i] == cur[i]
    decreases |news|
  {
    if news != [] {
      OverlayElsewhere(cur, news[..|news| - 1], i);
    }
  }

  // What the loops read at coefficient k and beyond is not disturbed by the new coefficients.
  lemma FreshReads(cur: seq<int>, news: seq<New>, k: nat)
    requires k < DCTSIZE2 && Fresh(cur, news, k)
    ensures Overlay(cur, news)[NaturalOrder(k)] == cur[NaturalOrder(k)]
  {
    OrderInverts(k);
    hide NaturalOrder, ZigZagNumber;
    OverlayElsewhere(cur, news, NaturalOrder(k));
  }

  lemma {:induction false} OverlayUpdate(cur: seq<int>, news: seq<New>, i: Index, v: int)
    requires |cur| == DCTSIZE2 && forall j | 0 <= j < |news| :: news[j].index != i
    ensures Overlay(cur[i := v], news) == Overlay(cur, news)[i := v]
    decreases |news|
  {
    if news != [] {
      OverlayUpdate(cur, news[..|news| - 1], i, v);
    }
  }

  lemma FreshFix(sc: Scan, s: seq<Bit>, pos: nat, k: nat, cur: seq<int>, news: seq<New>)
    requires sc.Valid() && k < DCTSIZE2 && IsBlock(cur) && cur[NaturalOrder(k)] != 0 && Fresh(cur, news, k)
    ensures var fixed := Fix(sc, s, pos, k, cur);
            && Fresh(fixed, news, k + 1)
            && Overlay(fixed, news) == Overlay(cur, news)[NaturalOrder(k) := fixed[NaturalOrder(k)]]
            && fixed[NaturalOrder(k)] == if Value(s, pos, 1) == 1 then Correct(cur[NaturalOrder(k)], sc.P1())
              else cur[NaturalOrder(k)]
  {
    hide NaturalOrder, ZigZagNumber, Correct, Value, Kept, Untouched;
    FixFacts(sc, k, cur);
    var i0 := NaturalOrder(k);
    var fixed := Fix(sc, s, pos, k, cur);
    assert fixed == cur[i0 := fixed[i0]];
    OverlayUpdate(cur, news, i0, fixed[i0]);
  }

  lemma FreshWeaken(cur: seq<int>, news: seq<New>, k: nat, m: nat)
    requires Fresh(cur, news, k) && k <= m
    ensures Fresh(cur, news, m)
  {
    hide ZigZagNumber;
  }

  lemma FreshAppends(cur: seq<int>, news: seq<New>, k: nat, v: int)
    requires k < DCTSIZE2 && Fresh(cur, news, k) && cur[NaturalOrder(k)] == 0
    ensures Fresh(cur, news + [New(NaturalOrder(k), v)], k + 1)
  {
    OrderInverts(k);
    hide NaturalOrder, ZigZagNumber;
  }

  lemma OverlayAppends(cur: seq<int>, news: seq<New>, n: New)
    requires |cur| == DCTSIZE2
    ensures Overlay(cur, news + [n]) == Overlay(cur, news)[n.index := n.value]
  {
    assert (news + [n])[..|news + [n]| - 1] == news;
  }

  // ---- how far an attempt has come ----

  // The corrections up to coefficient k have been carried out on a, giving b; f is where they lead.
  ghost predicate Underway(k: nat, a: seq<int>, b: seq<int>, f: seq<int>) {
    SameZeros(a, b) && Untouched(k, a, b) && Kept(k, b, f)
  }

  lemma UnderwayIsPartial(k: nat, a: seq<int>, b: seq<int>, f: seq<int>)
    requires Underway(k, a, b, f)
    ensures Partial(a, b, f)
  {
    hide ZigZagNumber;
  }

  // Where a scan stops, everything before is as it will be in the end.
  ghost predicate Leads(x: Skim, f: seq<int>) {
    Kept(x.k, x.blk, f)
  }

  // The block in memory: cur, with the new coefficients put in.
  ghost predicate Standing(b: seq<int>, cur: seq<int>, news: seq<New>, k: nat) {
    IsBlock(cur) && Fresh(cur, news, k) && b == Overlay(cur, news)
  }

  // One correction bit.
  method FixCoef(rd: Reader, w: Work, sc: Scan, k: nat, block: array<int>,
                 ghost c: Cursor, ghost cur: seq<int>, ghost news: seq<New>)
    returns (ok: bool, r: Work, ghost c': Cursor)
    requires rd.Reading(w, c) && sc.Valid() && k <= sc.se && block.Length == DCTSIZE2
    requires Standing(block[..], cur, news, k) && cur[NaturalOrder(k)] != 0
    modifies rd`unreadMarker, rd`insufficientData, block
    ensures rd.Valid() && MarkerKept(old(rd.unreadMarker), rd.unreadMarker)
    ensures rd.unreadMarker == 0 ==> rd.insufficientData == old(rd.insufficientData)
    ensures !ok ==> rd.Suspended(c.ahead, old(rd.insufficientData)) && block[..] == old(block[..])
    ensures ok ==> rd.Reading(r, c') && c'.s == c.s && c'.ahead == c.ahead && c'.k == c.k + 1
    ensures ok ==> Standing(block[..], Fix(sc, c.s, c.k, k, cur), news, k + 1)
  {
    hide Reader.Reading, NaturalOrder, Correct, Value, Fix, IsBlock, Fresh, Overlay;
    FreshFix(sc, c.s, c.k, k, cur, news);
    FreshReads(cur, news, k);
    var bit;
    ok, bit, r, c' := rd.GetBits(w, 1, c);
    if !ok {
      return;
    }
    P1Positive(sc);
    var i := NaturalOrder(k);
    if bit == 1 {
      block[i] := Correct(block[i], sc.P1());
    }
  }

  lemma P1Positive(sc: Scan)
    requires sc.Valid()
    ensures sc.P1() > 0
  {
    Pow2Bound(sc.al);
  }

  // One round of the do-while loop; false `more` when it breaks off at a zero coefficient.
  method SkipCoef(rd: Reader, w: Work, sc: Scan, k: nat, left: nat, block: array<int>,
                  ghost c: Cursor, ghost a: seq<int>, ghost cur: seq<int>, ghost news: seq<New>, ghost f: seq<int>)
    returns (ok: bool, more: bool, r: Work, k': nat, left': nat, ghost c': Cursor, ghost cur': seq<int>)
    requires rd.Reading(w, c) && sc.Valid() && k <= sc.se && block.Length == DCTSIZE2
    requires Standing(block[..], cur, news, k) && Underway(k, a, cur, f)
    requires Leads(Skip(sc, c.s, c.k, k, left, cur), f)
    modifies rd`unreadMarker, rd`insufficientData, block
    ensures rd.Valid() && MarkerKept(old(rd.unreadMarker), rd.unreadMarker)
    ensures rd.unreadMarker == 0 ==> rd.insufficientData == old(rd.insufficientData)
    ensures IsBlock(cur') && Standing(block[..], cur', news, k') && Underway(k', a, cur', f)
    ensures k' == if ok && more then k + 1 else k
    ensures !ok ==> rd.Suspended(c.ahead, old(rd.insufficientData))
    ensures ok ==> rd.Reading(r, c') && c'.s == c.s && c'.ahead == c.ahead
    ensures ok ==> Skip(sc, c.s, c'.k, k', left', cur') == Skip(sc, c.s, c.k, k, left, cur)
    ensures ok && (!more || k' > sc.se) ==> Skip(sc, c.s, c.k, k, left, cur) == Skim(cur', c'.k, k')
    ensures ok && !more ==> cur'[NaturalOrder(k)] == 0
  {
    hide Reader.Reading, NaturalOrder, Fix, Fresh, Overlay, Leads, Underway, Skip, IsBlock, Reader.Valid;
    ReadingValid(rd, w, c);
    StandingBlock(block[..], cur, news, k);
    ok, more, r, k', left', c', cur' := true, true, w, k, left, c, cur;
    FreshReads(cur, news, k);
    if block[NaturalOrder(k)] != 0 {
      FixUnderway(sc, c.s, c.k, k, left, a, cur, f);
      ok, r, c' := FixCoef(rd, r, sc, k, block, c, cur, news);
      if !ok {
        return;
      }
      cur' := Fix(sc, c.s, c.k, k, cur);
    } else {
      if left == 0 {
        more := false;
        SkipDone(sc, c.s, c.k, k, 0, cur);
        return;
      }
      left' := left - 1;
      ZeroUnderway(sc, c.s, c.k, k, left', a, cur, f);
      FreshWeaken(cur, news, k, k + 1);
    }
    k' := k + 1;
    if k' > sc.se {
      SkipDone(sc, c.s, c'.k, k', left', cur');
    }
  }

  // The do-while loop: corrections, and a run of `run` zero coefficients to pass.
  method SkipRun(rd: Reader, w: Work, sc: Scan, k: nat, run: nat, block: array<int>,
                 ghost c: Cursor, ghost a: seq<int>, ghost cur: seq<int>, ghost news: seq<New>, ghost f: seq<int>)
    returns (ok: bool, r: Work, k': nat, ghost c': Cursor, ghost cur': seq<int>)
    requires rd.Reading(w, c) && sc.Valid() && k <= sc.se && block.Length == DCTSIZE2
    requires Standing(block[..], cur, news, k) && Underway(k, a, cur, f)
    requires Leads(Skip(sc, c.s, c.k, k, run, cur), f)
    modifies rd`unreadMarker, rd`insufficientData, block
    ensures rd.Valid() && MarkerKept(old(rd.unreadMarker), rd.unreadMarker)
    ensures rd.unreadMarker == 0 ==> rd.insufficientData == old(rd.insufficientData)
    ensures k <= k' <= sc.se + 1 && Standing(block[..], cur', news, k') && Underway(k', a, cur', f)
    ensures !ok ==> rd.Suspended(c.ahead, old(rd.insufficientData))
    ensures ok ==> rd.Reading(r, c') && c'.s == c.s && c'.ahead == c.ahead
    ensures ok ==> Skip(sc, c.s, c.k, k, run, cur) == Skim(cur', c'.k, k')
    ensures ok && k' <= sc.se ==> cur'[NaturalOrder(k')] == 0
  {
    StandingBlock(block[..], cur, news, k);
    ReadingValid(rd, w, c);
    hide Reader.Reading, Reader.Valid, NaturalOrder, Standing, IsBlock, Leads, Underway, Skip, Scan.Valid;
    var left, more := run, true;
    ok, r, k', c', cur' := true, w, k, c, cur;
    while more && k' <= sc.se
      invariant rd.Valid() && rd.Reading(r, c') && MarkerKept(old(rd.unreadMarker), rd.unreadMarker)
      invariant rd.unreadMarker == 0 ==> rd.insufficientData == old(rd.insufficientData)
      invariant c'.s == c.s && c'.ahead == c.ahead
      invariant k <= k' <= sc.se + 1 && IsBlock(cur')
      invariant Standing(block[..], cur', news, k') && Underway(k', a, cur', f)
      invariant Skip(sc, c.s, c'.k, k', left, cur') == Skip(sc, c.s, c.k, k, run, cur)
      invariant !more || k' > sc.se ==> Skip(sc, c.s, c.k, k, run, cur) == Skim(cur', c'.k, k')
      invariant !more && k' <= sc.se ==> cur'[NaturalOrder(k')] == 0
      decreases sc.se + 1 - k', more
    {
      ok, more, r, k', left, c', cur' := SkipCoef(rd, r, sc, k', left, block, c', a, cur', news, f);
      if !ok {
        return;
      }
    }
  }

  lemma StandingBlock(b: seq<int>, cur: seq<int>, news: seq<New>, k: nat)
    requires Standing(b, cur, news, k)
    ensures IsBlock(cur) && |cur| == DCTSIZE2 && b == Overlay(cur, news)
  {}

  lemma StartUnderway(sc: Scan, s: seq<Bit>, pos: nat, k: nat, run: nat, cur: seq<int>, f: seq<int>)
    requires sc.Valid() && k <= sc.se + 1 && IsBlock(cur)
    requires Leads(Skip(sc, s, pos, k, run, cur), f)
    ensures Underway(k, cur, cur, f)
  {
    hide Skip, NaturalOrder, ZigZagNumber;
    SkipKeeps(sc, s, pos, k, run, cur);
    var x := Skip(sc, s, pos, k, run, cur);
    KeptCompose(k, x.k, cur, x.blk, f);
  }

  lemma SkipDone(sc: Scan, s: seq<Bit>, pos: nat, k: nat, left: nat, cur: seq<int>)
    requires sc.Valid() && k <= sc.se + 1 && IsBlock(cur)
    requires k == sc.se + 1 || (cur[NaturalOrder(k)] == 0 && left == 0)
    ensures Skip(sc, s, pos, k, left, cur) == Skim(cur, pos, k)
  {}

  lemma FixUnderway(sc: Scan, s: seq<Bit>, pos: nat, k: nat, left: nat, a: seq<int>, cur: seq<int>, f: seq<int>)
    requires sc.Valid() && k <= sc.se && IsBlock(cur) && cur[NaturalOrder(k)] != 0
    requires Underway(k, a, cur, f)
    requires Leads(Skip(sc, s, pos, k, left, cur), f)
    ensures var fixed := Fix(sc, s, pos, k, cur);
            && Underway(k + 1, a, fixed, f)
            && Skip(sc, s, pos, k, left, cur) == Skip(sc, s, pos + 1, k + 1, left, fixed)
  {
    hide NaturalOrder, ZigZagNumber, Fix;
    var fixed := Fix(sc, s, pos, k, cur);
    FixKeeps(sc, s, pos, k, cur);
    StartUnderway(sc, s, pos + 1, k + 1, left, fixed, f);
  }

  lemma ZeroUnderway(sc: Scan, s: seq<Bit>, pos: nat, k: nat, left: nat, a: seq<int>, cur: seq<int>, f: seq<int>)
    requires sc.Valid() && k <= sc.se && IsBlock(cur) && cur[NaturalOrder(k)] == 0
    requires Underway(k, a, cur, f)
    requires Leads(Skip(sc, s, pos, k, left + 1, cur), f)
    ensures Underway(k + 1, a, cur, f)
    ensures Skip(sc, s, pos, k, left + 1, cur) == Skip(sc, s, pos, k + 1, left, cur)
  {
    hide NaturalOrder, ZigZagNumber, Fix;
    StartUnderway(sc, s, pos, k + 1, left, cur, f);
  }

  // newnz_pos[] lists the places of the new coefficients.
  ghost predicate Noted(newnz: seq<int>, news: seq<New>) {
    && |newnz| == DCTSIZE2
    && |news| <= DCTSIZE2
    && forall j | 0 <= j < |news| :: newnz[j] == news[j].index
  }

  // undoit: re-zero the coefficients that were made non-zero.
  method Undo(block: array<int>, newnz: array<int>, num: nat, ghost cur: seq<int>, ghost news: seq<New>, ghost k: nat)
    requires block.Length == DCTSIZE2 && block != newnz
    requires Standing(block[..], cur, news, k) && Noted(newnz[..], news) && num == |news|
    modifies block
    ensures block[..] == cur
  {
    var n := num;
    forall i | 0 <= i < DCTSIZE2 && block[i] != cur[i] ensures exists j :: 0 <= j < n && newnz[j] == i {
      OverlayDiffers(cur, news, i);
    }
    hide ZigZagNumber, Overlay;
    while n > 0
      invariant 0 <= n <= num
      invariant forall i | 0 <= i < DCTSIZE2 && block[i] != cur[i] :: exists j :: 0 <= j < n && newnz[j] == i
    {
      n := n - 1;
      block[newnz[n]] := 0;
    }
  }

  lemma OverlayDiffers(cur: seq<int>, news: seq<New>, i: Index)
    requires |cur| == DCTSIZE2 && Overlay(cur, news)[i] != cur[i]
    ensures exists j :: 0 <= j < |news| && news[j].index == i
  {
    if forall j | 0 <= j < |news| :: news[j].index != i {
      OverlayElsewhere(cur, news, i);
    }
  }

  // Past the end of the band: one round of the correction loop.
  method TailCoef(rd: Reader, w: Work, sc: Scan, k: nat, block: array<int>,
                  ghost c: Cursor, ghost a: seq<int>, ghost cur: seq<int>, ghost news: seq<New>, ghost f: seq<int>)
    returns (ok: bool, r: Work, k': nat, ghost c': Cursor, ghost cur': seq<int>)
    requires rd.Reading(w, c) && sc.Valid() && k <= sc.se && block.Length == DCTSIZE2
    requires Standing(block[..], cur, news, k) && Underway(k, a, cur, f)
    requires Leads(TailScan(sc, c.s, c.k, k, cur), f)
    modifies rd`unreadMarker, rd`insufficientData, block
    ensures rd.Valid() && MarkerKept(old(rd.unreadMarker), rd.unreadMarker)
    ensures rd.unreadMarker == 0 ==> rd.insufficientData == old(rd.insufficientData)
    ensures IsBlock(cur') && Standing(block[..], cur', news, k') && Underway(k', a, cur', f)
    ensures k' == if ok then k + 1 else k
    ensures !ok ==> rd.Suspended(c.ahead, old(rd.insufficientData))
    ensures ok ==> rd.Reading(r, c') && c'.s == c.s && c'.ahead == c.ahead
    ensures ok ==> TailScan(sc, c.s, c'.k, k', cur') == TailScan(sc, c.s, c.k, k, cur)
  {
    hide Reader.Reading, NaturalOrder, Fix, Fresh, Overlay, Leads, Underway, TailScan, IsBlock;
    ReadingValid(rd, w, c);
    StandingBlock(block[..], cur, news, k);
    ok, r, k', c', cur' := true, w, k, c, cur;
    FreshReads(cur, news, k);
    TailUnderway(sc, c.s, c.k, k, a, cur, f);
    if block[NaturalOrder(k)] != 0 {
      ok, r, c' := FixCoef(rd, r, sc, k, block, c, cur, news);
      if !ok {
        return;
      }
      cur' := Fix(sc, c.s, c.k, k, cur);
    } else {
      FreshWeaken(cur, news, k, k + 1);
    }
    k' := k + 1;
  }

  lemma TailUnderway(sc: Scan, s: seq<Bit>, pos: nat, k: nat, a: seq<int>, cur: seq<int>, f: seq<int>)
    requires sc.Valid() && k <= sc.se && IsBlock(cur) && Underway(k, a, cur, f)
    requires Leads(TailScan(sc, s, pos, k, cur), f)
    ensures if cur[NaturalOrder(k)] != 0 then
              var fixed := Fix(sc, s, pos, k, cur);
              Underway(k + 1, a, fixed, f) && TailScan(sc, s, pos, k, cur) == TailScan(sc, s, pos + 1, k + 1, fixed)
            else
              Underway(k + 1, a, cur, f) && TailScan(sc, s, pos, k, cur) == TailScan(sc, s, pos, k + 1, cur)
  {
    hide NaturalOrder, ZigZagNumber, Fix;
    var next, p := cur, pos;
    if cur[NaturalOrder(k)] != 0 {
      next, p := Fix(sc, s, pos, k, cur), pos + 1;
      FixKeeps(sc, s, pos, k, cur);
    }
    TailKeeps(sc, s, p, k + 1, next);
    var x := TailScan(sc, s, p, k + 1, next);
    KeptCompose(k + 1, x.k, next, x.blk, f);
  }

  method TailRun(rd: Reader, w: Work, sc: Scan, k: nat, block: array<int>,
                 ghost c: Cursor, ghost a: seq<int>, ghost cur: seq<int>, ghost news: seq<New>, ghost f: seq<int>)
    returns (ok: bool, r: Work, ghost k': nat, ghost c': Cursor, ghost cur': seq<int>)
    requires rd.Reading(w, c) && sc.Valid() && k <= sc.se + 1 && block.Length == DCTSIZE2
    requires Standing(block[..], cur, news, k) && Underway(k, a, cur, f)
    requires Leads(TailScan(sc, c.s, c.k, k, cur), f)
    modifies rd`unreadMarker, rd`insufficientData, block
    ensures rd.Valid() && MarkerKept(old(rd.unreadMarker), rd.unreadMarker)
    ensures rd.unreadMarker == 0 ==> rd.insufficientData == old(rd.insufficientData)
    ensures Standing(block[..], cur', news, k') && Underway(k', a, cur', f)
    ensures !ok ==> rd.Suspended(c.ahead, old(rd.insufficientData))
    ensures ok ==> rd.Reading(r, c') && c'.s == c.s && c'.ahead == c.ahead
    ensures ok ==> TailScan(sc, c.s, c.k, k, cur) == Skim(cur', c'.k, sc.se + 1)
  {
    StandingBlock(block[..], cur, news, k);
    ReadingValid(rd, w, c);
    hide Reader.Reading, Reader.Valid, NaturalOrder, Standing, IsBlock, Leads, Underway, TailScan, Scan.Valid;
    ok, r, c', cur' := true, w, c, cur;
    var i := k;
    while i <= sc.se
      invariant rd.Valid() && rd.Reading(r, c') && MarkerKept(old(rd.unreadMarker), rd.unreadMarker)
      invariant rd.unreadMarker == 0 ==> rd.insufficientData == old(rd.insufficientData)
      invariant c'.s == c.s && c'.ahead == c.ahead
      invariant k <= i <= sc.se + 1 && IsBlock(cur')
      invariant Standing(block[..], cur', news, i) && Underway(i, a, cur', f)
      invariant TailScan(sc, c.s, c'.k, i, cur') == TailScan(sc, c.s, c.k, k, cur)
    {
      ok, r, i, c', cur' := TailCoef(rd, r, sc, i, block, c', a, cur', news, f);
      if !ok {
        k' := i;
        return;
      }
    }
    k' := i;
    TailDone(sc, c.s, c'.k, i, cur');
  }

  lemma TailDone(sc: Scan, s: seq<Bit>, pos: nat, k: nat, cur: seq<int>)
    requires sc.Valid() && k == sc.se + 1 && IsBlock(cur)
    ensures TailScan(sc, s, pos, k, cur) == Skim(cur, pos, k)
  {}

  // The new coefficient at the end of a run.  Just past the band it may hit a coefficient
  // that is not zero, but then the band is over and nothing will be undone.
  method PutNew(block: array<int>, newnz: array<int>, num: nat, k: nat, v: int, ghost cur: seq<int>,
                ghost news: seq<New>)
    requires block.Length == DCTSIZE2 && newnz.Length == DCTSIZE2 && block != newnz && k <= DCTSIZE2
    requires Standing(block[..], cur, news, k) && Noted(newnz[..], news) && num == |news|
    modifies block, newnz
    ensures var news' := news + [New(NaturalOrder(k), v)];
            && Noted(newnz[..], news') && block[..] == Overlay(cur, news')
            && (k < DCTSIZE2 && cur[NaturalOrder(k)] == 0 ==> Standing(block[..], cur, news', k + 1))
  {
    OverlayAppends(cur, news, New(NaturalOrder(k), v));
    if k < DCTSIZE2 && cur[NaturalOrder(k)] == 0 {
      FreshAppends(cur, news, k, v);
    }
    hide NaturalOrder, ZigZagNumber, Overlay, IsBlock;
    var i := NaturalOrder(k);
    block[i] := v;
    newnz[num] := i;
  }

  // Where a symbol of the band leads: its corrections stand, up to and with the coefficient after the run.
  ghost predicate EventLeads(e: Event, f: seq<int>) {
    e.Run? ==> RunLeads(e.skim, f)
  }

  // The state after a symbol.
  ghost predicate After(e: Event, k: nat, cur: seq<int>, news: seq<New>,
                        pos': nat, k': nat, cur': seq<int>, news': seq<New>, eobrun: nat) {
    match e
    case EndOfBand(p, run) => pos' == p && k' == k && cur' == cur && news' == news && eobrun == run
    case Run(x, nn) => pos' == x.pos && k' == x.k + 1 && cur' == x.blk && news' == news + nn && eobrun == 0
  }

  // The block in memory, and the guarantee that it can still be taken back.
  ghost predicate Recoverable(b: seq<int>, a: seq<int>, cur: seq<int>, news: seq<New>, k: nat, f: seq<int>) {
    Standing(b, cur, news, k) && Underway(k, a, cur, f)
  }

  // An end-of-band symbol: the length of the run of bands.
  method DecodeEob(rd: Reader, w: Work, run: nat, ghost c: Cursor)
    returns (ok: bool, r: Work, eobrun: nat, ghost c': Cursor)
    requires rd.Reading(w, c) && run < 15
    modifies rd`unreadMarker, rd`insufficientData
    ensures rd.Valid() && MarkerKept(old(rd.unreadMarker), rd.unreadMarker)
    ensures rd.unreadMarker == 0 ==> rd.insufficientData == old(rd.insufficientData)
    ensures !ok ==> rd.Suspended(c.ahead, old(rd.insufficientData))
    ensures ok ==> rd.Reading(r, c') && c'.s == c.s && c'.ahead == c.ahead && c'.k == c.k + run
    ensures ok ==> eobrun == Pow2(run) + Value(c.s, c.k, run)
  {
    ReadingValid(rd, w, c);
    hide Reader.Reading, Pow2;
    ok, r, c', eobrun := true, w, c, Pow2(run);
    if run != 0 {
      hide Value;
      var x;
      ok, x, r, c' := rd.GetBits(w, run, c);
      eobrun := eobrun + x;
    }
  }

  // The end of a run, at coefficient k.
  method EndRun(sc: Scan, k: nat, isNew: bool, v: int, block: array<int>, newnz: array<int>, num: nat,
                ghost a: seq<int>, ghost cur: seq<int>, ghost news: seq<New>, ghost f: seq<int>)
    returns (num': nat, ghost news': seq<New>)
    requires sc.Valid() && k <= sc.se + 1 && (k <= sc.se ==> IsBlock(cur) && cur[NaturalOrder(k)] == 0)
    requires block.Length == DCTSIZE2 && newnz.Length == DCTSIZE2 && block != newnz
    requires Recoverable(block[..], a, cur, news, k, f) && Noted(newnz[..], news) && num == |news|
    requires Kept(k + 1, cur, f)
    modifies block, newnz
    ensures Noted(newnz[..], news') && num' == |news'|
    ensures news' == news + if isNew then [New(NaturalOrder(k), v)] else []
    ensures IsBlock(cur) && block[..] == Overlay(cur, news')
    ensures k <= sc.se ==> Recoverable(block[..], a, cur, news', k + 1, f)
  {
    StandingBlock(block[..], cur, news, k);
    hide NaturalOrder, IsBlock, Standing, Overlay, Underway, Noted, Kept;
    num', news' := num, news;
    if k <= sc.se {
      UnderwayNext(k, a, cur, f);
      StandingNext(block[..], cur, news, k);
    }
    if isNew {
      PutNew(block, newnz, num, k, v, cur, news);
      num', news' := num + 1, news + [New(NaturalOrder(k), v)];
    } else {
      assert news + [] == news;
    }
  }

  // A run, and the new coefficient v (if any) at its end.
  method DecodeRun(rd: Reader, w: Work, sc: Scan, k: nat, run: nat, isNew: bool, v: int, block: array<int>,
                   newnz: array<int>, num: nat,
                   ghost c: Cursor, ghost a: seq<int>, ghost cur: seq<int>, ghost news: seq<New>, ghost f: seq<int>)
    returns (ok: bool, r: Work, k': nat, num': nat, ghost c': Cursor, ghost cur': seq<int>, ghost news': seq<New>)
    requires rd.Reading(w, c) && sc.Valid() && k <= sc.se
    requires block.Length == DCTSIZE2 && newnz.Length == DCTSIZE2 && block != newnz
    requires Recoverable(block[..], a, cur, news, k, f) && IsBlock(cur) && Noted(newnz[..], news) && num == |news|
    requires RunLeads(Skip(sc, c.s, c.k, k, run, cur), f)
    modifies rd`unreadMarker, rd`insufficientData, block, newnz
    ensures rd.Valid() && MarkerKept(old(rd.unreadMarker), rd.unreadMarker)
    ensures rd.unreadMarker == 0 ==> rd.insufficientData == old(rd.insufficientData)
    ensures Noted(newnz[..], news') && num' == |news'| && k <= k' <= sc.se + 2
    ensures !ok ==> rd.Suspended(c.ahead, old(rd.insufficientData)) && k' <= sc.se + 1
    ensures ok ==> rd.Reading(r, c') && c'.s == c.s && c'.ahead == c.ahead
    ensures ok ==> RunAfter(Skip(sc, c.s, c.k, k, run, cur), isNew, v, news, c'.k, k', cur', news')
    ensures IsBlock(cur') && block[..] == Overlay(cur', news')
    ensures k' <= sc.se + 1 ==> Recoverable(block[..], a, cur', news', k', f)
  {
    hide Reader.Reading, Reader.Valid, Scan.Valid, NaturalOrder, IsBlock, Standing, Overlay, Underway, Skip, Noted,
         Kept, Leads, RunLeads;
    RunLeadsFacts(Skip(sc, c.s, c.k, k, run, cur), f);
    num', news' := num, news;
    ok, r, k', c', cur' := SkipRun(rd, w, sc, k, run, block, c, a, cur, news, f);
    StandingBlock(block[..], cur', news, k');
    if !ok {
      return;
    }
    num', news' := EndRun(sc, k', isNew, v, block, newnz, num, a, cur', news, f);
    k' := k' + 1;
  }

  ghost predicate RunLeads(x: Skim, f: seq<int>) {
    Kept(x.k + 1, x.blk, f)
  }

  ghost predicate RunAfter(x: Skim, isNew: bool, v: int, news: seq<New>, pos': nat, k': nat, cur': seq<int>,
                           news': seq<New>) {
    && pos' == x.pos && k' == x.k + 1 && cur' == x.blk
    && news' == news + if isNew then [New(NaturalOrder(x.k), v)] else []
  }

  lemma RunLeadsFacts(x: Skim, f: seq<int>)
    requires RunLeads(x, f)
    ensures Leads(x, f) && Kept(x.k + 1, x.blk, f)
  {}

  lemma StandingNext(b: seq<int>, cur: seq<int>, news: seq<New>, k: nat)
    requires Standing(b, cur, news, k)
    ensures Standing(b, cur, news, k + 1)
  {
    FreshWeaken(cur, news, k, k + 1);
  }

  lemma UnderwayNext(k: nat, a: seq<int>, b: seq<int>, f: seq<int>)
    requires Underway(k, a, b, f) && Kept(k + 1, b, f)
    ensures Underway(k + 1, a, b, f)
  {
    hide ZigZagNumber;
  }

  // What a Huffman symbol and the bits right behind it ask for.
  datatype Symbol = Eob(eobrun: nat) | Advance(run: nat, isNew: bool, v: int)

  // Event e begins with symbol y; pos is the position behind it.
  ghost predicate Begins(e: Event, y: Symbol, sc: Scan, s: seq<Bit>, pos: nat, k: nat, cur: seq<int>)
    requires sc.Valid() && IsBlock(cur) && k <= sc.se
  {
    match y
    case Eob(run) => e == EndOfBand(pos, run)
    case Advance(run, isNew, v) =>
      var x := Skip(sc, s, pos, k, run, cur);
      e == Run(x, if isNew then [New(NaturalOrder(x.k), v)] else [])
  }

  // The three kinds of symbols, by the zero run and the size they name.
  ghost predicate Reads(t: Spec, s: seq<Bit>, pos: nat, len: nat, run: nat, size: nat)
    requires t.Shape() && t.Legal()
  {
    var (l, sym) := t.Decode(s, pos);
    l == len && run == sym / 16 && size == sym % 16
  }

  lemma BeginsEob(t: Spec, sc: Scan, s: seq<Bit>, pos: nat, k: nat, cur: seq<int>, len: nat, run: nat)
    requires t.Shape() && t.Legal() && sc.Valid() && IsBlock(cur) && k <= sc.se
    requires Reads(t, s, pos, len, run, 0) && run != 15
    ensures run < 15
    ensures Begins(NextEvent(t, sc, s, pos, k, cur), Eob(Pow2(run) + Value(s, pos + len, run)), sc, s, pos + len + run,
        k, cur)
  {
    hide Spec.Decode, Spec.Shape, Spec.Legal, Value, Pow2, IsBlock, Skip;
  }

  lemma BeginsZrl(t: Spec, sc: Scan, s: seq<Bit>, pos: nat, k: nat, cur: seq<int>, len: nat)
    requires t.Shape() && t.Legal() && sc.Valid() && IsBlock(cur) && k <= sc.se
    requires Reads(t, s, pos, len, 15, 0)
    ensures Begins(NextEvent(t, sc, s, pos, k, cur), Advance(15, false, 0), sc, s, pos + len, k, cur)
  {
    hide Spec.Decode, Spec.Shape, Spec.Legal, Value, Pow2, IsBlock, Skip;
  }

  lemma BeginsNew(t: Spec, sc: Scan, s: seq<Bit>, pos: nat, k: nat, cur: seq<int>, len: nat, run: nat, size: nat,
                  v: int)
    requires t.Shape() && t.Legal() && sc.Valid() && IsBlock(cur) && k <= sc.se
    requires Reads(t, s, pos, len, run, size) && size != 0
    requires v == if Value(s, pos + len, 1) == 1 then sc.P1() else 0 - sc.P1()
    ensures Begins(NextEvent(t, sc, s, pos, k, cur), Advance(run, true, ToCoef(v)), sc, s, pos + len + 1, k, cur)
  {
    hide Spec.Decode, Spec.Shape, Spec.Legal, Value, Pow2, IsBlock, Skip, NaturalOrder, ToCoef;
  }

  method ReadSymbol(rd: Reader, w: Work, tbl: DerivedTable, ghost c: Cursor)
    returns (ok: bool, run: nat, size: nat, r: Work, ghost c': Cursor)
    requires rd.Reading(w, c) && tbl.Derived()
    requires tbl.pub.Shape() && tbl.pub.Legal()
    modifies rd`unreadMarker, rd`insufficientData
    ensures rd.Valid() && MarkerKept(old(rd.unreadMarker), rd.unreadMarker)
    ensures rd.unreadMarker == 0 ==> rd.insufficientData == old(rd.insufficientData)
    ensures !ok ==> rd.Suspended(c.ahead, old(rd.insufficientData))
    ensures ok ==> rd.Reading(r, c') && c'.s == c.s && c'.ahead == c.ahead && c.k <= c'.k
    ensures ok ==> Reads(tbl.pub, c.s, c.k, c'.k - c.k, run, size)
  {
    hide Reader.Reading, DerivedTable.Derived, Spec.Shape, Spec.Legal, Spec.Decode;
    var sym;
    ok, sym, r, c' := rd.HuffDecode(w, tbl, c);
    run, size := sym / 16, sym % 16;
  }

  // The sign of a new coefficient, and so its value.
  method DecodeSign(rd: Reader, w: Work, sc: Scan, ghost c: Cursor)
    returns (ok: bool, v: int, r: Work, ghost c': Cursor)
    requires rd.Reading(w, c) && sc.Valid()
    modifies rd`unreadMarker, rd`insufficientData
    ensures rd.Valid() && MarkerKept(old(rd.unreadMarker), rd.unreadMarker)
    ensures rd.unreadMarker == 0 ==> rd.insufficientData == old(rd.insufficientData)
    ensures !ok ==> rd.Suspended(c.ahead, old(rd.insufficientData))
    ensures ok ==> rd.Reading(r, c') && c'.s == c.s && c'.ahead == c.ahead && c'.k == c.k + 1
    ensures ok ==> v == if Value(c.s, c.k, 1) == 1 then sc.P1() else 0 - sc.P1()
  {
    P1Positive(sc);
    hide Reader.Reading, Value, Scan.P1;
    var bit;
    ok, bit, r, c' := rd.GetBits(w, 1, c);
    v := if bit == 1 then sc.P1() else 0 - sc.P1();
  }

  method DecodeSymbol(rd: Reader, w: Work, tbl: DerivedTable, sc: Scan, k: nat, ghost c: Cursor, ghost cur: seq<int>)
    returns (ok: bool, y: Symbol, r: Work, ghost c': Cursor)
    requires rd.Reading(w, c) && tbl.Derived() && sc.Valid() && k <= sc.se && IsBlock(cur)
    requires tbl.pub.Shape() && tbl.pub.Legal()
    modifies rd`unreadMarker, rd`insufficientData
    ensures rd.Valid() && MarkerKept(old(rd.unreadMarker), rd.unreadMarker)
    ensures rd.unreadMarker == 0 ==> rd.insufficientData == old(rd.insufficientData)
    ensures !ok ==> rd.Suspended(c.ahead, old(rd.insufficientData))
    ensures ok ==> rd.Reading(r, c') && c'.s == c.s && c'.ahead == c.ahead
    ensures ok ==> Begins(NextEvent(tbl.pub, sc, c.s, c.k, k, cur), y, sc, c.s, c'.k, k, cur)
  {
    hide Reader.Reading, DerivedTable.Derived, NaturalOrder, IsBlock, Skip, Reads, Begins;
    hide Spec.Shape, Spec.Legal, Spec.Decode, NextEvent, Value, Pow2, ToCoef, Scan.Valid, Scan.P1;
    y := Eob(0);
    var run, size;
    ok, run, size, r, c' := ReadSymbol(rd, w, tbl, c);
    if !ok {
      return;
    }
    ghost var len := c'.k - c.k;
    if size != 0 {
      var v;
      ok, v, r, c' := DecodeSign(rd, r, sc, c');
      y := Advance(run, true, ToCoef(v));
      if ok {
        BeginsNew(tbl.pub, sc, c.s, c.k, k, cur, len, run, size, v);
      }
    } else if run != 15 {
      BeginsEob(tbl.pub, sc, c.s, c.k, k, cur, len, run);
      var eobrun;
      ok, r, eobrun, c' := DecodeEob(rd, r, run, c');
      y := Eob(eobrun);
    } else {
      BeginsZrl(tbl.pub, sc, c.s, c.k, k, cur, len);
      y := Advance(run, false, 0);
    }
  }

  // One round of the band loop: a Huffman symbol and what belongs to it.
  method DecodeEvent(rd: Reader, w: Work, tbl: DerivedTable, sc: Scan, k: nat, block: array<int>, newnz: array<int>,
                     num: nat,
                     ghost c: Cursor, ghost a: seq<int>, ghost cur: seq<int>, ghost news: seq<New>, ghost f: seq<int>)
    returns (ok: bool, r: Work, k': nat, num': nat, eobrun: nat, ghost c': Cursor, ghost cur': seq<int>,
      ghost news': seq<New>)
    requires rd.Reading(w, c) && tbl.Derived() && sc.Valid() && k <= sc.se
    requires block.Length == DCTSIZE2 && newnz.Length == DCTSIZE2 && block != newnz
    requires Recoverable(block[..], a, cur, news, k, f) && IsBlock(cur) && Noted(newnz[..], news) && num == |news|
    requires tbl.pub.Shape() && tbl.pub.Legal() && EventLeads(NextEvent(tbl.pub, sc, c.s, c.k, k, cur), f)
    modifies rd`unreadMarker, rd`insufficientData, block, newnz
    ensures rd.Valid() && MarkerKept(old(rd.unreadMarker), rd.unreadMarker)
    ensures rd.unreadMarker == 0 ==> rd.insufficientData == old(rd.insufficientData)
    ensures Noted(newnz[..], news') && num' == |news'| && k <= k' <= sc.se + 2
    ensures !ok ==> rd.Suspended(c.ahead, old(rd.insufficientData)) && k' <= sc.se + 1
    ensures ok ==> rd.Reading(r, c') && c'.s == c.s && c'.ahead == c.ahead
    ensures ok ==> After(NextEvent(tbl.pub, sc, c.s, c.k, k, cur), k, cur, news, c'.k, k', cur', news', eobrun)
    ensures IsBlock(cur') && block[..] == Overlay(cur', news')
    ensures k' <= sc.se + 1 ==> Recoverable(block[..], a, cur', news', k', f)
  {
    RecoverableBlock(block[..], a, cur, news, k, f);
    ReadingValid(rd, w, c);
    hide Reader.Reading, Reader.Valid, DerivedTable.Derived, NaturalOrder, IsBlock, Recoverable, Overlay, Skip, Noted,
         RunLeads;
    hide Spec.Shape, Spec.Legal, Spec.Decode, NextEvent, Value, Pow2, ToCoef, Scan.Valid;
    k', num', eobrun, cur', news' := k, num, 0, cur, news;
    var y;
    ok, y, r, c' := DecodeSymbol(rd, w, tbl, sc, k, c, cur);
    if !ok {
      return;
    }
    match y {
      case Eob(run) =>
        eobrun := run;
      case Advance(run, isNew, v) =>
        ok, r, k', num', c', cur', news' :=
          DecodeRun(rd, r, sc, k, run, isNew, v, block, newnz, num, c', a, cur, news, f);
    }
  }

  lemma RecoverableBlock(b: seq<int>, a: seq<int>, cur: seq<int>, news: seq<New>, k: nat, f: seq<int>)
    requires Recoverable(b, a, cur, news, k, f)
    ensures IsBlock(cur) && b == Overlay(cur, news)
  {}

  // The whole band is what has been done and what a scan from here on adds.
  ghost predicate BandProgress(t: Spec, sc: Scan, s: seq<Bit>, whole: Band,
                               pos: nat, k: nat, cur: seq<int>, news: seq<New>, eobrun: nat)
    requires t.Shape() && t.Legal() && sc.Valid() && IsBlock(cur) && k <= sc.se + 2
  {
    if eobrun > 0 then whole == Band(cur, news, pos, eobrun, k)
    else
      var rest := BandScan(t, sc, s, pos, k, cur);
      whole == Band(rest.blk, news + rest.news, rest.pos, rest.eobrun, rest.k)
  }

  lemma BandReady(t: Spec, sc: Scan, s: seq<Bit>, whole: Band, pos: nat, k: nat, cur: seq<int>, news: seq<New>,
                  f: seq<int>)
    requires t.Shape() && t.Legal() && sc.Valid() && IsBlock(cur) && k <= sc.se
    requires BandProgress(t, sc, s, whole, pos, k, cur, news, 0) && Kept(whole.k, whole.blk, f)
    ensures EventLeads(NextEvent(t, sc, s, pos, k, cur), f)
  {
    hide NextEvent, Kept, IsBlock, Untouched, SameZeros, Spec.Legal, Spec.Shape;
    var e := NextEvent(t, sc, s, pos, k, cur);
    if e.Run? {
      var x := e.skim;
      BandKeeps(t, sc, s, x.pos, x.k + 1, x.blk);
      KeptCompose(x.k + 1, whole.k, x.blk, whole.blk, f);
    }
  }

  lemma BandRound(t: Spec, sc: Scan, s: seq<Bit>, whole: Band, pos: nat, k: nat, cur: seq<int>, news: seq<New>,
                  pos': nat, k': nat, cur': seq<int>, news': seq<New>, eobrun: nat)
    requires t.Shape() && t.Legal() && sc.Valid() && IsBlock(cur) && k <= sc.se
    requires BandProgress(t, sc, s, whole, pos, k, cur, news, 0)
    requires After(NextEvent(t, sc, s, pos, k, cur), k, cur, news, pos', k', cur', news', eobrun)
    ensures IsBlock(cur') && k' <= sc.se + 2 && BandProgress(t, sc, s, whole, pos', k', cur', news', eobrun)
  {
    hide NextEvent, IsBlock, Spec.Legal, Spec.Shape;
    var e := NextEvent(t, sc, s, pos, k, cur);
    if e.EndOfBand? {
      assert news + [] == news;
    } else {
      var rest := BandScan(t, sc, s, e.skim.pos, e.skim.k + 1, e.skim.blk);
      ConcatAssoc(news, e.news, rest.news);
    }
  }

  lemma BandEnds(t: Spec, sc: Scan, s: seq<Bit>, whole: Band, pos: nat, k: nat, cur: seq<int>, news: seq<New>)
    requires t.Shape() && t.Legal() && sc.Valid() && IsBlock(cur) && sc.se < k <= sc.se + 2
    requires BandProgress(t, sc, s, whole, pos, k, cur, news, 0)
    ensures whole == Band(cur, news, pos, 0, k)
  {
    assert news + [] == news;
  }

  lemma BandStarts(t: Spec, sc: Scan, s: seq<Bit>, pos: nat, k: nat, cur: seq<int>)
    requires t.Shape() && t.Legal() && sc.Valid() && IsBlock(cur) && k <= sc.se
    ensures BandProgress(t, sc, s, BandScan(t, sc, s, pos, k, cur), pos, k, cur, [], 0)
  {
    assert [] + BandScan(t, sc, s, pos, k, cur).news == BandScan(t, sc, s, pos, k, cur).news;
  }

  // The band loop.
  method DecodeBand(rd: Reader, w: Work, tbl: DerivedTable, sc: Scan, k: nat, block: array<int>, newnz: array<int>,
                    ghost c: Cursor, ghost a: seq<int>, ghost f: seq<int>)
    returns (ok: bool, r: Work, k': nat, num: nat, eobrun: nat, ghost c': Cursor, ghost cur: seq<int>,
      ghost news: seq<New>)
    requires rd.Reading(w, c) && tbl.Derived() && sc.Valid() && k <= sc.se
    requires block.Length == DCTSIZE2 && newnz.Length == DCTSIZE2 && block != newnz
    requires Recoverable(block[..], a, a, [], k, f) && IsBlock(a) && Noted(newnz[..], [])
    requires tbl.pub.Shape() && tbl.pub.Legal()
    requires var whole := BandScan(tbl.pub, sc, c.s, c.k, k, a); Kept(whole.k, whole.blk, f)
    modifies rd`unreadMarker, rd`insufficientData, block, newnz
    ensures rd.Valid() && MarkerKept(old(rd.unreadMarker), rd.unreadMarker)
    ensures rd.unreadMarker == 0 ==> rd.insufficientData == old(rd.insufficientData)
    ensures Noted(newnz[..], news) && num == |news| && k <= k' <= sc.se + 2
    ensures !ok ==> rd.Suspended(c.ahead, old(rd.insufficientData)) && k' <= sc.se + 1
    ensures ok ==> rd.Reading(r, c') && c'.s == c.s && c'.ahead == c.ahead
    ensures ok ==> BandScan(tbl.pub, sc, c.s, c.k, k, a) == Band(cur, news, c'.k, eobrun, k')
    ensures IsBlock(cur) && block[..] == Overlay(cur, news)
    ensures k' <= sc.se + 1 ==> Recoverable(block[..], a, cur, news, k', f)
  {
    RecoverableBlock(block[..], a, a, [], k, f);
    ReadingValid(rd, w, c);
    BandStarts(tbl.pub, sc, c.s, c.k, k, a);
    hide Reader.Reading, Reader.Valid, DerivedTable.Derived, IsBlock, Recoverable, Overlay, Noted, EventLeads, After,
         Kept;
    hide Spec.Shape, Spec.Legal, NextEvent, Scan.Valid, BandProgress, BandScan;
    ghost var whole := BandScan(tbl.pub, sc, c.s, c.k, k, a);
    ok, r, k', num, eobrun, c', cur, news := true, w, k, 0, 0, c, a, [];
    while k' <= sc.se && eobrun == 0
      invariant rd.Valid() && rd.Reading(r, c') && MarkerKept(old(rd.unreadMarker), rd.unreadMarker)
      invariant rd.unreadMarker == 0 ==> rd.insufficientData == old(rd.insufficientData)
      invariant c'.s == c.s && c'.ahead == c.ahead
      invariant k <= k' <= sc.se + 2 && IsBlock(cur) && block[..] == Overlay(cur, news)
      invariant Noted(newnz[..], news) && num == |news|
      invariant k' <= sc.se + 1 ==> Recoverable(block[..], a, cur, news, k', f)
      invariant BandProgress(tbl.pub, sc, c.s, whole, c'.k, k', cur, news, eobrun)
      decreases sc.se + 2 - k', eobrun == 0
    {
      ghost var pos, at, before, found := c'.k, k', cur, news;
      BandReady(tbl.pub, sc, c.s, whole, pos, at, before, found, f);
      ok, r, k', num, eobrun, c', cur, news := DecodeEvent(rd, r, tbl, sc, k', block, newnz, num, c', a, cur, news, f);
      if !ok {
        return;
      }
      BandRound(tbl.pub, sc, c.s, whole, pos, at, before, found, c'.k, k', cur, news, eobrun);
      EventMoves(tbl.pub, sc, c.s, pos, at, before, found, c'.k, k', cur, news, eobrun);
    }
    BandDone(tbl.pub, sc, c.s, whole, c'.k, k', cur, news, eobrun);
  }

  lemma EventMoves(t: Spec, sc: Scan, s: seq<Bit>, pos: nat, k: nat, cur: seq<int>, news: seq<New>,
                   pos': nat, k': nat, cur': seq<int>, news': seq<New>, eobrun: nat)
    requires t.Shape() && t.Legal() && sc.Valid() && IsBlock(cur) && k <= sc.se
    requires After(NextEvent(t, sc, s, pos, k, cur), k, cur, news, pos', k', cur', news', eobrun)
    ensures eobrun > 0 || k' > k
  {
    hide NextEvent, IsBlock, Spec.Legal, Spec.Shape;
  }

  lemma BandDone(t: Spec, sc: Scan, s: seq<Bit>, whole: Band, pos: nat, k: nat, cur: seq<int>, news: seq<New>,
                 eobrun: nat)
    requires t.Shape() && t.Legal() && sc.Valid() && IsBlock(cur) && k <= sc.se + 2 && (k > sc.se || eobrun > 0)
    requires BandProgress(t, sc, s, whole, pos, k, cur, news, eobrun)
    ensures whole == Band(cur, news, pos, eobrun, k)
  {
    if eobrun == 0 {
      BandEnds(t, sc, s, whole, pos, k, cur, news);
    }
  }

  // Where the corrections of a block lead: the band first, then the tail.
  lemma RefineLeads(t: Spec, sc: Scan, ss: nat, s: seq<Bit>, a: seq<int>, eobrun: nat)
    requires t.Shape() && t.Legal() && sc.Valid() && IsBlock(a) && 1 <= ss <= sc.se
    ensures var f := Refine(t, sc, ss, s, a, eobrun).blk;
            var b := if eobrun == 0 then BandScan(t, sc, s, 0, ss, a) else Band(a, [], 0, eobrun, ss);
            && Refine(t, sc, ss, s, a, eobrun) == Finish(sc, s, b)
            && Kept(b.k, b.blk, f) && Underway(ss, a, a, f)
            && (b.eobrun > 0 ==> b.k <= sc.se && Leads(TailScan(sc, s, b.pos, b.k, b.blk), f))
  {
    hide BandScan, TailScan, IsBlock, SameZeros, Spec.Shape, Spec.Legal, ZigZagNumber;
    var b := if eobrun == 0 then BandScan(t, sc, s, 0, ss, a) else Band(a, [], 0, eobrun, ss);
    BandKeeps(t, sc, s, 0, ss, a);
    var f := Refine(t, sc, ss, s, a, eobrun).blk;
    SelfZeros(a);
    if b.eobrun > 0 {
      TailKeeps(sc, s, b.pos, b.k, b.blk);
    }
    assert ss <= b.k;
    KeptCompose(ss, b.k, a, b.blk, f);
  }

  lemma SelfZeros(a: seq<int>)
    ensures SameZeros(a, a)
  {}

  // The corrections and new coefficients of one block, from loading to saving the working state.
  method RefineBlock(rd: Reader, w: Work, tbl: DerivedTable, sc: Scan, ss: nat, eobrun: nat, block: array<int>,
                     ghost c: Cursor)
    returns (ok: bool, r: Work, eobrun': nat, ghost c': Cursor)
    requires rd.Reading(w, c) && c.k == 0 && tbl.Derived() && tbl.pub.Shape() && tbl.pub.Legal()
    requires sc.Valid() && 1 <= ss <= sc.se && block.Length == DCTSIZE2 && IsBlock(block[..])
    modifies rd`unreadMarker, rd`insufficientData, block
    ensures rd.Valid() && MarkerKept(old(rd.unreadMarker), rd.unreadMarker)
    ensures rd.unreadMarker == 0 ==> rd.insufficientData == old(rd.insufficientData)
    ensures !ok ==> rd.Suspended(c.ahead, old(rd.insufficientData)) && IsBlock(block[..])
    ensures !ok ==> Partial(old(block[..]), block[..], Refine(tbl.pub, sc, ss, c.s, old(block[..]), eobrun).blk)
    ensures ok ==> rd.Reading(r, c') && c'.s == c.s && c'.ahead == c.ahead
    ensures ok ==> var x := Refine(tbl.pub, sc, ss, c.s, old(block[..]), eobrun);
                   block[..] == Overlay(x.blk, x.news) && c'.k == x.pos && eobrun' == x.eobrun
  {
    hide Reader.Reading, Reader.Valid, DerivedTable.Derived, IsBlock, Noted, Kept, Leads, Underway;
    hide Spec.Shape, Spec.Legal, Scan.Valid, BandScan, TailScan, Refine;
    ghost var a := block[..];
    ghost var f := Refine(tbl.pub, sc, ss, c.s, a, eobrun).blk;
    RefineLeads(tbl.pub, sc, ss, c.s, a, eobrun);
    StartStanding(a, ss);
    var newnz := new int[DCTSIZE2];
    NothingNoted(newnz[..]);
    var k, num := ss, 0;
    ghost var cur: seq<int>, news: seq<New>;
    ok, r, eobrun', c', cur, news := true, w, eobrun, c, a, [];
    if eobrun == 0 {
      ok, r, k, num, eobrun', c', cur, news := DecodeBand(rd, r, tbl, sc, ss, block, newnz, c, a, f);
    }
    if ok && eobrun' > 0 {
      ghost var k';
      ok, r, k', c', cur := TailRun(rd, r, sc, k, block, c', a, cur, news, f);
      eobrun' := eobrun' - 1;
      if !ok {
        TakeBack(block, newnz, num, a, cur, news, k', f);
      }
    } else if !ok {
      TakeBack(block, newnz, num, a, cur, news, k, f);
    }
  }

  method TakeBack(block: array<int>, newnz: array<int>, num: nat, ghost a: seq<int>, ghost cur: seq<int>,
                  ghost news: seq<New>,
                  ghost k: nat, ghost f: seq<int>)
    requires block.Length == DCTSIZE2 && block != newnz
    requires Standing(block[..], cur, news, k) && Underway(k, a, cur, f) && Noted(newnz[..], news) && num == |news|
    modifies block
    ensures IsBlock(block[..]) && Partial(a, block[..], f)
  {
    hide Noted, Underway;
    UnderwayIsPartial(k, a, cur, f);
    Undo(block, newnz, num, cur, news, k);
  }

  lemma StartStanding(a: seq<int>, k: nat)
    requires IsBlock(a) && k > 0
    ensures Standing(a, a, [], k)
  {}

  lemma NothingNoted(newnz: seq<int>)
    requires |newnz| == DCTSIZE2
    ensures Noted(newnz, [])
  {}

  // ---- the decoder object ----

  // The decoder's state as the stream sees it: the segment ahead, the restart counter, and
  // the number of blocks still covered by an end-of-band run.
  datatype ScanState = ScanState(seg: Segment, restartsToGo: nat, eobrun: nat)

  // The state in which the next block is refined: past the restart marker if one is due.
  function AfterRestart(d: seq<Byte>, interval: nat, l: ScanState): Option<ScanState> {
    if interval == 0 || l.restartsToGo != 0 then Some(l)
    else
      match NextSegment(d, l.seg)
      case None => None
      case Some(seg) => Some(ScanState(seg, interval, 0))
  }

  // One refined block and the state after it, given all the bits of the segment.
  function RefineStep(t: Spec, sc: Scan, ss: nat, l: ScanState, blk: seq<int>): (seq<int>, ScanState)
    requires t.Shape() && t.Legal() && sc.Valid() && IsBlock(blk) && 1 <= ss <= sc.se
  {
    var togo := (l.restartsToGo - 1) % BUF_MODULUS;
    if l.seg.insufficient then (blk, l.(restartsToGo := togo))
    else
      var x := Refine(t, sc, ss, l.seg.bits, blk, l.eobrun);
      (Overlay(x.blk, x.news), ScanState(Consume(l.seg, x.pos), togo, x.eobrun))
  }

  // One call, as a function of stream, state and block alone.  None: the stream lacks a restart marker.
  function Step(d: seq<Byte>, interval: nat, t: Spec, sc: Scan, ss: nat, l: ScanState, blk: seq<int>)
    : Option<(seq<int>, ScanState)>
    requires t.Shape() && t.Legal() && sc.Valid() && IsBlock(blk) && 1 <= ss <= sc.se
  {
    match AfterRestart(d, interval, l)
    case None => None
    case Some(m) => Some(RefineStep(t, sc, ss, m, blk))
  }

  // The segment the next block belongs to is closed by a marker.
  predicate Closed(d: seq<Byte>, interval: nat, l: ScanState) {
    var m := AfterRestart(d, interval, l);
    m.Some? && m.value.seg.ahead.Some?
  }

  class RefineDecoder {
    const reader: Reader
    const tbl: DerivedTable
    const ss: nat
    const scan: Scan
    const restartInterval: nat
    var restartsToGo: nat
    var eobrun: nat

    ghost predicate Valid()
      reads this, reader
    {
      && reader.Valid()
      && tbl.Derived() && tbl.pub.Shape() && tbl.pub.Legal()
      && scan.Valid() && 1 <= ss <= scan.se
      && restartInterval < BUF_MODULUS
    }

    ghost function Abs(): ScanState
      reads this, reader
    {
      ScanState(reader.Seg(), restartsToGo, eobrun)
    }

    // What a call comes to when all the input is there.
    ghost function Goal(blk: seq<int>): Option<(seq<int>, ScanState)>
      requires Valid() && IsBlock(blk)
      reads this, reader
    {
      Step(reader.data, restartInterval, tbl.pub, scan, ss, Abs(), blk)
    }

    // start_pass_phuff_decoder for an AC refinement scan, once the table is built.
    constructor (reader: Reader, tbl: DerivedTable, ss: nat, scan: Scan, restartInterval: nat)
      requires reader.Valid() && tbl.Derived() && tbl.pub.Shape() && tbl.pub.Legal()
      requires scan.Valid() && 1 <= ss <= scan.se && restartInterval < BUF_MODULUS
      modifies reader`getBuffer, reader`bitsLeft, reader`insufficientData
      ensures Valid() && this.reader == reader && this.tbl == tbl && this.ss == ss && this.scan == scan
      ensures this.restartInterval == restartInterval
      ensures Abs() == ScanState(Segment(PastBuffer(reader.data, reader.Load(), reader.unreadMarker),
                                         Ahead(reader.data, reader.pos, reader.unreadMarker), false,
                                           reader.nextRestartNum),
                                 restartInterval, 0)
    {
      this.reader, this.tbl, this.ss, this.scan := reader, tbl, ss, scan;
      this.restartInterval, restartsToGo, eobrun := restartInterval, restartInterval, 0;
      new;
      reader.getBuffer, reader.bitsLeft, reader.insufficientData := 0, 0, false;
      EmptyBuffer(reader.data, reader.Load(), reader.unreadMarker);
    }

    // process_restart: resynchronise at the marker, forget the end-of-band run, reset the counter.
    method ProcessRestart() returns (ok: bool)
      requires Valid() && restartInterval != 0 && restartsToGo == 0
      modifies this`restartsToGo, this`eobrun, reader`pos, reader`discardedBytes, reader`unreadMarker
      modifies reader`nextRestartNum, reader`bitsLeft, reader`insufficientData
      ensures Valid()
      ensures ok ==>
          AfterRestart(reader.data, restartInterval, old(Abs())) == Some(Abs()) && restartsToGo == restartInterval
      ensures !ok ==> restartsToGo == 0 && eobrun == old(eobrun)
                      && AfterRestart(reader.data, restartInterval, Abs())
                        == AfterRestart(reader.data, restartInterval, old(Abs()))
      ensures !ok && reader.avail == |reader.data| ==> AfterRestart(reader.data, restartInterval, Abs()).None?
    {
      hide Reader.Seg, NextSegment, DerivedTable.Derived, Spec.Shape, Spec.Legal;
      ok := reader.Restart();
      if !ok {
        return;
      }
      eobrun := 0;
      restartsToGo := restartInterval;
    }

    // The part of decode_mcu_AC_refine between loading and saving the working state.
    method RefineSegmentBlock(block: array<int>) returns (ok: bool)
      requires Valid() && !reader.insufficientData && block.Length == DCTSIZE2 && IsBlock(block[..])
      modifies this`eobrun, reader`pos, reader`unreadMarker, reader`getBuffer, reader`bitsLeft, reader`insufficientData,
          block
      ensures Valid()
      ensures ok ==> var g := RefineStep(tbl.pub, scan, ss, old(Abs()), old(block[..]));
                     block[..] == g.0 && Abs().(restartsToGo := g.1.restartsToGo) == g.1
      ensures !ok ==> reader.Load() == old(reader.Load()) && Abs() == old(Abs())
      ensures !ok ==> IsBlock(block[..])
                      && Partial(old(block[..]), block[..],
                        Refine(tbl.pub, scan, ss, Abs().seg.bits, old(block[..]), eobrun).blk)
      ensures !ok && reader.avail == |reader.data| ==> Abs().seg.ahead.None?
    {
      hide Reader.Reading, Refine, IsBlock, Partial, Pending, Ahead, Consume, DerivedTable.Derived, Spec.Shape,
           Spec.Legal;
      reader.Loaded();
      ghost var l := Abs();
      var w, run;
      ghost var c;
      ok, w, run, c := RefineBlock(reader, reader.Load(), tbl, scan, ss, eobrun, block, StartOf(l.seg));
      if !ok {
        return;
      }
      reader.Save(w, l.seg, c);
      eobrun := run;
    }

    // decode_mcu_AC_refine.  A true result is one Step; after a false one, the block and the
    // state are such that a retry still comes to that same Step.
    method DecodeMcu(block: array<int>) returns (ok: bool)
      requires Valid() && block.Length == DCTSIZE2 && IsBlock(block[..])
      modifies this`restartsToGo, this`eobrun, reader`pos, reader`discardedBytes, reader`unreadMarker
      modifies reader`nextRestartNum, reader`getBuffer, reader`bitsLeft, reader`insufficientData, block
      ensures Valid()
      ensures ok ==> old(Goal(block[..])) == Some((block[..], Abs()))
      ensures ok && old(eobrun) > 0 && (restartInterval == 0 || old(restartsToGo) != 0)
              && !old(reader.insufficientData) ==>
                && eobrun == old(eobrun) - 1
                && Abs().seg == Consume(old(Abs()).seg, NonZeros(old(block[..]), ss, scan.se + 1))
                && forall i | 0 <= i < DCTSIZE2 && old(block[i]) == 0 :: block[i] == 0
      ensures !ok ==> IsBlock(block[..]) && Goal(block[..]) == old(Goal(block[..]))
      ensures !ok ==> Closed(reader.data, restartInterval, Abs()) == Closed(reader.data, restartInterval, old(Abs()))
      ensures !ok && (restartInterval == 0 || old(restartsToGo) != 0) ==>
                reader.Load() == old(reader.Load()) && Abs() == old(Abs())
      ensures !ok ==> forall i | 0 <= i < DCTSIZE2 && old(block[i]) == 0 :: block[i] == 0
      ensures !ok && reader.avail == |reader.data| ==> !Closed(reader.data, restartInterval, Abs())
    {
      hide Reader.Seg, Refine, Reader.Valid, DerivedTable.Derived, Spec.Shape, Spec.Legal, RefineStep;
      ghost var blk, start := block[..], Abs();
      ok := true;
      if restartInterval != 0 && restartsToGo == 0 {
        ok := ProcessRestart();
        if !ok {
          return;
        }
      }
      ghost var here := Abs();
      assert AfterRestart(reader.data, restartInterval, start) == Some(here);
      SegFlag(reader);
      StepCases(tbl.pub, scan, ss, here, blk);
      if eobrun > 0 && !reader.insufficientData {
        StepOfRun(tbl.pub, scan, ss, here, blk);
      }
      if !reader.insufficientData {
        ok := RefineSegmentBlock(block);
        if !ok {
          StepRetried(tbl.pub, scan, ss, here, blk, block[..]);
          return;
        }
      }
      restartsToGo := (restartsToGo - 1) % BUF_MODULUS;
    }

    // decode_mcu_AC_refine under an arbitrary sequence of deliveries: after each suspended call
    // the application hands over some more bytes and calls again.  The block and the state come
    // out as those of one call with all the input at hand, and they do come out in the end.
    method DecodeMcuInPieces(block: array<int>, deliveries: seq<nat>) returns (ok: bool, used: nat)
      requires Valid() && block.Length == DCTSIZE2 && IsBlock(block[..])
      modifies this`restartsToGo, this`eobrun, reader, block
      ensures Valid() && used <= |deliveries|
      ensures ok ==> old(Goal(block[..])) == Some((block[..], Abs()))
      ensures !ok && reader.avail == |reader.data| ==> !Closed(reader.data, restartInterval, old(Abs()))
    {
      hide Step, IsBlock, Closed, Pending, Ahead, DerivedTable.Derived, Spec.Shape, Spec.Legal;
      ghost var goal, closed := Goal(block[..]), Closed(reader.data, restartInterval, Abs());
      used := 0;
      while true
        invariant used <= |deliveries| && Valid() && IsBlock(block[..])
        invariant Goal(block[..]) == goal && Closed(reader.data, restartInterval, Abs()) == closed
        decreases |deliveries| - used
      {
        ok := DecodeMcu(block);
        if ok || used == |deliveries| {
          return;
        }
        reader.Deliver(deliveries[used]);
        used := used + 1;
      }
    }

    // One block of a scan, fetched from the coefficient array.
    method RefineNext(blk: seq<int>, deliveries: seq<nat>) returns (ok: bool, used: nat, out: seq<int>)
      requires Valid() && IsBlock(blk)
      modifies this`restartsToGo, this`eobrun, reader
      ensures Valid() && used <= |deliveries|
      ensures ok ==> old(Goal(blk)) == Some((out, Abs()))
      ensures !ok && reader.avail == |reader.data| ==> !Closed(reader.data, restartInterval, old(Abs()))
    {
      hide Step, Closed, Reader.Seg, Pending, Ahead, DerivedTable.Derived, Spec.Shape, Spec.Legal;
      var block := new int[DCTSIZE2](i requires 0 <= i < DCTSIZE2 => blk[i]);
      assert block[..] == blk;
      ok, used := DecodeMcuInPieces(block, deliveries);
      out := block[..];
    }

    // A whole run of blocks under one arbitrary sequence of deliveries: wherever input runs out,
    // in whichever block, what comes out is what the stream alone makes of the blocks.
    method RefineBlocksInPieces(blks: seq<seq<int>>, deliveries: seq<nat>) returns (ok: bool, out: seq<seq<int>>)
      requires Valid() && forall k | 0 <= k < |blks| :: IsBlock(blks[k])
      modifies this`restartsToGo, this`eobrun, reader
      ensures Valid() && |out| <= |blks| && (ok <==> |out| == |blks|)
      ensures var steps := Steps(reader.data, restartInterval, tbl.pub, scan, ss, old(Abs()), blks[..|out|]);
        && steps.Some? && steps.value.0 == out
        && (ok ==> steps.value.1 == Abs())
        && (!ok && reader.avail == |reader.data| ==> !Closed(reader.data, restartInterval, steps.value.1))
    {
      hide Step, Closed, Reader.Seg, IsBlock, Pending, Ahead, DerivedTable.Derived, Spec.Shape, Spec.Legal;
      ghost var start := Abs();
      ok, out := true, [];
      var next: nat := 0;
      while |out| < |blks|
        invariant |out| <= |blks| && next <= |deliveries| && Valid()
        invariant Steps(reader.data, restartInterval, tbl.pub, scan, ss, start, blks[..|out|]) == Some((out, Abs()))
        decreases |blks| - |out|
      {
        var used, b;
        ok, used, b := RefineNext(blks[|out|], deliveries[next..]);
        if !ok {
          return;
        }
        assert blks[..|out| + 1][..|out|] == blks[..|out|];
        next, out := next + used, out + [b];
      }
      ok := true;
    }
  }

  // Blocks one after the other, as a function of stream, state and blocks alone.
  function Steps(d: seq<Byte>, interval: nat, t: Spec, sc: Scan, ss: nat, l: ScanState, blks: seq<seq<int>>):
      (r: Option<(seq<seq<int>>, ScanState)>)
    requires t.Shape() && t.Legal() && sc.Valid() && 1 <= ss <= sc.se && forall k | 0 <= k < |blks| :: IsBlock(blks[k])
    ensures r.Some? ==> |r.value.0| == |blks|
  {
    if |blks| == 0 then Some(([], l))
    else
      var n := |blks| - 1;
      match Steps(d, interval, t, sc, ss, l, blks[..n])
      case None => None
      case Some(before) =>
        match Step(d, interval, t, sc, ss, before.1, blks[n])
        case None => None
        case Some(s) => Some((before.0 + [s.0], s.1))
  }

  lemma StepCases(t: Spec, sc: Scan, ss: nat, l: ScanState, blk: seq<int>)
    requires t.Shape() && t.Legal() && sc.Valid() && IsBlock(blk) && 1 <= ss <= sc.se
    ensures RefineStep(t, sc, ss, l, blk).1.restartsToGo == (l.restartsToGo - 1) % BUF_MODULUS
    ensures l.seg.insufficient ==>
        RefineStep(t, sc, ss, l, blk) == (blk, l.(restartsToGo := (l.restartsToGo - 1) % BUF_MODULUS))
  {}

  // A block that an end-of-band run covers.
  lemma StepOfRun(t: Spec, sc: Scan, ss: nat, l: ScanState, blk: seq<int>)
    requires t.Shape() && t.Legal() && sc.Valid() && IsBlock(blk) && 1 <= ss <= sc.se
    requires l.eobrun > 0 && !l.seg.insufficient
    ensures var r := RefineStep(t, sc, ss, l, blk);
            && r.1.eobrun == l.eobrun - 1 && r.1.seg == Consume(l.seg, NonZeros(blk, ss, sc.se + 1))
            && |r.0| == DCTSIZE2 && forall i | 0 <= i < DCTSIZE2 && blk[i] == 0 :: r.0[i] == 0
  {
    hide Refine, Consume, Kept, Untouched;
    RunCovers(t, sc, ss, l.seg.bits, blk, l.eobrun);
    RefineKeeps(t, sc, ss, l.seg.bits, blk, l.eobrun);
  }

  lemma StepRetried(t: Spec, sc: Scan, ss: nat, l: ScanState, a: seq<int>, b: seq<int>)
    requires t.Shape() && t.Legal() && sc.Valid() && IsBlock(a) && IsBlock(b) && 1 <= ss <= sc.se
    requires !l.seg.insufficient && Partial(a, b, Refine(t, sc, ss, l.seg.bits, a, l.eobrun).blk)
    ensures RefineStep(t, sc, ss, l, b) == RefineStep(t, sc, ss, l, a)
  {
    hide Refine, IsBlock;
    RefineRetry(t, sc, ss, l.seg.bits, a, b, l.eobrun);
  }
}
