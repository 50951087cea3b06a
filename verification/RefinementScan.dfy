/**
  Whole AC refinement scans: blocks encoded one after the other, with end-of-band runs of any
  choice, packed into segments with a restart marker after every interval, are decoded to the
  refined blocks, however the stream is delivered.
  */
module RefinementScan {
  import opened BitStrings
  import opened EntropyStream
  import opened EntropyWriter
  import opened HuffmanCode
  import opened HuffmanTable
  import opened HuffmanEncoder
  import opened BitReader
  import opened Coefficients
  import opened Refinement
  import opened RefinementEncoder
  import opened ProgressiveDecoder
  import opened Options

  // ---- the blocks of a segment ----

  // A block before and after the scan; the end-of-band run to be written if one begins here.
  datatype Job = Job(before: Block, after: Block, run: nat)

  // Table and parameters of a scan.
  datatype Setting = Setting(t: Spec, sc: Scan, ss: nat) {
    predicate Valid() {
      t.Shape() && t.Legal() && sc.Valid() && sc.P1() > 0 && 1 <= ss <= sc.se
    }
  }

  predicate RunsPositive(jobs: seq<Job>) {
    forall k | 0 <= k < |jobs| :: jobs[k].run > 0
  }

  // How many blocks behind these are covered by a run.
  function Left(x: Setting, jobs: seq<Job>): nat
    requires x.Valid() && RunsPositive(jobs)
  {
    if jobs == [] then 0
    else
      var n := |jobs| - 1;
      LeftAfter(x.sc, x.ss, jobs[n].before, jobs[n].after, Left(x, jobs[..n]), jobs[n].run)
  }

  predicate JobsCoded(x: Setting, jobs: seq<Job>)
    requires x.Valid() && RunsPositive(jobs)
  {
    jobs == [] ||
    var n := |jobs| - 1;
    JobsCoded(x, jobs[..n])
    && BlockCoded(x.t, x.sc, x.ss, jobs[n].before, jobs[n].after, Left(x, jobs[..n]), jobs[n].run)
  }

  function JobBits(x: Setting, job: Job, left: nat): seq<Bit>
    requires x.Valid() && job.run > 0 && BlockCoded(x.t, x.sc, x.ss, job.before, job.after, left, job.run)
  {
    Bits(x.t, BlockItems(x.sc, x.ss, job.before, job.after, left, job.run))
  }

  function JobsBits(x: Setting, jobs: seq<Job>): seq<Bit>
    requires x.Valid() && RunsPositive(jobs) && JobsCoded(x, jobs)
  {
    if jobs == [] then []
    else
      var n := |jobs| - 1;
      JobsBits(x, jobs[..n]) + JobBits(x, jobs[n], Left(x, jobs[..n]))
  }

  function Befores(jobs: seq<Job>): (r: seq<seq<int>>)
    ensures |r| == |jobs| && forall k | 0 <= k < |r| :: IsBlock(r[k])
  {
    seq(|jobs|, k requires 0 <= k < |jobs| => jobs[k].before)
  }

  function Afters(jobs: seq<Job>): (r: seq<seq<int>>)
    ensures |r| == |jobs|
  {
    seq(|jobs|, k requires 0 <= k < |jobs| => jobs[k].after)
  }

  lemma BeforesSlice(jobs: seq<Job>, n: nat)
    requires n <= |jobs|
    ensures Befores(jobs)[..n] == Befores(jobs[..n]) && Befores(jobs)[n..] == Befores(jobs[n..])
    ensures Afters(jobs) == Afters(jobs[..n]) + Afters(jobs[n..])
  {}

  lemma LastJob(jobs: seq<Job>)
    requires jobs != []
    ensures var n := |jobs| - 1;
            && Befores(jobs)[..n] == Befores(jobs[..n]) && Befores(jobs)[n] == jobs[n].before
            && Afters(jobs) == Afters(jobs[..n]) + [jobs[n].after]
  {}

  // One block, with other bits behind it.
  lemma JobReads(d: seq<Byte>, x: Setting, interval: nat, l: ScanState, job: Job, rest: seq<Bit>)
    requires x.Valid() && job.run > 0 && BlockCoded(x.t, x.sc, x.ss, job.before, job.after, l.eobrun, job.run)
    requires l.seg.bits == JobBits(x, job, l.eobrun) + rest
    requires !l.seg.insufficient && (interval == 0 || 0 < l.restartsToGo < BUF_MODULUS)
    ensures var st := Step(d, interval, x.t, x.sc, x.ss, l, job.before);
            && st.Some? && st.value.0 == job.after
            && var m := st.value.1;
               && m.seg == l.seg.(bits := rest)
               && m.eobrun == LeftAfter(x.sc, x.ss, job.before, job.after, l.eobrun, job.run)
               && (interval != 0 ==> m.restartsToGo == l.restartsToGo - 1)
  {
    hide Bits, BlockItems, BlockCoded, Refine, LeftAfter, Overlay, IsBlock, Setting.Valid;
    SettingParts(x);
    var bits := JobBits(x, job, l.eobrun);
    assert (bits + rest)[0..0 + |bits|] == bits && (bits + rest)[|bits|..] == rest;
    BlockReads(x.t, x.sc, x.ss, l.seg.bits, job.before, job.after, l.eobrun, job.run);
  }

  lemma SettingParts(x: Setting)
    requires x.Valid()
    ensures x.t.Shape() && x.t.Legal() && x.sc.Valid() && x.sc.P1() > 0 && 1 <= x.ss <= x.sc.se
  {}

  // The state after some blocks of a segment.
  ghost predicate Inside(l: ScanState, m: ScanState, interval: nat, n: nat) {
    && m.seg.ahead == l.seg.ahead && m.seg.restartNum == l.seg.restartNum
    && !m.seg.insufficient && (interval != 0 ==> m.restartsToGo == l.restartsToGo - n)
  }

  // Steps over the first n of some blocks.
  function Run(d: seq<Byte>, x: Setting, interval: nat, l: ScanState, blks: seq<seq<int>>, n: nat):
      (r: Option<(seq<seq<int>>, ScanState)>)
    requires x.Valid() && n <= |blks| && forall k | 0 <= k < |blks| :: IsBlock(blks[k])
    ensures r.Some? ==> |r.value.0| == n
  {
    Steps(d, interval, x.t, x.sc, x.ss, l, blks[..n])
  }

  lemma RunNext(d: seq<Byte>, x: Setting, interval: nat, l: ScanState, blks: seq<seq<int>>, n: nat)
    requires x.Valid() && n < |blks| && forall k | 0 <= k < |blks| :: IsBlock(blks[k])
    ensures Run(d, x, interval, l, blks, 0) == Some(([], l))
    ensures var before := Run(d, x, interval, l, blks, n);
            Run(d, x, interval, l, blks, n + 1) ==
              if before.None? then None
              else
                var s := Step(d, interval, x.t, x.sc, x.ss, before.value.1, blks[n]);
                if s.None? then None else Some((before.value.0 + [s.value.0], s.value.1))
  {
    hide Step, IsBlock;
    assert blks[..n + 1][..n] == blks[..n];
  }

  lemma RunStarts(d: seq<Byte>, x: Setting, interval: nat, l: ScanState, blks: seq<seq<int>>)
    requires x.Valid() && forall k | 0 <= k < |blks| :: IsBlock(blks[k])
    ensures Run(d, x, interval, l, blks, 0) == Some(([], l))
  {}

  lemma {:induction false} RunPrefix(d: seq<Byte>, x: Setting, interval: nat, l: ScanState, blks: seq<seq<int>>, m: nat,
                                     n: nat)
    requires x.Valid() && n <= m <= |blks| && forall k | 0 <= k < |blks| :: IsBlock(blks[k])
    ensures Run(d, x, interval, l, blks[..m], n) == Run(d, x, interval, l, blks, n)
  {
    hide Steps, IsBlock;
    assert blks[..m][..n] == blks[..n];
  }

  lemma {:induction false} SegmentSteps(d: seq<Byte>, x: Setting, interval: nat, l: ScanState, jobs: seq<Job>,
                                        rest: seq<Bit>)
    requires x.Valid() && RunsPositive(jobs) && JobsCoded(x, jobs) && l.seg.bits == JobsBits(x, jobs) + rest
    requires l.eobrun == 0 && !l.seg.insufficient && (interval == 0 || |jobs| <= l.restartsToGo < BUF_MODULUS)
    ensures var st := Run(d, x, interval, l, Befores(jobs), |jobs|);
            && st.Some? && st.value.0 == Afters(jobs)
            && var m := st.value.1;
               Inside(l, m, interval, |jobs|) && m.seg.bits == rest && m.eobrun == Left(x, jobs)
    ensures forall j | 0 <= j <= |jobs| ::
              var st := Run(d, x, interval, l, Befores(jobs), j); st.Some? && Inside(l, st.value.1, interval, j)
    decreases |jobs|
  {
    hide JobBits, BlockCoded, Step, Run, Setting.Valid, LeftAfter, IsBlock, Befores, Afters;
    if jobs == [] {
      RunStarts(d, x, interval, l, Befores(jobs));
      assert [] + rest == rest;
      NoAfters();
    } else {
      var n := |jobs| - 1;
      var front := jobs[..n];
      var last := JobBits(x, jobs[n], Left(x, front));
      ConcatAssoc(JobsBits(x, front), last, rest);
      SegmentSteps(d, x, interval, l, front, last + rest);
      LastJob(jobs);
      forall j | 0 <= j <= n
        ensures Run(d, x, interval, l, Befores(jobs), j) == Run(d, x, interval, l, Befores(front), j)
      {
        RunPrefix(d, x, interval, l, Befores(jobs), n, j);
      }
      var before := Run(d, x, interval, l, Befores(jobs), n).value;
      JobReads(d, x, interval, before.1, jobs[n], rest);
      RunNext(d, x, interval, l, Befores(jobs), n);
    }
  }

  lemma NoAfters()
    ensures Afters([]) == []
  {}

  // ---- the segments of a scan ----

  predicate SegmentCoded(x: Setting, jobs: seq<Job>)
    requires x.Valid()
  {
    RunsPositive(jobs) && JobsCoded(x, jobs)
  }

  function SegmentBytes(x: Setting, jobs: seq<Job>): seq<Byte>
    requires x.Valid() && SegmentCoded(x, jobs)
  {
    Stuff(Pack(JobsBits(x, jobs)))
  }

  // Every segment is coded for itself; no run goes on behind a restart marker.
  predicate ScanCoded(x: Setting, interval: nat, jobs: seq<Job>)
    requires x.Valid()
    decreases |jobs|
  {
    var n := FirstPart(interval, |jobs|);
    SegmentCoded(x, jobs[..n]) && (n < |jobs| ==> ScanCoded(x, interval, jobs[n..]))
  }

  function ScanBytes(x: Setting, interval: nat, jobs: seq<Job>, num: nat): seq<Byte>
    requires x.Valid() && ScanCoded(x, interval, jobs) && num < 8
    decreases |jobs|
  {
    var n := FirstPart(interval, |jobs|);
    var segment := SegmentBytes(x, jobs[..n]);
    if n == |jobs| then segment
    else segment + (RestartBytes(num) + ScanBytes(x, interval, jobs[n..], (num + 1) % 8))
  }

  function StateAt(d: seq<Byte>, pos: nat, togo: nat, num: nat): ScanState {
    ScanState(Segment(DataBits(d, pos), FirstMarker(d, pos), false, num), togo, 0)
  }

  lemma {:induction false} RunsCompose(d: seq<Byte>, x: Setting, interval: nat, l: ScanState, blks: seq<seq<int>>,
                                       m: nat, n: nat)
    requires x.Valid() && m + n <= |blks| && forall k | 0 <= k < |blks| :: IsBlock(blks[k])
    requires Run(d, x, interval, l, blks, m).Some?
    ensures var before := Run(d, x, interval, l, blks, m).value;
            var after := Run(d, x, interval, before.1, blks[m..], n);
            Run(d, x, interval, l, blks, m + n)
            == if after.None? then None else Some((before.0 + after.value.0, after.value.1))
    decreases n
  {
    hide Step, IsBlock, Run;
    var before := Run(d, x, interval, l, blks, m).value;
    if n == 0 {
      RunStarts(d, x, interval, before.1, blks[m..]);
      assert before.0 + [] == before.0;
    } else {
      RunsCompose(d, x, interval, l, blks, m, n - 1);
      RunNext(d, x, interval, l, blks, m + (n - 1));
      RunNext(d, x, interval, before.1, blks[m..], n - 1);
      assert blks[m..][n - 1] == blks[m + (n - 1)];
      var mid := Run(d, x, interval, before.1, blks[m..], n - 1);
      if mid.Some? {
        var s := Step(d, interval, x.t, x.sc, x.ss, mid.value.1, blks[m + (n - 1)]);
        if s.Some? {
          ConcatAssoc(before.0, mid.value.0, [s.value.0]);
        }
      }
    }
  }

  lemma StepAfterRestart(d: seq<Byte>, x: Setting, interval: nat, l: ScanState, m: ScanState, blk: seq<int>)
    requires x.Valid() && IsBlock(blk)
    requires AfterRestart(d, interval, l) == Some(m) && AfterRestart(d, interval, m) == Some(m)
    ensures Step(d, interval, x.t, x.sc, x.ss, l, blk) == Step(d, interval, x.t, x.sc, x.ss, m, blk)
  {
    hide AfterRestart, RefineStep;
  }

  // A restart that is due may be taken before counting the steps.
  lemma {:induction false} RunAfterRestart(d: seq<Byte>, x: Setting, interval: nat, l: ScanState, m: ScanState,
                                           blks: seq<seq<int>>, n: nat)
    requires x.Valid() && 1 <= n <= |blks| && forall k | 0 <= k < |blks| :: IsBlock(blks[k])
    requires AfterRestart(d, interval, l) == Some(m) && AfterRestart(d, interval, m) == Some(m)
    ensures Run(d, x, interval, l, blks, n) == Run(d, x, interval, m, blks, n)
    decreases n
  {
    hide AfterRestart, Step, IsBlock, Run;
    RunNext(d, x, interval, l, blks, n - 1);
    RunNext(d, x, interval, m, blks, n - 1);
    if n > 1 {
      RunAfterRestart(d, x, interval, l, m, blks, n - 1);
    } else {
      StepAfterRestart(d, x, interval, l, m, blks[0]);
    }
  }

  // At every block the segment that it belongs to is closed.
  ghost predicate AllClosed(d: seq<Byte>, x: Setting, interval: nat, l: ScanState, blks: seq<seq<int>>, n: nat)
    requires x.Valid() && n <= |blks| && forall k | 0 <= k < |blks| :: IsBlock(blks[k])
  {
    forall j | 0 <= j < n ::
      var st := Run(d, x, interval, l, blks, j); st.Some? && Closed(d, interval, st.value.1)
  }

  lemma InsideClosed(d: seq<Byte>, x: Setting, interval: nat, l: ScanState, blks: seq<seq<int>>, n: nat)
    requires x.Valid() && n <= |blks| && forall k | 0 <= k < |blks| :: IsBlock(blks[k])
    requires l.seg.ahead.Some? && (interval == 0 || n <= l.restartsToGo)
    requires forall j | 0 <= j <= n ::
               var st := Run(d, x, interval, l, blks, j); st.Some? && Inside(l, st.value.1, interval, j)
    ensures AllClosed(d, x, interval, l, blks, n)
  {
    hide Run, NextSegment, IsBlock, Setting.Valid;
  }

  lemma FirstSegment(d: seq<Byte>, pos: nat, x: Setting, interval: nat, jobs: seq<Job>, togo: nat, num: nat, code: Byte,
                     after: nat)
    requires x.Valid() && SegmentCoded(x, jobs)
    requires BytesAt(d, pos, SegmentBytes(x, jobs)) && MarkerAt(d, pos + |SegmentBytes(x, jobs)|, code, after)
    requires interval == 0 || |jobs| <= togo < BUF_MODULUS
    ensures var l := StateAt(d, pos, togo, num);
            var st := Run(d, x, interval, l, Befores(jobs), |jobs|);
            && st.Some? && st.value.0 == Afters(jobs) && Inside(l, st.value.1, interval, |jobs|)
            && l.seg.ahead == Some(Marker(code, after)) && AllClosed(d, x, interval, l, Befores(jobs), |jobs|)
  {
    hide JobsBits, Run, JobsCoded, RunsPositive, AllClosed, Setting.Valid, IsBlock, Befores, Afters;
    var bits := JobsBits(x, jobs);
    var pad := SegmentReads(d, pos, bits, code, after);
    var l := StateAt(d, pos, togo, num);
    SegmentSteps(d, x, interval, l, jobs, Ones(pad));
    InsideClosed(d, x, interval, l, Befores(jobs), |jobs|);
  }

  lemma RestartTaken(d: seq<Byte>, pos: nat, interval: nat, togo: nat, num: nat, m: ScanState, next: nat)
    requires num < 8 && interval != 0 && Inside(StateAt(d, pos, togo, num), m, interval, togo)
    requires FirstMarker(d, pos) == Some(Marker(M_RST0 + num, next))
    ensures AfterRestart(d, interval, m) == Some(StateAt(d, next, interval, (num + 1) % 8))
  {
    hide DataBits, FirstMarker;
  }

  lemma NotDue(d: seq<Byte>, pos: nat, interval: nat, num: nat)
    requires interval != 0
    ensures var l := StateAt(d, pos, interval, num); AfterRestart(d, interval, l) == Some(l)
  {}

  // What a scan comes to: the refined blocks, with every segment closed.
  ghost predicate Decodes(d: seq<Byte>, x: Setting, interval: nat, l: ScanState, jobs: seq<Job>)
    requires x.Valid()
  {
    var st := Run(d, x, interval, l, Befores(jobs), |jobs|);
    st.Some? && st.value.0 == Afters(jobs) && AllClosed(d, x, interval, l, Befores(jobs), |jobs|)
  }

  // Decoding a scan gives the refined blocks, restart markers passed.
  lemma {:induction false} ScanRoundTrip(d: seq<Byte>, pos: nat, x: Setting, interval: nat, jobs: seq<Job>, togo: nat,
                                         num: nat, code: Byte, after: nat)
    requires x.Valid() && ScanCoded(x, interval, jobs) && num < 8
    requires BytesAt(d, pos, ScanBytes(x, interval, jobs, num))
    requires MarkerAt(d, pos + |ScanBytes(x, interval, jobs, num)|, code, after)
    requires interval < BUF_MODULUS && (interval != 0 ==> togo == interval)
    ensures Decodes(d, x, interval, StateAt(d, pos, togo, num), jobs)
    decreases |jobs|
  {
    hide SegmentBytes, SegmentCoded, Run, AllClosed, BytesAt, MarkerAt, Setting.Valid, IsBlock, Befores, Afters;
    hide StateAt;
    var n := FirstPart(interval, |jobs|);
    if n == |jobs| {
      assert jobs[..n] == jobs;
      FirstSegment(d, pos, x, interval, jobs, togo, num, code, after);
    } else {
      RestartedScan(d, pos, x, interval, jobs, num, code, after, n);
    }
  }

  lemma {:induction false} RestartedScan(d: seq<Byte>, pos: nat, x: Setting, interval: nat, jobs: seq<Job>, num: nat,
                                         code: Byte, after: nat, n: nat)
    requires x.Valid() && ScanCoded(x, interval, jobs) && num < 8
    requires BytesAt(d, pos, ScanBytes(x, interval, jobs, num))
    requires MarkerAt(d, pos + |ScanBytes(x, interval, jobs, num)|, code, after)
    requires interval < BUF_MODULUS && interval != 0 && n == FirstPart(interval, |jobs|) < |jobs|
    ensures Decodes(d, x, interval, StateAt(d, pos, interval, num), jobs)
    decreases |jobs|, 0
  {
    hide SegmentBytes, SegmentCoded, Run, AllClosed, BytesAt, MarkerAt, Inside, AfterRestart, RestartBytes, Decodes,
         Setting.Valid, IsBlock, Befores, Afters, StateAt;
    var front, rest := jobs[..n], jobs[n..];
    var segment, marker := SegmentBytes(x, front), RestartBytes(num);
    var tail := ScanBytes(x, interval, rest, (num + 1) % 8);
    BytesBoth(d, pos, segment, marker + tail);
    BytesBoth(d, pos + |segment|, marker, tail);
    RestartMarker(d, pos + |segment|, num);
    var next := pos + |segment| + 2;
    FirstSegment(d, pos, x, interval, front, interval, num, M_RST0 + num, next);
    ScanRoundTrip(d, next, x, interval, rest, interval, (num + 1) % 8, code, after);
    AheadOf(d, pos, interval, num);
    JoinScan(d, pos, x, interval, jobs, num, n, next);
  }

  lemma AheadOf(d: seq<Byte>, pos: nat, togo: nat, num: nat)
    ensures StateAt(d, pos, togo, num).seg.ahead == FirstMarker(d, pos)
  {}

  // A segment and the rest of the scan.
  lemma JoinScan(d: seq<Byte>, pos: nat, x: Setting, interval: nat, jobs: seq<Job>, num: nat, n: nat, next: nat)
    requires x.Valid() && num < 8 && n == interval != 0 && n < |jobs|
    requires FirstMarker(d, pos) == Some(Marker(M_RST0 + num, next))
    requires var l := StateAt(d, pos, interval, num);
             var st := Run(d, x, interval, l, Befores(jobs[..n]), n);
             && st.Some? && st.value.0 == Afters(jobs[..n]) && Inside(l, st.value.1, interval, n)
             && AllClosed(d, x, interval, l, Befores(jobs[..n]), n)
    requires Decodes(d, x, interval, StateAt(d, next, interval, (num + 1) % 8), jobs[n..])
    ensures Decodes(d, x, interval, StateAt(d, pos, interval, num), jobs)
  {
    hide Run, AfterRestart, Inside, StateAt, AllClosed, Setting.Valid, IsBlock, Befores, Afters;
    var l, l' := StateAt(d, pos, interval, num), StateAt(d, next, interval, (num + 1) % 8);
    var blks := Befores(jobs);
    BeforesSlice(jobs, n);
    RunPrefix(d, x, interval, l, blks, n, n);
    var m := Run(d, x, interval, l, blks, n).value.1;
    RestartTaken(d, pos, interval, interval, num, m, next);
    NotDue(d, next, interval, (num + 1) % 8);
    var k := |jobs| - n;
    RunAfterRestart(d, x, interval, m, l', blks[n..], k);
    RunsCompose(d, x, interval, l, blks, n, k);
    assert n + k == |jobs|;
    JoinClosed(d, x, interval, l, m, l', blks, n, k);
  }

  lemma JoinClosed(d: seq<Byte>, x: Setting, interval: nat, l: ScanState, m: ScanState, l': ScanState,
                   blks: seq<seq<int>>, n: nat, k: nat)
    requires x.Valid() && n + k == |blks| && forall i | 0 <= i < |blks| :: IsBlock(blks[i])
    requires Run(d, x, interval, l, blks, n).Some? && Run(d, x, interval, l, blks, n).value.1 == m
    requires AfterRestart(d, interval, m) == Some(l') && AfterRestart(d, interval, l') == Some(l')
    requires AllClosed(d, x, interval, l, blks[..n], n) && AllClosed(d, x, interval, l', blks[n..], k)
    ensures AllClosed(d, x, interval, l, blks, n + k)
  {
    hide Run, AfterRestart, Closed, Setting.Valid, IsBlock;
    forall j | 0 <= j < n + k
      ensures Run(d, x, interval, l, blks, j).Some? && Closed(d, interval, Run(d, x, interval, l, blks, j).value.1)
    {
      if j >= n {
        ClosedAfter(d, x, interval, m, l', blks[n..], j - n);
        RunsCompose(d, x, interval, l, blks, n, j - n);
        assert n + (j - n) == j;
      } else {
        RunPrefix(d, x, interval, l, blks, n, j);
      }
    }
  }

  lemma ClosedAfter(d: seq<Byte>, x: Setting, interval: nat, m: ScanState, l: ScanState, blks: seq<seq<int>>, j: nat)
    requires x.Valid() && j <= |blks| && forall i | 0 <= i < |blks| :: IsBlock(blks[i])
    requires AfterRestart(d, interval, m) == Some(l) && AfterRestart(d, interval, l) == Some(l)
    requires var st := Run(d, x, interval, l, blks, j); st.Some? && Closed(d, interval, st.value.1)
    ensures var st := Run(d, x, interval, m, blks, j); st.Some? && Closed(d, interval, st.value.1)
  {
    if j > 0 {
      RunAfterRestart(d, x, interval, m, l, blks, j);
    } else {
      RunStarts(d, x, interval, m, blks);
      RunStarts(d, x, interval, l, blks);
    }
  }

  // ---- the decoder ----

  // The decoder, started where an encoded scan begins, refines the blocks as they were encoded, over
  // any cut of the stream into deliveries, and comes to the end once everything has arrived.
  method DecodeEncodedScan(rd: Reader, tbl: DerivedTable, ss: nat, sc: Scan, interval: nat, blks: seq<seq<int>>,
                           deliveries: seq<nat>, ghost jobs: seq<Job>, ghost code: Byte, ghost after: nat)
    returns (ok: bool, out: seq<seq<int>>)
    requires rd.Valid() && rd.unreadMarker == 0 && tbl.Derived() && interval < BUF_MODULUS
    requires Setting(tbl.pub, sc, ss).Valid() && blks == Befores(jobs)
    requires ScanCoded(Setting(tbl.pub, sc, ss), interval, jobs)
    requires var bytes := ScanBytes(Setting(tbl.pub, sc, ss), interval, jobs, rd.nextRestartNum);
             BytesAt(rd.data, rd.pos, bytes) && MarkerAt(rd.data, rd.pos + |bytes|, code, after)
    modifies rd
    ensures ok ==> out == Afters(jobs)
    ensures rd.avail == |rd.data| ==> ok
  {
    hide Step, Closed, Reader.Seg, ScanCoded, ScanBytes, BytesAt, MarkerAt, Pending, AllClosed, DerivedTable.Derived,
         IsBlock, Spec.Shape, Spec.Legal, Befores, Afters;
    ghost var d, pos, num, x := rd.data, rd.pos, rd.nextRestartNum, Setting(tbl.pub, sc, ss);
    var dec := new RefineDecoder(rd, tbl, ss, sc, interval);
    ghost var l := dec.Abs();
    StartState(d, rd.Load(), interval, num);
    assert l == StateAt(d, pos, interval, num);
    ScanRoundTrip(d, pos, x, interval, jobs, interval, num, code, after);
    ok, out := dec.RefineBlocksInPieces(blks, deliveries);
    assert blks[..|blks|] == blks;
    if !ok {
      ClosedAt(d, x, interval, l, blks, |blks|, |out|);
    }
  }

  lemma ClosedAt(d: seq<Byte>, x: Setting, interval: nat, l: ScanState, blks: seq<seq<int>>, n: nat, j: nat)
    requires x.Valid() && n <= |blks| && forall i | 0 <= i < |blks| :: IsBlock(blks[i])
    requires AllClosed(d, x, interval, l, blks, n) && j < n
    ensures var st := Steps(d, interval, x.t, x.sc, x.ss, l, blks[..j]); st.Some? && Closed(d, interval, st.value.1)
  {
    assert Run(d, x, interval, l, blks, j) == Steps(d, interval, x.t, x.sc, x.ss, l, blks[..j]);
  }

  lemma StartState(d: seq<Byte>, w: Work, togo: nat, num: nat)
    ensures ScanState(Segment(PastBuffer(d, w, 0), Ahead(d, w.pos, 0), false, num), togo, 0)
         == StateAt(d, w.pos, togo, num)
  {}
}
