/**
  The main buffer controller of the decompressor with context rows (jdmainct.c): it takes
  iMCU rows of M row groups from the coefficient controller and hands row groups, with the
  rows above and below them, to the postprocessor.

  Row groups handed over are recorded, with everything the postprocessor can see of them,
  in the ghost field `out`.  How many row groups a call of the postprocessor consumes, when
  its output buffer is full and when input is missing are parameters of each call, so a
  sequence of calls covers all output buffer sizes and all suspensions.
  */
module MainController {
  import opened Arithmetic
  import opened ContextRows

  // The image as the controller counts it: row groups per iMCU row, iMCU rows, row groups.
  datatype Image = Image(m: nat, imcuRows: nat, groups: nat) {
    predicate Valid() {
      && m >= 2 && imcuRows >= 1
      && (imcuRows - 1) * m < groups <= imcuRows * m
    }

    // A component whose rows fill these row groups.
    predicate Fits(c: Shape) {
      c.Valid() && c.imcu == m * c.g && c.g * (groups - 1) < c.h <= c.g * groups
    }

    // Row groups of the last iMCU row.
    function LastGroups(): int {
      groups - (imcuRows - 1) * m
    }

    // Row group j lies in the last iMCU row.
    predicate InLastRow(j: nat) {
      j >= (imcuRows - 1) * m
    }
  }

  lemma RowsHanded(m: nat, rows: nat, groups: nat, n: nat)
    requires m >= 2 && (rows - 1) * m < groups && 1 <= n <= rows
    ensures 0 <= (n - 1) * m < groups
    ensures n < rows ==> 0 < (n - 1) * m + m == n * m < groups
  {
    ProductMonotone(m, 0, n - 1);
    ProductMonotone(m, n - 1, rows - 1);
    if n < rows {
      ProductMonotone(m, n, rows - 1);
    }
  }

  // Every iMCU row begins inside the image; those before the last lie entirely in it.
  lemma RowsInside(im: Image, c: Shape, k: nat)
    requires im.Valid() && im.Fits(c) && k < im.imcuRows
    ensures k * c.imcu < c.h
    ensures k + 1 < im.imcuRows ==> (k + 1) * c.imcu < c.h
  {
    RowStart(im, c, k);
    if k + 1 < im.imcuRows {
      RowStart(im, c, k + 1);
    }
  }

  lemma RowStart(im: Image, c: Shape, k: nat)
    requires im.Valid() && im.Fits(c) && k < im.imcuRows
    ensures k * c.imcu == c.g * (k * im.m) < c.h
  {
    ProductAssoc(k, im.m, c.g);
    ProductAssoc(c.g, k, im.m);
    ProductMonotone(im.m, k, im.imcuRows - 1);
    ProductMonotone(c.g, k * im.m, im.groups - 1);
  }

  lemma LastRowsIs(c: Shape, k: nat)
    requires c.Valid() && k * c.imcu < c.h <= k * c.imcu + c.imcu
    ensures c.LastRows() == c.RowsLeft(k)
  {
    var r := c.h - k * c.imcu;
    if r == c.imcu {
      assert c.imcu * (k + 1) == k * c.imcu + c.imcu;
      QuotientIs(c.h, c.imcu, k + 1);
    } else {
      QuotientIs(c.h, c.imcu, k);
    }
  }

  lemma LastBounds(im: Image, c: Shape)
    requires im.Valid() && im.Fits(c)
    ensures 1 <= im.LastGroups() <= im.m
    ensures var r := c.RowsLeft(im.imcuRows - 1);
            c.g * (im.LastGroups() - 1) < r <= c.g * im.LastGroups() && 1 <= r <= c.imcu
  {
    var k, last := im.imcuRows - 1, im.LastGroups();
    RowStart(im, c, k);
    assert c.g * (im.groups - k * im.m) == c.g * im.groups - c.g * (k * im.m);
    ProductMonotone(c.g, last, im.m);
  }

  // The count of row groups in set_bottom_pointers is the same for each component.
  lemma LastRowsOf(im: Image, c: Shape)
    requires im.Valid() && im.Fits(c)
    ensures c.LastRows() == c.RowsLeft(im.imcuRows - 1)
    ensures (c.LastRows() - 1) / c.g + 1 == im.LastGroups()
  {
    LastBounds(im, c);
    LastRowsIs(c, im.imcuRows - 1);
    QuotientIs(c.LastRows() - 1, c.g, im.LastGroups() - 1);
  }

  lemma LastGroupStarts(im: Image, c: Shape, q: nat)
    requires im.Valid() && im.Fits(c) && q < im.LastGroups()
    ensures c.g * q < c.RowsLeft(im.imcuRows - 1)
  {
    LastBounds(im, c);
    ProductMonotone(c.g, q, im.LastGroups() - 1);
  }

  // Row group q seen through list l is row group j of the image, in context.
  ghost predicate Presents(im: Image, c: Shape, s: Snap, l: nat, q: nat, j: nat) {
    Viewable(c, s.X(l), s.buf, q) && InContext(c, im.InLastRow(j), j, View(c, s.X(l), s.buf, q))
  }

  lemma ArrivedPresents(im: Image, c: Shape, s: Snap, l: nat, k: nat, q: nat)
    requires im.Valid() && im.Fits(c) && l <= 1 && k + 1 < im.imcuRows && q + 1 < im.m
    requires s.Arrived(c, l, k)
    ensures Presents(im, c, s, l, q, k * im.m + q)
  {
    RowsInside(im, c, k);
    InnerGroup(c, l, s.X(l), s.buf, k, im.m, q);
    NotLast(im, k, q);
  }

  lemma NotLast(im: Image, k: nat, q: nat)
    requires im.Valid() && k + 1 < im.imcuRows && q < im.m
    ensures !im.InLastRow(k * im.m + q)
  {
    ProductMonotone(im.m, k + 1, im.imcuRows - 1);
  }

  lemma PostponedPlace(im: Image, c: Shape, k: nat)
    requires im.Valid() && im.Fits(c) && 0 < k < im.imcuRows
    ensures k * im.m >= 1 && !im.InLastRow(k * im.m - 1)
    ensures c.Valid() && c.imcu == im.m * c.g && k * c.imcu <= c.h && im.m >= 2
  {
    RowsInside(im, c, k);
    ProductMonotone(im.m, 1, k);
    ProductMonotone(im.m, k, im.imcuRows - 1);
  }

  lemma PostponedPresents(im: Image, c: Shape, s: Snap, l: nat, k: nat)
    requires im.Valid() && im.Fits(c) && l <= 1 && 0 < k < im.imcuRows
    requires s.Arrived(c, l, k)
    ensures k * im.m >= 1
    ensures Presents(im, c, s, l, im.m + 1, k * im.m - 1)
  {
    hide Shape.Wrapped, Shape.Holding, View, InContext, Viewable, Image.Valid, Image.Fits, Image.InLastRow, Shape.Valid;
    PostponedPlace(im, c, k);
    PostponedGroup(c, l, s.X(l), s.buf, k, im.m);
  }

  lemma EndingPresents(im: Image, c: Shape, s: Snap, l: nat, k: nat, q: nat, j: nat)
    requires im.Valid() && im.Fits(c) && l <= 1 && q < im.LastGroups() && k == im.imcuRows - 1 && j == k * im.m + q
    requires s.Ending(c, l, k)
    ensures Presents(im, c, s, l, q, j)
  {
    hide Snap.Ending, Viewable, InContext, View, Image.Fits, Image.Valid, Shape.Valid, Shape.LastRows, Shape.RowsLeft,
         Image.InLastRow;
    LastPlace(im, c, k, q);
    EndingGroup(c, s, l, k, im.m, q);
  }

  lemma EndingGroup(c: Shape, s: Snap, l: nat, k: nat, m: nat, q: nat)
    requires c.Valid() && c.imcu == m * c.g && l <= 1 && k * c.imcu <= c.h && s.Ending(c, l, k)
    requires c.LastRows() == c.RowsLeft(k) && c.g * q < c.LastRows()
    ensures Viewable(c, s.X(l), s.buf, q) && InContext(c, true, k * m + q, View(c, s.X(l), s.buf, q))
  {
    hide Shape.Holding, Shape.Bottom, Shape.Top, Shape.Wrapped, Viewable, InContext, View;
    var before :| s.EndedFrom(c, l, k, before);
    BottomGroup(c, l, s.X(l), before, s.buf, k, m, c.LastRows(), q);
  }

  lemma LastPlace(im: Image, c: Shape, k: nat, q: nat)
    requires im.Valid() && im.Fits(c) && q < im.LastGroups() && k == im.imcuRows - 1
    ensures im.InLastRow(k * im.m + q) && c.Valid() && c.imcu == im.m * c.g && k * c.imcu <= c.h
    ensures c.LastRows() == c.RowsLeft(k) && 1 <= c.LastRows() <= c.imcu && c.g * q < c.LastRows()
  {
    RowsInside(im, c, k);
    LastRowsOf(im, c);
    LastGroupStarts(im, c, q);
  }

  ghost predicate Apart(a: Strip, b: Strip) {
    && a.buffer != b.buffer && a.buffer != b.xbuffer0 && a.buffer != b.xbuffer1
    && a.xbuffer0 != b.buffer && a.xbuffer0 != b.xbuffer0 && a.xbuffer0 != b.xbuffer1
    && a.xbuffer1 != b.buffer && a.xbuffer1 != b.xbuffer0 && a.xbuffer1 != b.xbuffer1
  }

  datatype ContextState = PrepareForIMCU | ProcessIMCU | PostponedRow

  class MainController {
    const im: Image
    const comps: seq<Strip>
    var bufferFull: bool
    var rowgroupCtr: nat
    var whichptr: nat
    var contextState: ContextState
    var rowgroupsAvail: nat
    var iMCURowCtr: nat
    ghost var out: seq<seq<seq<int>>>   // row groups handed over: for each component, the rows in view

    ghost predicate Static() {
      && im.Valid()
      && |comps| > 0
      && (forall i | 0 <= i < |comps| :: comps[i].Valid() && im.Fits(comps[i].c))
      && (forall i, j | 0 <= i < |comps| && 0 <= j < |comps| && i != j :: Apart(comps[i], comps[j]))
    }

    ghost function Arrays(): set<array<int>> {
      (set i | 0 <= i < |comps| :: comps[i].buffer)
      + (set i | 0 <= i < |comps| :: comps[i].xbuffer0)
      + (set i | 0 <= i < |comps| :: comps[i].xbuffer1)
    }

    ghost predicate AllAtTop()
      reads Arrays()
    {
      forall i | 0 <= i < |comps| :: comps[i].Now().AtTop(comps[i].c)
    }

    ghost predicate AllArrived(l: nat, k: nat)
      requires Static()
      reads Arrays()
    {
      forall i | 0 <= i < |comps| :: comps[i].Now().Arrived(comps[i].c, l, k)
    }

    // iMCU row k has been fed through list l; the lists now suit any later one, and the other list
    // has its last two row groups behind the rows it is to receive.
    ghost predicate AllFed(l: nat, k: nat)
      requires Static()
      reads Arrays()
    {
      forall i | 0 <= i < |comps| ::
        l <= 1 && comps[i].Now().Inside(comps[i].c) && comps[i].c.Trailing(1 - l, comps[i].Now().buf, k + 1)
    }

    ghost predicate AllEnding(l: nat, k: nat)
      requires Static()
      reads Arrays()
    {
      forall i | 0 <= i < |comps| :: comps[i].Now().Ending(comps[i].c, l, k)
    }

    // Row group j as handed over, for every component.
    ghost predicate GroupInContext(j: nat, v: seq<seq<int>>) {
      |v| == |comps| && forall i | 0 <= i < |comps| :: InContext(comps[i].c, im.InLastRow(j), j, v[i])
    }

    // The row groups of the current iMCU row are on their way to the postprocessor.
    ghost predicate Feeding()
      requires Static()
      reads this, Arrays()
    {
      var n := iMCURowCtr;
      && 1 <= n <= im.imcuRows && bufferFull && whichptr == (n - 1) % 2 && rowgroupCtr <= rowgroupsAvail
      && |out| == (n - 1) * im.m + rowgroupCtr
      && if n == im.imcuRows then rowgroupsAvail == im.LastGroups() && AllEnding(whichptr, n - 1)
         else rowgroupsAvail == im.m - 1 && AllArrived(whichptr, n - 1)
    }

    ghost predicate Phase()
      requires Static()
      reads this, Arrays()
    {
      var n := iMCURowCtr;
      && n <= im.imcuRows && whichptr <= 1
      && match contextState {
        case PrepareForIMCU =>
          if !bufferFull then
            n == 0 && whichptr == 0 && |out| == 0 && AllAtTop()
          else
            n >= 1 && whichptr == (n - 1) % 2 && |out| == (n - 1) * im.m && AllArrived(whichptr, n - 1)
        case ProcessIMCU => Feeding() && rowgroupCtr < rowgroupsAvail
        case PostponedRow =>
          n >= 1 && (
            if n == im.imcuRows && !bufferFull then |out| == im.groups
            else
              && rowgroupCtr == im.m + 1 && rowgroupsAvail == im.m + 2
              && if bufferFull then
                   n >= 2 && whichptr == (n - 1) % 2 && |out| == (n - 1) * im.m - 1 && AllArrived(whichptr, n - 1)
                 else
                   whichptr == n % 2 && |out| == n * im.m - 1 && AllFed(1 - whichptr, n - 1))
      }
    }

    ghost predicate HistoryOk()
      reads `out
    {
      forall j | 0 <= j < |out| :: GroupInContext(j, out[j])
    }

    ghost predicate Valid()
      reads this, Arrays()
    {
      Static() && Phase() && HistoryOk()
    }

    // start_pass_main, for a pass with context rows.
    method StartPass()
      requires Static()
      modifies this, Arrays()
      ensures Valid() && out == []
    {
      hide Static, GroupInContext, AllAtTop, AllArrived, AllFed, Feeding;
      MakeFunnyPointers();
      whichptr := 0;
      contextState := PrepareForIMCU;
      iMCURowCtr := 0;
      bufferFull := false;
      rowgroupCtr := 0;
      out := [];
    }

    method MakeFunnyPointers()
      requires Static()
      modifies Arrays()
      ensures AllAtTop()
    {
      for ci := 0 to |comps|
        invariant forall i | 0 <= i < ci :: comps[i].Now().AtTop(comps[i].c)
      {
        Separate(ci);
        comps[ci].MakeFunnyPointers();
      }
    }

    // The arrays of component ci are not those of any other.
    lemma Separate(ci: nat)
      requires Static() && ci < |comps|
      ensures comps[ci].Valid() && im.Fits(comps[ci].c)
      ensures forall i | 0 <= i < |comps| && i != ci :: Apart(comps[i], comps[ci])
    {}

    // All components are well formed.
    lemma WellFormed()
      requires Static()
      ensures |comps| > 0 && forall i | 0 <= i < |comps| :: comps[i].Valid()
    {}

    method SetWraparoundPointers()
      requires Static()
      modifies Arrays()
      ensures forall i | 0 <= i < |comps| :: comps[i].Now().buf == old(comps[i].Now().buf)
      ensures old(AllAtTop()) ==> forall i | 0 <= i < |comps| :: comps[i].Now().Inside(comps[i].c)
    {
      for ci := 0 to |comps|
        invariant forall i | 0 <= i < |comps| :: comps[i].Now().buf == old(comps[i].Now().buf)
        invariant forall i | ci <= i < |comps| :: comps[i].Now() == old(comps[i].Now())
        invariant old(AllAtTop()) ==> forall i | 0 <= i < ci :: comps[i].Now().Inside(comps[i].c)
      {
        Separate(ci);
        comps[ci].SetWraparoundPointers();
      }
    }

    // One component's part of set_bottom_pointers: its list shows the end of the image.
    method SetBottomOf(ci: nat, ghost k: nat) returns (groups: nat)
      requires Static() && ci < |comps| && whichptr <= 1 && k == im.imcuRows - 1
      requires ArrivedOne(ci, whichptr, k)
      modifies comps[ci].xbuffer0, comps[ci].xbuffer1
      ensures EndingOne(ci, whichptr, k) && groups == im.LastGroups()
    {
      var strip := comps[ci];
      Separate(ci);
      LastRowsOf(im, strip.c);
      LastBounds(im, strip.c);
      hide Snap.Arrived, Snap.Ending, Shape.Bottom, Shape.LastRows, Static;
      ghost var before := strip.Now();
      var rowsLeft := strip.SetBottomPointers(whichptr);
      EndingFrom(im, strip.c, before, strip.Now(), whichptr, k);
      groups := (rowsLeft - 1) / strip.c.g + 1;
    }

    // set_bottom_pointers: the lists show the end of the image, and rowgroupsAvail counts its row groups.
    method SetBottomPointers(ghost k: nat)
      requires Static() && whichptr <= 1 && k == im.imcuRows - 1 && AllArrived(whichptr, k)
      modifies Arrays(), this`rowgroupsAvail
      ensures AllEnding(whichptr, k) && rowgroupsAvail == im.LastGroups()
    {
      var groups := SetBottomLists(k);
      rowgroupsAvail := groups;
    }

    method SetBottomLists(ghost k: nat) returns (avail: nat)
      requires Static() && whichptr <= 1 && k == im.imcuRows - 1 && AllArrived(whichptr, k)
      modifies Arrays()
      ensures AllEnding(whichptr, k) && avail == im.LastGroups()
    {
      avail := 0;
      hide Image.LastGroups, Static, ArrivedOne, EndingOne, AllArrived, AllEnding;
      WellFormed();
      EachArrived(whichptr, k);
      for ci := 0 to |comps|
        invariant forall i | 0 <= i < ci :: EndingOne(i, whichptr, k)
        invariant forall i | ci <= i < |comps| :: ArrivedOne(i, whichptr, k)
        invariant ci > 0 ==> avail == im.LastGroups()
      {
        var groups := SetBottomNext(ci, k);
        if ci == 0 {
          avail := groups;
        }
      }
      EachEnding(whichptr, k);
    }

    // The lists of the other components stay as they are.
    method SetBottomNext(ci: nat, ghost k: nat) returns (groups: nat)
      requires Static() && ci < |comps| && whichptr <= 1 && k == im.imcuRows - 1
      requires ArrivedOne(ci, whichptr, k)
      modifies Arrays()
      ensures EndingOne(ci, whichptr, k) && groups == im.LastGroups()
      ensures forall i | 0 <= i < |comps| && i != ci :: ArrivedOne(i, whichptr, k) == old(ArrivedOne(i, whichptr, k))
      ensures forall i | 0 <= i < |comps| && i != ci :: EndingOne(i, whichptr, k) == old(EndingOne(i, whichptr, k))
    {
      hide Image.LastGroups, Static, ArrivedOne, EndingOne;
      Separate(ci);
      groups := SetBottomOf(ci, k);
    }

    ghost predicate ArrivedOne(i: nat, l: nat, k: nat)
      requires Static() && i < |comps|
      reads comps[i].buffer, comps[i].xbuffer0, comps[i].xbuffer1
    {
      comps[i].Now().Arrived(comps[i].c, l, k)
    }

    ghost predicate EndingOne(i: nat, l: nat, k: nat)
      requires Static() && i < |comps|
      reads comps[i].buffer, comps[i].xbuffer0, comps[i].xbuffer1
    {
      comps[i].Now().Ending(comps[i].c, l, k)
    }

    lemma EachArrived(l: nat, k: nat)
      requires Static() && AllArrived(l, k)
      ensures forall i | 0 <= i < |comps| :: ArrivedOne(i, l, k)
    {
      hide Snap.Arrived;
    }

    lemma EachEnding(l: nat, k: nat)
      requires Static() && forall i | 0 <= i < |comps| :: EndingOne(i, l, k)
      ensures AllEnding(l, k)
    {
      hide Snap.Ending;
      forall i | 0 <= i < |comps| ensures comps[i].Now().Ending(comps[i].c, l, k) {
        assert EndingOne(i, l, k);
      }
    }

    // The coefficient controller has rows for iMCU row k; in the last one it may leave rows
    // below the image unwritten.
    ghost predicate Deliverable(written: seq<nat>, k: nat) {
      && |written| == |comps|
      && forall i | 0 <= i < |comps| ::
           written[i] <= comps[i].c.imcu
             && (written[i] < comps[i].c.imcu ==> k * comps[i].c.imcu + written[i] >= comps[i].c.h)
    }

    // List l may receive iMCU row k.
    ghost predicate AllReady(l: nat, k: nat)
      requires Static()
      reads Arrays()
    {
      if k == 0 then l == 0 && AllAtTop() else l <= 1 && AllFed(1 - l, k - 1)
    }

    method ReadOne(ci: nat, l: nat, k: nat, written: nat)
      requires Static() && ci < |comps| && l <= 1 && k < im.imcuRows
      requires written <= comps[ci].c.imcu
          && (written < comps[ci].c.imcu ==> k * comps[ci].c.imcu + written >= comps[ci].c.h)
      requires var s := comps[ci].Now();
               if k == 0 then l == 0 && s.AtTop(comps[ci].c)
               else s.Inside(comps[ci].c) && comps[ci].c.Trailing(l, s.buf, k)
      modifies comps[ci].buffer
      ensures comps[ci].Now().Arrived(comps[ci].c, l, k)
    {
      Separate(ci);
      RowsInside(im, comps[ci].c, k);
      hide Static;
      comps[ci].ReadRows(l, k, written);
    }

    // decompress_data with an iMCU row at hand: it fills the rows list l points to.
    method ReadIMCU(l: nat, k: nat, written: seq<nat>)
      requires Static() && l <= 1 && k < im.imcuRows && Deliverable(written, k) && AllReady(l, k)
      modifies Arrays()
      ensures AllArrived(l, k)
    {
      hide Snap.Arrived, Static, Strip.Now, Snap.AtTop, Snap.Inside, Shape.Trailing;
      WellFormed();
      for ci := 0 to |comps|
        invariant forall i | 0 <= i < ci :: comps[i].Now().Arrived(comps[i].c, l, k)
        invariant forall i | ci <= i < |comps| :: comps[i].Now() == old(comps[i].Now())
      {
        Separate(ci);
        ReadOne(ci, l, k, written[ci]);
      }
    }

    // All components present row group q of list l as row group shift + q of the image.
    ghost predicate AllPresent(l: nat, q: nat, shift: int)
      reads Arrays()
    {
      shift + q >= 0 && forall i | 0 <= i < |comps| :: Presents(im, comps[i].c, comps[i].Now(), l, q, shift + q)
    }

    // What the postprocessor sees of row group q.
    ghost function Seen(l: nat, q: nat, shift: int): seq<seq<int>>
      requires AllPresent(l, q, shift)
      reads Arrays()
    {
      seq(|comps|, i requires 0 <= i < |comps| && AllPresent(l, q, shift) reads Arrays() =>
        View(comps[i].c, comps[i].Now().X(l), comps[i].Now().buf, q))
    }

    // The row groups on offer to the postprocessor are the next ones of the image, in context.
    ghost predicate OnOffer(shift: int)
      reads this, Arrays()
    {
      && rowgroupCtr <= rowgroupsAvail
      && |out| == shift + rowgroupCtr
      && forall q | rowgroupCtr <= q < rowgroupsAvail :: AllPresent(whichptr, q, shift)
    }

    // post_process_data: take up to `take` of the row groups on offer.
    method PostProcess(take: nat, ghost shift: int)
      requires Static() && HistoryOk() && OnOffer(shift)
      modifies this`rowgroupCtr, this`out
      ensures HistoryOk() && OnOffer(shift) && old(out) <= out
      ensures rowgroupCtr == if old(rowgroupCtr) + take <= rowgroupsAvail then old(rowgroupCtr) + take
          else rowgroupsAvail
    {
      hide Presents, GroupInContext, Static;
      var taken := 0;
      while taken < take && rowgroupCtr < rowgroupsAvail
        invariant taken <= take && HistoryOk() && OnOffer(shift) && old(out) <= out
        invariant rowgroupCtr == old(rowgroupCtr) + taken
      {
        SeenInContext(whichptr, rowgroupCtr, shift);
        label Before:
        out := out + [Seen(whichptr, rowgroupCtr, shift)];
        rowgroupCtr := rowgroupCtr + 1;
        taken := taken + 1;
        forall q | rowgroupCtr <= q < rowgroupsAvail ensures AllPresent(whichptr, q, shift) {
          assert old@Before(AllPresent(whichptr, q, shift));
          assert forall i | 0 <= i < |comps| :: comps[i].Now() == old@Before(comps[i].Now());
        }
      }
    }

    lemma SeenInContext(l: nat, q: nat, shift: int)
      requires AllPresent(l, q, shift)
      ensures GroupInContext(shift + q, Seen(l, q, shift))
    {
      hide InContext, View, Viewable;
    }

    // The beginning of process_data_context_main: the buffer is filled if it was empty.
    method Fill(written: seq<nat>)
      requires Valid() && |out| < im.groups && !bufferFull && Deliverable(written, iMCURowCtr)
      modifies this`bufferFull, this`iMCURowCtr, Arrays()
      ensures Valid() && bufferFull && contextState == old(contextState)
    {
      hide Valid, Phase, HistoryOk, Static, AllReady, AllArrived, Deliverable;
      ghost var k := iMCURowCtr;
      FillReady();
      ReadIMCU(whichptr, iMCURowCtr, written);
      bufferFull := true;
      iMCURowCtr := iMCURowCtr + 1;
      Filled(k);
    }

    // The buffer is empty and iMCU row k, not beyond the last, goes to the current list.
    ghost predicate Awaiting(k: nat)
      reads `contextState, `whichptr, `out, `rowgroupCtr, `rowgroupsAvail
    {
      && k < im.imcuRows && whichptr == k % 2
      && (if contextState == PrepareForIMCU then k == 0 && |out| == 0
          else
            && contextState == PostponedRow && rowgroupCtr == im.m + 1 && rowgroupsAvail == im.m + 2
            && k >= 1 && |out| == k * im.m - 1)
    }

    lemma FillReady()
      requires Valid() && |out| < im.groups && !bufferFull
      ensures Static() && HistoryOk() && Awaiting(iMCURowCtr) && AllReady(whichptr, iMCURowCtr)
    {
      hide Snap.Inside, Snap.AtTop, Shape.Holding, HistoryOk, Static;
      SomeGroups();
    }

    lemma Filled(k: nat)
      requires Static() && HistoryOk() && Awaiting(k) && iMCURowCtr == k + 1 && bufferFull && AllArrived(whichptr, k)
      ensures Valid()
    {
      hide AllArrived, HistoryOk, Static;
    }

    // CTX_POSTPONED_ROW
    method FeedPostponed(take: nat)
      requires Valid() && bufferFull && contextState == PostponedRow
      modifies this`contextState, this`rowgroupCtr, this`out
      ensures Valid() && old(out) <= out
      ensures take > 0 ==> |out| > |old(out)|
    {
      hide Snap.Arrived, Shape.Holding, GroupInContext;
      ghost var shift := (iMCURowCtr - 2) * im.m - 2;
      PostponedOffered(shift);
      PostProcess(take, shift);
      if rowgroupCtr == rowgroupsAvail {
        contextState := PrepareForIMCU;
      }
    }

    lemma PostponedOffered(shift: int)
      requires Valid() && bufferFull && contextState == PostponedRow && shift == (iMCURowCtr - 2) * im.m - 2
      ensures OnOffer(shift)
    {
      hide Static, Snap.Arrived, Presents, Valid, HistoryOk, Image.Valid, Image.Fits;
      PostponedState(shift);
      var k := iMCURowCtr - 1;
      forall i | 0 <= i < |comps| ensures Presents(im, comps[i].c, comps[i].Now(), whichptr, im.m + 1, k * im.m - 1) {
        Separate(i);
        PostponedPresents(im, comps[i].c, comps[i].Now(), whichptr, k);
      }
    }

    lemma PostponedState(shift: int)
      requires Valid() && bufferFull && contextState == PostponedRow && shift == (iMCURowCtr - 2) * im.m - 2
      ensures Static() && im.Valid() && 2 <= iMCURowCtr <= im.imcuRows && whichptr <= 1
      ensures AllArrived(whichptr, iMCURowCtr - 1)
      ensures shift + im.m + 1 == (iMCURowCtr - 1) * im.m - 1 == |out|
      ensures rowgroupCtr == im.m + 1 && rowgroupsAvail == im.m + 2
    {
      hide Snap.Arrived, HistoryOk, AllArrived;
    }

    // CTX_PREPARE_FOR_IMCU
    method PrepareIMCU()
      requires Valid() && bufferFull && contextState == PrepareForIMCU
      modifies this`contextState, this`rowgroupCtr, this`rowgroupsAvail, Arrays()
      ensures Valid() && contextState == ProcessIMCU
    {
      hide Valid, HistoryOk, Static, Image.LastGroups, Image.Valid, AllArrived, AllEnding, Phase, RowsOut;
      RowsArrived();
      SomeGroups();
      rowgroupCtr := 0;
      rowgroupsAvail := im.m - 1;
      if iMCURowCtr == im.imcuRows {
        SetBottomPointers(iMCURowCtr - 1);
      }
      contextState := ProcessIMCU;
      ReadyToFeed();
    }

    lemma RowsArrived()
      requires Valid() && bufferFull && contextState == PrepareForIMCU
      ensures Static() && HistoryOk() && 1 <= iMCURowCtr <= im.imcuRows && whichptr == (iMCURowCtr - 1) % 2
      ensures RowsOut() && AllArrived(whichptr, iMCURowCtr - 1)
    {
      hide Static, HistoryOk, AllArrived;
    }

    // The row groups of all iMCU rows before the current one are out.
    ghost predicate RowsOut()
      reads `out, `iMCURowCtr
    {
      |out| == (iMCURowCtr - 1) * im.m
    }

    lemma ReadyToFeed()
      requires Static() && HistoryOk() && contextState == ProcessIMCU && bufferFull && rowgroupCtr == 0 < rowgroupsAvail
      requires 1 <= iMCURowCtr <= im.imcuRows && whichptr == (iMCURowCtr - 1) % 2 && RowsOut()
      requires if iMCURowCtr == im.imcuRows then rowgroupsAvail == im.LastGroups()
          && AllEnding(whichptr, iMCURowCtr - 1)
               else rowgroupsAvail == im.m - 1 && AllArrived(whichptr, iMCURowCtr - 1)
      ensures Valid()
    {
      hide Static, HistoryOk, AllArrived, AllEnding, Image.LastGroups;
    }

    lemma SomeGroups()
      requires Static()
      ensures im.Valid() && im.LastGroups() > 0 && im.m >= 2
    {
      LastBounds(im, comps[0].c);
    }

    lemma IMCUOffered(shift: int)
      requires Static() && Feeding() && shift == (iMCURowCtr - 1) * im.m
      ensures OnOffer(shift)
    {
      hide Snap.Arrived, Snap.Ending, Presents, Static;
      forall q: nat | rowgroupCtr <= q < rowgroupsAvail ensures AllPresent(whichptr, q, shift) {
        forall i | 0 <= i < |comps| ensures Presents(im, comps[i].c, comps[i].Now(), whichptr, q, shift + q) {
          OneOffered(q, i, shift);
        }
      }
    }

    lemma OneOffered(q: nat, i: nat, shift: int)
      requires Static() && Feeding() && shift == (iMCURowCtr - 1) * im.m
      requires rowgroupCtr <= q < rowgroupsAvail && i < |comps|
      ensures shift + q >= 0
      ensures Presents(im, comps[i].c, comps[i].Now(), whichptr, q, shift + q)
    {
      hide Snap.Arrived, Snap.Ending, Presents;
      var k := iMCURowCtr - 1;
      if k + 1 < im.imcuRows {
        ArrivedPresents(im, comps[i].c, comps[i].Now(), whichptr, k, q);
      } else {
        EndingPresents(im, comps[i].c, comps[i].Now(), whichptr, k, q, shift + q);
      }
    }

    // CTX_PROCESS_IMCU
    method FeedIMCU(take: nat)
      requires Valid() && contextState == ProcessIMCU
      modifies this, Arrays()
      ensures Valid() && old(out) <= out
      ensures take > 0 ==> |out| > |old(out)|
    {
      hide Snap.Arrived, Snap.Ending, GroupInContext, Static;
      ghost var shift := (iMCURowCtr - 1) * im.m;
      IMCUOffered(shift);
      PostProcess(take, shift);
      if rowgroupCtr < rowgroupsAvail {
        return;
      }
      FinishIMCU();
    }

    // All row groups that can be fed now are out: go on to the next iMCU row.
    method FinishIMCU()
      requires Static() && Feeding() && HistoryOk() && rowgroupCtr == rowgroupsAvail
      modifies this, Arrays()
      ensures Valid() && out == old(out)
    {
      hide HistoryOk, Static, Feeding, Phase, AllArrived, AllFed;
      FeedingDone();
      Rewrap();
      whichptr := 1 - whichptr;
      bufferFull := false;
      rowgroupCtr := im.m + 1;
      rowgroupsAvail := im.m + 2;
      contextState := PostponedRow;
      Finished();
    }

    // After the first iMCU row the lists lose their copies of the top row.
    method Rewrap()
      requires Static() && 1 <= iMCURowCtr && whichptr <= 1
      requires iMCURowCtr < im.imcuRows ==> AllArrived(whichptr, iMCURowCtr - 1)
      modifies Arrays()
      ensures iMCURowCtr < im.imcuRows ==> AllFed(whichptr, iMCURowCtr - 1)
    {
      hide Snap.Inside, Snap.AtTop, Shape.Trailing, Static, Snap.Arrived;
      if iMCURowCtr < im.imcuRows {
        ArrivedParts(whichptr, iMCURowCtr - 1);
      }
      if iMCURowCtr == 1 {
        SetWraparoundPointers();
      }
    }

    lemma FeedingDone()
      requires Static() && Feeding() && rowgroupCtr == rowgroupsAvail
      ensures 1 <= iMCURowCtr <= im.imcuRows && whichptr == (iMCURowCtr - 1) % 2
      ensures iMCURowCtr < im.imcuRows ==> AllArrived(whichptr, iMCURowCtr - 1) && |out| == iMCURowCtr * im.m - 1
      ensures iMCURowCtr == im.imcuRows ==> |out| == im.groups
    {
      hide AllArrived, AllEnding;
    }

    lemma Finished()
      requires Static() && HistoryOk() && contextState == PostponedRow && !bufferFull
      requires 1 <= iMCURowCtr <= im.imcuRows && whichptr == iMCURowCtr % 2
      requires rowgroupCtr == im.m + 1 && rowgroupsAvail == im.m + 2
      requires iMCURowCtr < im.imcuRows ==> AllFed(1 - whichptr, iMCURowCtr - 1) && |out| == iMCURowCtr * im.m - 1
      requires iMCURowCtr == im.imcuRows ==> |out| == im.groups
      ensures Valid()
    {
      hide AllFed, HistoryOk, Static;
    }

    lemma ArrivedParts(l: nat, k: nat)
      requires Static() && l <= 1 && AllArrived(l, k) && k + 1 < im.imcuRows
      ensures if k == 0 then l == 0 && AllAtTop() else forall i | 0 <= i < |comps| :: comps[i].Now().Inside(comps[i].c)
      ensures forall i | 0 <= i < |comps| :: comps[i].c.Trailing(1 - l, comps[i].Now().buf, k + 1)
    {
      hide Shape.Holding, Shape.Trailing, Snap.AtTop, Snap.Inside, Image.Fits;
      assert comps[0].Now().Arrived(comps[0].c, l, k);
      forall i | 0 <= i < |comps| ensures comps[i].c.Trailing(1 - l, comps[i].Now().buf, k + 1) {
        assert comps[i].Now().Arrived(comps[i].c, l, k);
        RowsInside(im, comps[i].c, k);
        TrailBehind(comps[i].c, 1 - l, comps[i].Now().buf, k);
      }
    }

    // process_data_context_main.  `have` says whether the coefficient controller can deliver an
    // iMCU row; if not, `partly` is what it has put into the current list before it suspended.
    // take1 and take2 say how many row groups the postprocessor would consume, and outFull whether
    // it filled its output buffer with the postponed row group.
    method ProcessData(have: bool, partly: seq<seq<int>>, written: seq<nat>, take1: nat, take2: nat, outFull: bool)
      requires Valid() && |out| < im.groups && Partial(partly)
      requires !bufferFull && have ==> Deliverable(written, iMCURowCtr)
      modifies this, Arrays()
      ensures Valid() && old(out) <= out
      ensures (old(bufferFull) || have) && take1 > 0 && take2 > 0 ==> |out| > |old(out)|
    {
      hide Valid, Phase, Static, GroupInContext, Deliverable;
      if !bufferFull {
        if !have {
          Suspend(partly);
          return;
        }
        Fill(written);
      }
      if contextState == PostponedRow {
        FeedPostponed(take1);
        if contextState == PostponedRow {
          return;
        }
        if outFull {
          return;
        }
      }
      if contextState == PrepareForIMCU {
        PrepareIMCU();
      }
      FeedIMCU(take2);
    }

    predicate Partial(partly: seq<seq<int>>) {
      |partly| == |comps| && forall i | 0 <= i < |comps| :: |partly[i]| <= comps[i].c.imcu
    }

    // decompress_data without a whole iMCU row at hand.
    method Suspend(partly: seq<seq<int>>)
      requires Valid() && |out| < im.groups && !bufferFull && Partial(partly)
      modifies Arrays()
      ensures Valid()
    {
      hide Valid, Phase, HistoryOk, Static, AllReady;
      FillReady();
      ReadSome(whichptr, iMCURowCtr, partly);
      StillWaiting();
    }

    lemma StillWaiting()
      requires Static() && HistoryOk() && Awaiting(iMCURowCtr) && !bufferFull && AllReady(whichptr, iMCURowCtr)
      ensures Valid()
    {
      hide HistoryOk, Static, AllFed, AllAtTop;
    }

    method ReadSome(l: nat, ghost k: nat, partly: seq<seq<int>>)
      requires Static() && l <= 1 && Partial(partly) && AllReady(l, k)
      modifies Arrays()
      ensures AllReady(l, k)
    {
      hide Static, ReadyOne;
      WellFormed();
      OneByOne(l, k);
      for ci := 0 to |comps|
        invariant forall i | 0 <= i < |comps| :: ReadyOne(i, l, k)
      {
        Separate(ci);
        ReadSomeOf(ci, l, k, partly[ci]);
      }
      OneByOne(l, k);
    }

    // Component i may receive iMCU row k through list l.
    ghost predicate ReadyOne(i: nat, l: nat, k: nat)
      requires Static() && i < |comps|
      reads comps[i].buffer, comps[i].xbuffer0, comps[i].xbuffer1
    {
      var s := comps[i].Now();
      if k == 0 then l == 0 && s.AtTop(comps[i].c)
      else l <= 1 && s.Inside(comps[i].c) && comps[i].c.Trailing(l, s.buf, k)
    }

    lemma OneByOne(l: nat, k: nat)
      requires Static() && l <= 1
      ensures AllReady(l, k) <==> forall i | 0 <= i < |comps| :: ReadyOne(i, l, k)
    {
      hide Snap.AtTop, Snap.Inside, Shape.Trailing;
      SomeGroups();
      if k > 0 {
        assert 1 - (1 - l) == l;
        if forall i | 0 <= i < |comps| :: ReadyOne(i, l, k) {
          forall i | 0 <= i < |comps|
            ensures comps[i].Now().Inside(comps[i].c) && comps[i].c.Trailing(l, comps[i].Now().buf, k)
          {
            assert ReadyOne(i, l, k);
          }
        }
      } else if forall i | 0 <= i < |comps| :: ReadyOne(i, l, k) {
        assert ReadyOne(0, l, k);
        forall i | 0 <= i < |comps|
          ensures comps[i].Now().AtTop(comps[i].c)
        {
          assert ReadyOne(i, l, k);
        }
      }
    }

    method ReadSomeOf(ci: nat, l: nat, ghost k: nat, stored: seq<int>)
      requires Static() && ci < |comps| && l <= 1 && |stored| <= comps[ci].c.imcu && ReadyOne(ci, l, k)
      modifies comps[ci].buffer
      ensures ReadyOne(ci, l, k)
    {
      hide Static;
      Separate(ci);
      comps[ci].ReadPartly(l, k, stored);
    }

    // One call; rows below the image may stay unwritten in the last iMCU row only.
    method RunCall(call: Call)
      requires Valid() && !Done() && Deliverable(call.written, im.imcuRows - 1) && Partial(call.partly)
      modifies this, Arrays()
      ensures Valid() && old(out) <= out
      ensures call.have && call.take1 > 0 && call.take2 > 0 ==> |out| > |old(out)|
    {
      OutBounded();
      hide GroupInContext, Done, AllAtTop, AllArrived, AllFed, AllEnding, Feeding;
      var written := if iMCURowCtr + 1 < im.imcuRows then AllRows() else call.written;
      ProcessData(call.have, call.partly, written, call.take1, call.take2, call.outFull);
    }

    // A whole pass, for any sequence of calls: the record only grows, and every entry is the
    // next row group of the image in its context.
    method RunPass(calls: seq<Call>)
      requires Static()
      requires forall t | 0 <= t < |calls| :: Deliverable(calls[t].written, im.imcuRows - 1) && Partial(calls[t].partly)
      modifies this, Arrays()
      ensures Valid()
      ensures |out| <= im.groups && forall j | 0 <= j < |out| :: GroupInContext(j, out[j])
      ensures forall j | 0 <= j < |out| :: TrueRows(j, out[j])
      ensures Willing(calls) && |calls| >= im.groups ==> |out| == im.groups
    {
      hide Phase, GroupInContext, Deliverable, Done, TrueRows;
      StartPass();
      var t := 0;
      OutBounded();
      while t < |calls| && !Done()
        invariant Valid() && t <= |calls| && |out| <= im.groups
        invariant Done() <==> |out| == im.groups
        invariant Willing(calls) ==> |out| >= t || Done()
      {
        RunCall(calls[t]);
        OutBounded();
        t := t + 1;
      }
      EachRow();
    }

    // What being in context means for each row in view.
    lemma EachRow()
      requires Static() && |out| <= im.groups && forall j | 0 <= j < |out| :: GroupInContext(j, out[j])
      ensures forall j | 0 <= j < |out| :: TrueRows(j, out[j])
    {
      hide InContext, TrueView, Image.Fits, Image.Valid;
      forall j | 0 <= j < |out| ensures TrueRows(j, out[j]) {
        assert GroupInContext(j, out[j]);
        forall i | 0 <= i < |comps| ensures TrueView(im, comps[i].c, j, out[j][i]) {
          RowsInView(im, comps[i].c, j, out[j][i]);
        }
      }
    }

    ghost predicate TrueRows(j: nat, v: seq<seq<int>>) {
      |v| == |comps| && forall i | 0 <= i < |comps| :: TrueView(im, comps[i].c, j, v[i])
    }

    function AllRows(): seq<nat> {
      seq(|comps|, i requires 0 <= i < |comps| => comps[i].c.imcu)
    }

    // Everything has been handed over (the caller counts output rows instead).
    predicate Done()
      reads this
    {
      contextState == PostponedRow && !bufferFull && iMCURowCtr == im.imcuRows
    }

    // Where the row groups of the first n iMCU rows end among all row groups.
    lemma GroupsHanded(n: nat)
      requires Static() && 1 <= n <= im.imcuRows
      ensures 0 <= (n - 1) * im.m < im.groups
      ensures n < im.imcuRows ==> 0 < (n - 1) * im.m + im.m == n * im.m < im.groups
      ensures n == im.imcuRows ==> (n - 1) * im.m + im.LastGroups() == im.groups
    {
      RowsHanded(im.m, im.imcuRows, im.groups, n);
    }

    // The controller never hands over more row groups than the image has.
    lemma OutBounded()
      requires Valid()
      ensures |out| <= im.groups && (Done() <==> |out| == im.groups)
    {
      hide Static, HistoryOk, AllAtTop, AllArrived, AllFed, AllEnding, Image.LastGroups, Image.Valid;
      SomeGroups();
      if iMCURowCtr >= 1 {
        GroupsHanded(iMCURowCtr);
      }
    }
  }

  // The parameters of one call of process_data; `written` is for the last iMCU row, the others
  // are always complete; `partly` is for a call without a whole iMCU row at hand.
  datatype Call = Call(have: bool, partly: seq<seq<int>>, written: seq<nat>, take1: nat, take2: nat, outFull: bool)

  // Input is always at hand and the postprocessor always consumes something.
  predicate Willing(calls: seq<Call>) {
    forall t | 0 <= t < |calls| :: calls[t].have && calls[t].take1 > 0 && calls[t].take2 > 0
  }

  // ---- what being in context means ----

  // The image row nearest to row r.
  function Clamp(c: Shape, r: int): int {
    if r < 0 then 0 else if r >= c.h then c.h - 1 else r
  }

  lemma GroupBegins(im: Image, c: Shape, j: nat)
    requires im.Valid() && im.Fits(c) && j < im.groups
    ensures 0 <= c.g * j < c.h && (j > 0 ==> c.g * j >= c.g)
    ensures !im.InLastRow(j) ==> c.g * j + c.g < c.h
  {
    RowStart(im, c, im.imcuRows - 1);
    GroupsInside(c.g, c.h, j, im.groups, (im.imcuRows - 1) * im.m);
  }

  // Group j of g rows each, where the last group and group `first` begin before row h.
  lemma GroupsInside(g: nat, h: nat, j: nat, groups: nat, first: int)
    requires j < groups && g * (groups - 1) < h && g * first < h
    ensures 0 <= g * j < h && (j > 0 ==> g * j >= g)
    ensures j < first ==> g * j + g < h
  {
    ProductAtLeast(g, j);
    ProductMonotone(g, j, groups - 1);
    if j < first {
      ProductMonotone(g, j + 1, first);
    }
  }

  // The row just above a row group, the row just below it, and its own real rows are always
  // the true ones, with the first and last row of the image repeated at its edges.
  lemma NearestRows(im: Image, c: Shape, j: nat, v: seq<int>)
    requires im.Valid() && im.Fits(c) && j < im.groups && InContext(c, im.InLastRow(j), j, v)
    ensures |v| == 3 * c.g
    ensures v[c.g - 1] == Clamp(c, c.g * j - 1)
    ensures v[2 * c.g] == Clamp(c, c.g * j + c.g)
    ensures forall i | c.g <= i < 2 * c.g && c.g * j + i - c.g < c.h :: v[i] == c.g * j + i - c.g
  {
    GroupBegins(im, c, j);
    assert RowShown(c, im.InLastRow(j), c.g * j - c.g + (c.g - 1), v[c.g - 1]);
    assert RowShown(c, im.InLastRow(j), c.g * j - c.g + 2 * c.g, v[2 * c.g]);
  }

  // All three row groups in view are the true ones, except in one situation: the last row
  // group of the last iMCU row but one, when the image ends within the row group below it.
  // There the rows below the nearest one may be padding.
  predicate PaddingInView(im: Image, c: Shape, j: nat) {
    im.imcuRows > 1 && j + 1 == (im.imcuRows - 1) * im.m && c.RowsLeft(im.imcuRows - 1) < c.g
  }

  lemma WholeView(im: Image, c: Shape, j: nat, v: seq<int>)
    requires im.Valid() && im.Fits(c) && j < im.groups && InContext(c, im.InLastRow(j), j, v)
    requires !PaddingInView(im, c, j)
    ensures |v| == 3 * c.g && forall i | 0 <= i < 3 * c.g :: v[i] == Clamp(c, c.g * j - c.g + i)
  {
    ViewEnds(im, c, j);
    forall i | 0 <= i < 3 * c.g ensures v[i] == Clamp(c, c.g * j - c.g + i) {
      assert RowShown(c, im.InLastRow(j), c.g * j - c.g + i, v[i]);
    }
  }

  // A row group before the last iMCU row has only real rows in view exactly if no padding is.
  lemma ViewEnds(im: Image, c: Shape, j: nat)
    requires im.Valid() && im.Fits(c) && j < im.groups
    ensures !im.InLastRow(j) ==> (c.g * j + 2 * c.g <= c.h <==> !PaddingInView(im, c, j))
  {
    var first := (im.imcuRows - 1) * im.m;
    RowStart(im, c, im.imcuRows - 1);
    if j + 1 < first {
      ProductMonotone(c.g, j + 2, first);
    }
  }

  // The view of row group j: each row shows the row of the image there, or the nearest one, unless it
  // may be padding.
  ghost predicate TrueView(im: Image, c: Shape, j: nat, v: seq<int>) {
    && |v| == 3 * c.g
    && forall r | 0 <= r < 3 * c.g ::
         var row := c.g * (j - 1) + r;
         && (0 <= row < c.h ==> v[r] == row)
         && (row < 0 ==> v[r] == 0)
         && (row >= c.h && (r == 2 * c.g || !PaddingInView(im, c, j)) ==> v[r] == c.h - 1)
  }

  lemma RowsInView(im: Image, c: Shape, j: nat, v: seq<int>)
    requires im.Valid() && im.Fits(c) && j < im.groups && InContext(c, im.InLastRow(j), j, v)
    ensures TrueView(im, c, j, v)
  {
    hide Image.Valid, Image.Fits, PaddingInView, Image.InLastRow;
    assert c.g * (j - 1) == c.g * j - c.g;
    NearestRows(im, c, j, v);
    if !PaddingInView(im, c, j) {
      WholeView(im, c, j, v);
    }
    forall r | 0 <= r < 3 * c.g
      ensures var row := c.g * (j - 1) + r;
              && (0 <= row < c.h ==> v[r] == row)
              && (row < 0 ==> v[r] == 0)
              && (row >= c.h && (r == 2 * c.g || !PaddingInView(im, c, j)) ==> v[r] == c.h - 1)
    {
      assert RowShown(c, im.InLastRow(j), c.g * j - c.g + r, v[r]);
    }
  }

  // In that situation the view does show padding: when the last iMCU row, k, has been read through
  // list l, what the postponed row group has in view d rows below its own is whatever the workspace
  // holds in a row below the image, and any value may stand there.
  lemma PaddingShown(im: Image, c: Shape, s: Snap, l: nat, k: nat, j: nat, d: nat, padding: int)
    requires im.Valid() && im.Fits(c) && l <= 1 && k + 1 == im.imcuRows && k > 0 && j + 1 == k * im.m
    requires s.Arrived(c, l, k) && c.RowsLeft(k) <= d < c.g
    ensures PaddingInView(im, c, j) && c.Phys(l, d) < |s.buf|
    ensures Padded(im, c, s.(buf := s.buf[c.Phys(l, d) := padding]), l, k, j, d, padding)
  {
    hide Image.Fits, Image.Valid, Image.InLastRow, Shape.Holding, Shape.Phys, Shape.Trailing, InContext, Shape.Wrapped,
         PaddingInView,
         Shape.Valid, Shape.RowsLeft;
    PaddingPlace(im, c, k, j, d);
    var t := PaddedSnap(c, s, l, k, d, padding);
    PostponedPresents(im, c, t, l, k);
    SeenBelow(im, c, t.X(l), l, d);
  }

  lemma PaddingPlace(im: Image, c: Shape, k: nat, j: nat, d: nat)
    requires im.Valid() && im.Fits(c) && k + 1 == im.imcuRows && k > 0 && j + 1 == k * im.m && c.RowsLeft(k) <= d < c.g
    ensures c.Valid() && PaddingInView(im, c, j)
  {
    var first := k * im.m;
    assert im.imcuRows - 1 == k && (im.imcuRows - 1) * im.m == first;
  }

  // A state after iMCU row k whose postponed row group, j, has `padding` in view at row 2 * g + d.
  ghost predicate Padded(im: Image, c: Shape, t: Snap, l: nat, k: nat, j: nat, d: nat, padding: int) {
    && c.Valid() && t.Arrived(c, l, k) && Presents(im, c, t, l, im.m + 1, j) && d < c.g
    && View(c, t.X(l), t.buf, im.m + 1)[2 * c.g + d] == padding
  }

  lemma PaddedSnap(c: Shape, s: Snap, l: nat, k: nat, d: nat, padding: int) returns (t: Snap)
    requires c.Valid() && l <= 1 && s.Arrived(c, l, k) && d < c.g && c.RowsLeft(k) <= d
    ensures c.Phys(l, d) < |s.buf| && t == s.(buf := s.buf[c.Phys(l, d) := padding])
    ensures t.Arrived(c, l, k) && t.buf[c.Phys(l, d)] == padding
  {
    PaddingFree(c, l, s.buf, k, d, padding);
    t := s.(buf := s.buf[c.Phys(l, d) := padding]);
  }

  // Rows below the image do not matter to what list l holds.
  lemma PaddingFree(c: Shape, l: nat, buf: seq<int>, k: nat, d: nat, padding: int)
    requires c.Valid() && l <= 1 && c.Holding(l, buf, k) && d < c.g && k * c.imcu + d >= c.h
    ensures c.Holding(l, buf[c.Phys(l, d) := padding], k)
  {
    forall i | 0 <= i < c.Rows() && i != d
      ensures c.Phys(l, i) != c.Phys(l, d)
    {}
  }

  // The entries of list l below the postponed row group lead back to the list's first rows.
  lemma SeenBelow(im: Image, c: Shape, x: seq<int>, l: nat, d: nat)
    requires im.Fits(c) && c.Wrapped(l, x) && d < c.g
    ensures var e := c.g * (im.m + 1) + (2 * c.g + d); e < |x| && x[e] == c.Phys(l, d)
  {
    ListEnd(im, c);
    hide Image.Fits;
    WrappedEnd(c, l, x, d);
  }

  lemma ListEnd(im: Image, c: Shape)
    requires im.Fits(c)
    ensures c.g * (im.m + 1) == c.imcu + c.g
  {}

  lemma WrappedEnd(c: Shape, l: nat, x: seq<int>, d: nat)
    requires c.Wrapped(l, x) && d < c.g
    ensures var e := c.imcu + 3 * c.g + d; e < |x| && x[e] == c.Phys(l, d)
  {
    hide Shape.Phys;
    var e := c.imcu + 3 * c.g + d;
    assert e - c.imcu - 3 * c.g == d;
  }

  // The smallest case: two iMCU rows of two row groups of two rows, and an image of five rows.  Row
  // group 1 has rows 2 and 3; its view ends with rows 4 and 5, and row 5 is padding.
  lemma PaddingWitness(padding: int)
    ensures var im, c := Image(2, 2, 3), Shape(2, 4, 5);
      && im.Valid() && im.Fits(c) && PaddingInView(im, c, 1)
      && exists t: Snap :: Padded(im, c, t, 1, 1, 1, 1, padding)
  {
    hide Padded, Snap.Arrived, FiveRows, Shape.Phys;
    FiveRowsArrived();
    PaddingShown(Image(2, 2, 3), Shape(2, 4, 5), FiveRows(), 1, 1, 1, 1, padding);
  }

  // The lists and the workspace of that image after its second iMCU row.
  function FiveRows(): Snap {
    Snap([0, 1, 2, 3, 4, 5, 6, 7], [6, 7, 0, 1, 2, 3, 4, 5, 6, 7, 0, 1], [2, 3, 4, 5, 6, 7, 0, 1, 2, 3, 4, 5])
  }

  lemma FiveRowsArrived()
    ensures FiveRows().Arrived(Shape(2, 4, 5), 1, 1)
  {}

  lemma EndingFrom(im: Image, c: Shape, before: Snap, after: Snap, l: nat, k: nat)
    requires im.Valid() && im.Fits(c) && l <= 1 && before.Arrived(c, l, k)
    requires after.buf == before.buf && c.Bottom(after.X(l), before.X(l), c.LastRows())
    ensures after.Ending(c, l, k)
  {
    hide Shape.Holding, Shape.Phys;
    assert after.EndedFrom(c, l, k, before.X(l));
  }
}
