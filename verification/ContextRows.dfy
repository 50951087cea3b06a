/**
  The row pointer lists of the main buffer controller (jdmainct.c) for one component: a
  workspace of M+2 row groups seen through two lists of row pointers, so that the rows
  above and below a row group are its neighbours in a list without any copying.

  Rows are numbered in the component's downsampled image; a workspace row is modelled by
  the number of the row it holds.  Pointers are workspace row numbers.
  */
module ContextRows {
  import opened Arithmetic

  // One component: rows per row group (g), rows per iMCU row (imcu), rows of the image (h).
  datatype Shape = Shape(g: nat, imcu: nat, h: nat) {
    predicate Valid() {
      g >= 1 && imcu >= 2 * g && h >= 1
    }

    // Length of the workspace, and of a pointer list with its extra group at either end.
    function Rows(): nat { imcu + 2 * g }
    function ListLength(): nat { imcu + 4 * g }

    // Where list l points at row offset i: the second list has the last four row groups in
    // swapped order.
    function Phys(l: nat, i: int): (r: int)
      ensures Valid() && 0 <= i < Rows() ==> 0 <= r < Rows()
    {
      if l == 0 || i < imcu - 2 * g then i
      else if i < imcu then i + 2 * g
      else i - 2 * g
    }

    // Entry g + i of a list belongs to row offset i.
    ghost predicate Funny(l: nat, x: seq<int>) {
      |x| == ListLength() && forall e | g <= e < g + Rows() :: x[e] == Phys(l, e - g)
    }

    // The list as it stands inside the image: its ends wrap around.
    ghost predicate Wrapped(l: nat, x: seq<int>) {
      && Funny(l, x)
      && (forall e | 0 <= e < g :: x[e] == Phys(l, imcu + g + e))
      && (forall e | imcu + 3 * g <= e < |x| :: x[e] == Phys(l, e - imcu - 3 * g))
    }

    ghost predicate WrappedUpTo(l: nat, x: seq<int>, n: int) {
      && Funny(l, x)
      && (forall e | 0 <= e < n <= g :: x[e] == Phys(l, imcu + g + e))
      && (forall e | imcu + 3 * g <= e < imcu + 3 * g + n && n <= g :: x[e] == Phys(l, e - imcu - 3 * g))
    }

    // The first list at the top of the image: the rows above repeat the first row.
    ghost predicate Top(x: seq<int>) {
      Funny(0, x) && forall i | 0 <= i < g :: x[i] == 0
    }

    // List x with the two row groups from row r on pointing to row r - 1.
    ghost predicate Bottom(x: seq<int>, before: seq<int>, r: nat)
      requires 1 <= r <= imcu && |before| == ListLength()
    {
      && |x| == ListLength()
      && (forall i | 0 <= i < g + r :: x[i] == before[i])
      && (forall i | g + r <= i < r + 3 * g :: x[i] == before[g + r - 1])
      && (forall i | r + 3 * g <= i < |x| :: x[i] == before[i])
    }

    // The workspace after iMCU row k has been read through list l: its real rows, and behind
    // them the last two row groups of the iMCU row before.
    ghost predicate Holding(l: nat, buf: seq<int>, k: nat)
      requires Valid()
    {
      && |buf| == Rows()
      && (forall i | 0 <= i < imcu && k * imcu + i < h :: buf[Phys(l, i)] == k * imcu + i)
      && (k > 0 ==> Trailing(l, buf, k))
    }

    // Behind the rows of iMCU row k, as list l sees them, stand the last two row groups of the
    // iMCU row before.
    ghost predicate Trailing(l: nat, buf: seq<int>, k: nat)
      requires Valid()
    {
      |buf| == Rows() && forall i | imcu <= i < Rows() :: buf[Phys(l, i)] == k * imcu + i - Rows()
    }

    // Real rows of the last iMCU row.
    function LastRows(): (r: nat)
      requires Valid()
      ensures 1 <= r <= imcu
    {
      if h % imcu == 0 then imcu else h % imcu
    }

    // Image rows present in iMCU row k.
    function RowsLeft(k: nat): int {
      h - k * imcu
    }
  }

  // The list entries around the row group at offset q (in row groups) lead into the workspace.
  ghost predicate Viewable(c: Shape, x: seq<int>, buf: seq<int>, q: nat) {
    && c.g * q + 3 * c.g <= |x|
    && forall e | c.g * q <= e < c.g * q + 3 * c.g :: 0 <= x[e] < |buf|
  }

  // The rows seen through list x around that row group: the row group above it, itself, and
  // the row group below it.
  ghost function View(c: Shape, x: seq<int>, buf: seq<int>, q: nat): (v: seq<int>)
    requires Viewable(c, x, buf, q)
  {
    seq(3 * c.g, i requires 0 <= i < 3 * c.g => buf[x[c.g * q + i]])
  }

  // What row group j of the image must look like with its context.  Above the image the first
  // row is repeated.  Below the image the last row is repeated, once the group is in the last
  // iMCU row (`last`); a group of an earlier iMCU row may have rows of the image's padding
  // below its nearest neighbours.
  ghost predicate InContext(c: Shape, last: bool, j: nat, v: seq<int>) {
    && |v| == 3 * c.g
    && forall i | 0 <= i < 3 * c.g :: RowShown(c, last, c.g * j - c.g + i, v[i])
  }

  ghost predicate RowShown(c: Shape, last: bool, r: int, shown: int) {
    && (r < 0 ==> shown == 0)
    && (0 <= r < c.h ==> shown == r)
    && (r >= c.h && last ==> shown == c.h - 1)
  }

  // ---- what the lists show ----

  // Row offset i of iMCU row k as an image row, up to the first row group of what is behind.
  lemma InsideShown(c: Shape, l: nat, x: seq<int>, buf: seq<int>, k: nat, i: int)
    requires c.Valid() && l <= 1 && c.Funny(l, x) && c.Holding(l, buf, k)
    requires 0 <= i < c.imcu
    ensures 0 <= x[c.g + i] < |buf|
    ensures k * c.imcu + i < c.h ==> buf[x[c.g + i]] == k * c.imcu + i
  {}

  // First iMCU row, at the top of the image.
  lemma TopShown(c: Shape, x: seq<int>, buf: seq<int>, i: int)
    requires c.Valid() && c.Top(x) && c.Holding(0, buf, 0) && 0 - c.g <= i < c.imcu
    ensures 0 <= x[c.g + i] < |buf|
    ensures RowShown(c, false, i, buf[x[c.g + i]])
  {
    if i >= 0 {
      InsideShown(c, 0, x, buf, 0, i);
    } else {
      InsideShown(c, 0, x, buf, 0, 0);
      assert x[c.g + i] == 0 && x[c.g] == 0;
    }
  }

  // Any later iMCU row.
  lemma NormalShown(c: Shape, l: nat, x: seq<int>, buf: seq<int>, k: nat, i: int)
    requires c.Valid() && l <= 1 && c.Wrapped(l, x) && c.Holding(l, buf, k) && k > 0 && 0 - c.g <= i < c.imcu
    requires k * c.imcu <= c.h
    ensures 0 <= x[c.g + i] < |buf|
    ensures RowShown(c, false, k * c.imcu + i, buf[x[c.g + i]])
  {
    RowsBefore(k, c.imcu);
    if i >= 0 {
      InsideShown(c, l, x, buf, k, i);
    } else {
      assert x[c.g + i] == c.Phys(l, c.imcu + c.g + (c.g + i));
    }
  }

  lemma RowsBefore(k: nat, n: nat)
    ensures k > 0 ==> k * n >= n
  {}

  // The postponed row group of iMCU row k - 1, its neighbours, and the first group of iMCU row k.
  lemma PostponedShown(c: Shape, l: nat, x: seq<int>, buf: seq<int>, k: nat, i: int)
    requires c.Valid() && l <= 1 && c.Wrapped(l, x) && c.Holding(l, buf, k) && k > 0
    requires c.imcu <= i < c.imcu + 3 * c.g && k * c.imcu <= c.h
    ensures 0 <= x[c.g + i] < |buf|
    ensures RowShown(c, false, k * c.imcu + i - c.Rows(), buf[x[c.g + i]])
  {
    RowsBefore(k, c.imcu);
    if i >= c.Rows() {
      var d := i - c.Rows();
      assert x[c.imcu + 3 * c.g + d] == c.Phys(l, d);
    } else {
      assert x[c.g + i] == c.Phys(l, i);
    }
  }

  // The last iMCU row, with r real rows.
  lemma BottomShown(c: Shape, l: nat, x: seq<int>, before: seq<int>, buf: seq<int>, k: nat, r: nat, i: int)
    requires c.Valid() && l <= 1 && c.Holding(l, buf, k) && k * c.imcu <= c.h
    requires if k == 0 then l == 0 && c.Top(before) else c.Wrapped(l, before)
    requires r == c.RowsLeft(k) && 1 <= r <= c.imcu && c.Bottom(x, before, r)
    requires 0 - c.g <= i < r + 2 * c.g
    ensures 0 <= x[c.g + i] < |buf|
    ensures RowShown(c, true, k * c.imcu + i, buf[x[c.g + i]])
  {
    var e := if i < r then i else r - 1;
    assert x[c.g + i] == before[c.g + e];
    if k == 0 {
      TopShown(c, before, buf, e);
    } else {
      NormalShown(c, l, before, buf, k, e);
    }
  }

  // From rows to row groups: group q of a list shows row group j of the image.
  lemma GroupShown(c: Shape, last: bool, x: seq<int>, buf: seq<int>, q: nat, j: nat, from: int, base: int)
    requires from == c.g * q && c.g * j == base + from
    requires from + 3 * c.g <= |x|
    requires forall i | from - c.g <= i < from + 2 * c.g :: RowOk(c, last, x, buf, i, base)
    ensures Viewable(c, x, buf, q) && InContext(c, last, j, View(c, x, buf, q))
  {
    hide RowShown, RowOk;
    forall e | from <= e < from + 3 * c.g
      ensures 0 <= x[e] < |buf| && RowShown(c, last, base + e - c.g, buf[x[e]])
    {
      RowOkAt(c, last, x, buf, e - c.g, base);
    }
    var v := View(c, x, buf, q);
    forall i | 0 <= i < |v| ensures RowShown(c, last, c.g * j - c.g + i, v[i]) {
      assert v[i] == buf[x[from + i]] && c.g * j - c.g + i == base + (from + i) - c.g;
    }
  }

  lemma RowOkAt(c: Shape, last: bool, x: seq<int>, buf: seq<int>, i: int, base: int)
    requires RowOk(c, last, x, buf, i, base)
    ensures 0 <= c.g + i < |x| && 0 <= x[c.g + i] < |buf| && RowShown(c, last, base + i, buf[x[c.g + i]])
  {}

  lemma GroupNumber(c: Shape, k: nat, m: nat, q: nat)
    requires c.imcu == m * c.g
    ensures c.g * (k * m + q) == k * c.imcu + c.g * q
  {
    ProductAssoc(k, m, c.g);
  }

  ghost predicate RowOk(c: Shape, last: bool, x: seq<int>, buf: seq<int>, i: int, base: int) {
    && 0 <= c.g + i < |x|
    && 0 <= x[c.g + i] < |buf|
    && RowShown(c, last, base + i, buf[x[c.g + i]])
  }

  lemma GroupInside(g: nat, m: nat, q: nat)
    requires q + 2 <= m
    ensures 0 <= g * q && g * q + 2 * g <= m * g
  {
    ProductMonotone(g, q + 2, m);
  }

  // A row of an iMCU row other than the last, in its context.
  lemma InnerRow(c: Shape, l: nat, x: seq<int>, buf: seq<int>, k: nat, i: int)
    requires c.Valid() && l <= 1 && c.Holding(l, buf, k) && k * c.imcu <= c.h && 0 - c.g <= i < c.imcu
    requires if k == 0 then l == 0 && c.Top(x) else c.Wrapped(l, x)
    ensures RowOk(c, false, x, buf, i, k * c.imcu)
  {
    hide Shape.Holding, RowShown;
    ListIsLong(c, l, x, k);
    if k == 0 {
      TopShown(c, x, buf, i);
    } else {
      NormalShown(c, l, x, buf, k, i);
    }
  }

  lemma ListIsLong(c: Shape, l: nat, x: seq<int>, k: nat)
    requires c.Valid() && if k == 0 then l == 0 && c.Top(x) else c.Wrapped(l, x)
    ensures |x| == c.ListLength()
  {}

  // Row groups 0 .. m - 2 of an iMCU row other than the last.
  lemma InnerGroup(c: Shape, l: nat, x: seq<int>, buf: seq<int>, k: nat, m: nat, q: nat)
    requires c.Valid() && c.imcu == m * c.g && l <= 1 && c.Holding(l, buf, k) && k * c.imcu <= c.h
    requires if k == 0 then l == 0 && c.Top(x) else c.Wrapped(l, x)
    requires q + 2 <= m
    ensures Viewable(c, x, buf, q) && InContext(c, false, k * m + q, View(c, x, buf, q))
  {
    hide Shape.Holding, Shape.Top, Shape.Wrapped, RowOk, Viewable, InContext, View;
    ListIsLong(c, l, x, k);
    GroupInside(c.g, m, q);
    var from := c.g * q;
    forall i | from - c.g <= i < from + 2 * c.g ensures RowOk(c, false, x, buf, i, k * c.imcu) {
      InnerRow(c, l, x, buf, k, i);
    }
    GroupNumber(c, k, m, q);
    GroupShown(c, false, x, buf, q, k * m + q, from, k * c.imcu);
  }

  // The postponed last row group of iMCU row k - 1, seen at offset m + 1 of the other list.
  lemma PostponedGroup(c: Shape, l: nat, x: seq<int>, buf: seq<int>, k: nat, m: nat)
    requires c.Valid() && c.imcu == m * c.g && l <= 1 && c.Holding(l, buf, k) && k * c.imcu <= c.h
    requires c.Wrapped(l, x) && k > 0 && m >= 2
    ensures Viewable(c, x, buf, m + 1) && InContext(c, false, k * m - 1, View(c, x, buf, m + 1))
  {
    var base := k * c.imcu - c.Rows();
    ProductAssoc(k, m, c.g);
    assert c.g * (m + 1) == c.imcu + c.g;
    assert c.g * (k * m - 1) == k * c.imcu - c.g;
    forall e | c.g * (m + 1) <= e < c.g * (m + 1) + 3 * c.g
      ensures 0 <= x[e] < |buf| && RowShown(c, false, base + e - c.g, buf[x[e]])
    {
      PostponedShown(c, l, x, buf, k, e - c.g);
    }
  }

  // The row groups of the last iMCU row.
  lemma BottomGroup(c: Shape, l: nat, x: seq<int>, before: seq<int>, buf: seq<int>, k: nat, m: nat, r: nat, q: nat)
    requires c.Valid() && c.imcu == m * c.g && l <= 1 && c.Holding(l, buf, k) && k * c.imcu <= c.h
    requires if k == 0 then l == 0 && c.Top(before) else c.Wrapped(l, before)
    requires r == c.RowsLeft(k) && 1 <= r <= c.imcu && |before| == c.ListLength() && c.Bottom(x, before, r)
    requires c.g * q < r
    ensures Viewable(c, x, buf, q) && InContext(c, true, k * m + q, View(c, x, buf, q))
  {
    hide Shape.Holding, Shape.Top, Shape.Wrapped, Shape.Bottom, RowOk, Viewable, InContext, View;
    ListIsLong(c, l, before, k);
    BottomIsLong(c, x, before, r);
    var from := c.g * q;
    forall i | from - c.g <= i < from + 2 * c.g ensures RowOk(c, true, x, buf, i, k * c.imcu) {
      BottomRow(c, l, x, before, buf, k, r, i);
    }
    GroupNumber(c, k, m, q);
    GroupShown(c, true, x, buf, q, k * m + q, from, k * c.imcu);
  }

  lemma BottomIsLong(c: Shape, x: seq<int>, before: seq<int>, r: nat)
    requires 1 <= r <= c.imcu && |before| == c.ListLength() && c.Bottom(x, before, r)
    ensures |x| == c.ListLength()
  {}

  // A row of the last iMCU row, in its context.
  lemma BottomRow(c: Shape, l: nat, x: seq<int>, before: seq<int>, buf: seq<int>, k: nat, r: nat, i: int)
    requires c.Valid() && l <= 1 && c.Holding(l, buf, k) && k * c.imcu <= c.h
    requires if k == 0 then l == 0 && c.Top(before) else c.Wrapped(l, before)
    requires r == c.RowsLeft(k) && 1 <= r <= c.imcu && |before| == c.ListLength() && c.Bottom(x, before, r)
    requires 0 - c.g <= i < r + 2 * c.g
    ensures RowOk(c, true, x, buf, i, k * c.imcu)
  {
    hide Shape.Holding, Shape.Bottom, Shape.Top, Shape.Wrapped, RowShown;
    BottomIsLong(c, x, before, r);
    BottomShown(c, l, x, before, buf, k, r, i);
  }

  // The last two row groups of an iMCU row lie where the other list has them behind the next one.
  lemma TrailBehind(c: Shape, l: nat, buf: seq<int>, k: nat)
    requires c.Valid() && l <= 1 && c.Holding(1 - l, buf, k) && (k + 1) * c.imcu <= c.h
    ensures c.Trailing(l, buf, k + 1)
  {
    assert (k + 1) * c.imcu == k * c.imcu + c.imcu;
    forall i | c.imcu <= i < c.Rows() ensures buf[c.Phys(l, i)] == (k + 1) * c.imcu + i - c.Rows() {
      assert c.Phys(l, i) == c.Phys(1 - l, i - 2 * c.g);
    }
  }

  lemma WrapStarts(c: Shape, l: nat, x: seq<int>)
    requires c.Valid() && c.Funny(l, x)
    ensures c.WrappedUpTo(l, x, 0)
  {}

  lemma WrapStep(c: Shape, l: nat, x: seq<int>, i: nat)
    requires c.Valid() && c.WrappedUpTo(l, x, i) && i < c.g
    ensures |x| == c.ListLength()
    ensures c.WrappedUpTo(l, x[i := x[c.imcu + 2 * c.g + i]][c.imcu + 3 * c.g + i := x[c.g + i]], i + 1)
  {
    hide Shape.Phys;
  }

  lemma WrapEnds(c: Shape, l: nat, x: seq<int>)
    requires c.Valid() && c.WrappedUpTo(l, x, c.g)
    ensures c.Wrapped(l, x)
  {}

  // Workspace and pointer lists as values.
  datatype Snap = Snap(buf: seq<int>, x0: seq<int>, x1: seq<int>) {
    function X(l: nat): seq<int> {
      if l == 0 then x0 else x1
    }

    ghost predicate AtTop(c: Shape) {
      c.Top(x0) && c.Funny(1, x1)
    }

    ghost predicate Inside(c: Shape) {
      c.Wrapped(0, x0) && c.Wrapped(1, x1)
    }

    // iMCU row k has been read through list l, and the lists suit its position.
    ghost predicate Arrived(c: Shape, l: nat, k: nat)
      requires c.Valid()
    {
      (if k == 0 then l == 0 && AtTop(c) else Inside(c)) && c.Holding(l, buf, k)
    }

    // The last iMCU row, k, has been read through list l and the list shows the image's end.
    ghost predicate Ending(c: Shape, l: nat, k: nat)
      requires c.Valid()
    {
      c.Holding(l, buf, k) && exists before :: EndedFrom(c, l, k, before)
    }

    // List l has been `before`, and shows the image's end.
    ghost predicate EndedFrom(c: Shape, l: nat, k: nat, before: seq<int>)
      requires c.Valid()
    {
      && |before| == c.ListLength()
      && (if k == 0 then l == 0 && c.Top(before) else c.Wrapped(l, before))
      && c.Bottom(X(l), before, c.LastRows())
    }
  }

  // A list points to each row once.
  lemma PhysApart(c: Shape, l: nat, i: int)
    requires c.Valid() && l <= 1 && 0 <= i < c.Rows()
    ensures forall j | 0 <= j < c.Rows() && j != i :: c.Phys(l, j) != c.Phys(l, i)
  {}

  // The row pointer lists and the workspace of one component.
  class Strip {
    const c: Shape
    const buffer: array<int>
    const xbuffer0: array<int>
    const xbuffer1: array<int>

    ghost predicate Valid() {
      && c.Valid()
      && buffer.Length == c.Rows()
      && xbuffer0.Length == xbuffer1.Length == c.ListLength()
      && buffer != xbuffer0 && buffer != xbuffer1 && xbuffer0 != xbuffer1
    }

    function Arrays(): set<array<int>> {
      {buffer, xbuffer0, xbuffer1}
    }

    function List(l: nat): array<int> {
      if l == 0 then xbuffer0 else xbuffer1
    }

    // What the arrays hold now.
    ghost function Now(): Snap
      reads buffer, xbuffer0, xbuffer1
    {
      Snap(buffer[..], xbuffer0[..], xbuffer1[..])
    }

    // alloc_funny_pointers and the workspace allocation of jinit_d_main_controller.
    constructor (c: Shape)
      requires c.Valid()
      ensures Valid() && this.c == c && fresh(Arrays())
    {
      this.c := c;
      buffer := new int[c.imcu + 2 * c.g];
      xbuffer0 := new int[c.imcu + 4 * c.g];
      xbuffer1 := new int[c.imcu + 4 * c.g];
    }

    // The first loop of make_funny_pointers: both lists point straight at the rows.
    method PointStraight()
      requires Valid()
      modifies xbuffer0, xbuffer1
      ensures forall e | c.g <= e < c.imcu + 3 * c.g :: xbuffer0[e] == e - c.g && xbuffer1[e] == e - c.g
    {
      var g, imcu := c.g, c.imcu;
      for i := 0 to imcu + 2 * g
        invariant forall e | g <= e < g + i :: xbuffer0[e] == e - g && xbuffer1[e] == e - g
      {
        xbuffer0[g + i], xbuffer1[g + i] := i, i;
      }
    }

    // The second loop: the second list gets its last four row groups in swapped order.
    method SwapGroups()
      requires Valid()
      requires forall e | c.g <= e < c.imcu + 3 * c.g :: xbuffer1[e] == e - c.g
      modifies xbuffer1
      ensures forall e | c.g <= e < c.imcu + 3 * c.g :: xbuffer1[e] == c.Phys(1, e - c.g)
    {
      var g, imcu := c.g, c.imcu;
      for i := 0 to 2 * g
        invariant forall e | g <= e < imcu - g :: xbuffer1[e] == e - g
        invariant forall e | imcu - g <= e < imcu - g + i :: xbuffer1[e] == e + g
        invariant forall e | imcu + g <= e < imcu + g + i :: xbuffer1[e] == e - 3 * g
      {
        xbuffer1[g + (imcu - 2 * g) + i] := imcu + i;
        xbuffer1[g + imcu + i] := imcu - 2 * g + i;
      }
    }

    // make_funny_pointers
    method MakeFunnyPointers()
      requires Valid()
      modifies xbuffer0, xbuffer1
      ensures c.Top(xbuffer0[..]) && c.Funny(1, xbuffer1[..])
    {
      var g, imcu := c.g, c.imcu;
      PointStraight();
      SwapGroups();
      for i := 0 to g
        invariant forall e | g <= e < imcu + 3 * g :: xbuffer0[e] == e - g
        invariant forall e | g <= e < imcu + 3 * g :: xbuffer1[e] == c.Phys(1, e - g)
        invariant forall e | 0 <= e < i :: xbuffer0[e] == 0
      {
        xbuffer0[i] := xbuffer0[g];
      }
    }

    // set_wraparound_pointers
    method SetWraparoundPointers()
      requires Valid()
      modifies xbuffer0, xbuffer1
      ensures old(c.Funny(0, xbuffer0[..]) && c.Funny(1, xbuffer1[..])) ==>
                c.Wrapped(0, xbuffer0[..]) && c.Wrapped(1, xbuffer1[..])
    {
      hide Shape.WrappedUpTo, Shape.Wrapped, Shape.Funny;
      var g, imcu := c.g, c.imcu;
      ghost var funny := c.Funny(0, xbuffer0[..]) && c.Funny(1, xbuffer1[..]);
      if funny {
        WrapStarts(c, 0, xbuffer0[..]);
        WrapStarts(c, 1, xbuffer1[..]);
      }
      for i := 0 to g
        invariant funny ==> c.WrappedUpTo(0, xbuffer0[..], i) && c.WrappedUpTo(1, xbuffer1[..], i)
      {
        if funny {
          WrapStep(c, 0, xbuffer0[..], i);
          WrapStep(c, 1, xbuffer1[..], i);
        }
        xbuffer0[i] := xbuffer0[g + imcu + g + i];
        xbuffer1[i] := xbuffer1[g + imcu + g + i];
        xbuffer0[g + imcu + 2 * g + i] := xbuffer0[g + i];
        xbuffer1[g + imcu + 2 * g + i] := xbuffer1[g + i];
      }
      if funny {
        WrapEnds(c, 0, xbuffer0[..]);
        WrapEnds(c, 1, xbuffer1[..]);
      }
    }

    // The pointer part of set_bottom_pointers; the real rows of the last iMCU row are counted.
    method SetBottomPointers(l: nat) returns (rowsLeft: nat)
      requires Valid()
      modifies List(l)
      ensures rowsLeft == c.LastRows()
      ensures c.Bottom(List(l)[..], old(List(l)[..]), rowsLeft)
    {
      rowsLeft := c.h % c.imcu;
      if rowsLeft == 0 {
        rowsLeft := c.imcu;
      }
      assert rowsLeft == c.LastRows();
      hide Shape.LastRows;
      var x, g := List(l), c.g;
      for i := 0 to 2 * g
        invariant forall e | 0 <= e < g + rowsLeft :: x[e] == old(x[e])
        invariant forall e | g + rowsLeft <= e < g + rowsLeft + i :: x[e] == old(x[g + rowsLeft - 1])
        invariant forall e | rowsLeft + 3 * g <= e < x.Length :: x[e] == old(x[e])
      {
        x[g + rowsLeft + i] := x[g + rowsLeft - 1];
      }
    }

    // decompress_data fills the rows a list points to; in the last iMCU row it may leave
    // rows below the image as they are.
    method ReadRows(l: nat, k: nat, written: nat)
      requires Valid() && l <= 1 && c.Funny(l, List(l)[..])
      requires written <= c.imcu && (written < c.imcu ==> k * c.imcu + written >= c.h)
      requires k > 0 ==> c.Trailing(l, buffer[..], k)
      modifies buffer
      ensures c.Holding(l, buffer[..], k)
    {
      var x, g, imcu := List(l), c.g, c.imcu;
      ghost var base := k * imcu;
      hide Shape.Phys;
      for i := 0 to written
        invariant x[..] == old(x[..])
        invariant forall j | 0 <= j < i :: buffer[c.Phys(l, j)] == base + j
        invariant forall j | imcu <= j < imcu + 2 * g :: buffer[c.Phys(l, j)] == old(buffer[c.Phys(l, j)])
      {
        PhysApart(c, l, i);
        assert x[g + i] == c.Phys(l, i);
        buffer[x[g + i]] := k * imcu + i;
      }
    }

    // Reading that is suspended has put something into the rows of list l, whatever it is.
    method ReadPartly(l: nat, ghost k: nat, stored: seq<int>)
      requires Valid() && l <= 1 && c.Funny(l, List(l)[..]) && |stored| <= c.imcu
      requires k > 0 ==> c.Trailing(l, buffer[..], k)
      modifies buffer
      ensures k > 0 ==> c.Trailing(l, buffer[..], k)
    {
      var x, g, imcu := List(l), c.g, c.imcu;
      for i := 0 to |stored|
        invariant x[..] == old(x[..])
        invariant forall j | imcu <= j < imcu + 2 * g :: buffer[c.Phys(l, j)] == old(buffer[c.Phys(l, j)])
      {
        buffer[x[g + i]] := stored[i];
      }
    }
  }
}
