/**
  Virtual arrays (access_virt_sarray, access_virt_barray and their backing-store transfers in
  jmemmgr.c): an image-sized array of rows of which only a window is in memory, the rest
  being in a backing file.

  The ghost field `shadow` is the plain array being simulated.  A row's entry is None while
  its contents are unspecified: arrays that are not pre-zeroed start that way.
  */
module VirtualArray {
  import opened Arithmetic
  import opened Options

  type Row = seq<int>

  datatype Content = Unspecified | Holds(row: Row)

  datatype Access = Granted(bufferRow: nat) | BadVirtualAccess | VirtualBug

  function ZeroRow(width: nat): (row: Row)
    ensures |row| == width && forall i | 0 <= i < width :: row[i] == 0
  {
    seq(width, i => 0)
  }

  function Min(a: int, b: int): (m: int)
    ensures m <= a && m <= b && (m == a || m == b)
  {
    if a <= b then a else b
  }

  class VirtArray {
    const rowsInArray: nat
    const width: nat
    const maxAccess: nat
    const rowsInMem: nat
    const rowsPerChunk: nat
    const preZero: bool
    const bsOpen: bool
    const memBuffer: array<Row>
    const store: array<Row>        // the backing file, row by row
    var curStartRow: nat
    var firstUndefRow: nat
    var dirty: bool

    ghost var shadow: seq<Content>
    // The strip the caller may use now: rows lo .. hi - 1, and whether it may write them.
    ghost var lo: nat
    ghost var hi: nat
    ghost var mayWrite: bool

    predicate InWindow(r: int)
      reads this
    {
      curStartRow <= r < curStartRow + rowsInMem
    }

    // What realize_virt_arrays sets up.
    ghost predicate Realized() {
      && memBuffer.Length == rowsInMem && store.Length == rowsInArray && memBuffer != store
      && rowsPerChunk > 0 && maxAccess <= rowsInMem
      && (!bsOpen ==> rowsInMem == rowsInArray)
    }

    // Every row is where it should be, the window being dirty or not.
    ghost predicate Kept(dirty: bool)
      requires Realized()
      reads this, memBuffer, store
    {
      && |shadow| == rowsInArray && firstUndefRow <= rowsInArray && curStartRow <= rowsInArray
      && (!bsOpen ==> curStartRow == 0)
      && (forall r | 0 <= r < |shadow| && shadow[r] == Unspecified :: !preZero)
      && (forall r | firstUndefRow <= r < |shadow| && shadow[r].Holds? :: preZero && shadow[r].row == ZeroRow(width))
      && (forall r | 0 <= r < firstUndefRow && shadow[r].Holds? && InWindow(r) ::
        memBuffer[r - curStartRow] == shadow[r].row)
      && (forall r | 0 <= r < firstUndefRow && shadow[r].Holds? && (!InWindow(r) || (bsOpen && !dirty)) ::
            store[r] == shadow[r].row)
    }

    // The rows of the strip are in the window, and readable.
    ghost predicate StripOk()
      requires Realized()
      reads this, memBuffer
    {
      && curStartRow <= lo <= hi <= rowsInArray && hi <= curStartRow + rowsInMem
      && (mayWrite ==> hi <= firstUndefRow && dirty)
      && (lo < hi && firstUndefRow < hi ==> preZero)
      && forall b | lo - curStartRow <= b < hi - curStartRow && curStartRow + b >= firstUndefRow ::
           memBuffer[b] == ZeroRow(width)
    }

    ghost predicate Valid()
      reads this, memBuffer, store
    {
      Realized() && Kept(dirty) && StripOk()
    }

    constructor (rowsInArray: nat, width: nat, maxAccess: nat, rowsInMem: nat, rowsPerChunk: nat, preZero: bool,
                 bsOpen: bool)
      requires rowsPerChunk > 0 && maxAccess <= rowsInMem && (!bsOpen ==> rowsInMem == rowsInArray)
      ensures Valid() && fresh(memBuffer) && fresh(store)
      ensures this.rowsInArray == rowsInArray && this.width == width && this.maxAccess == maxAccess
      ensures this.preZero == preZero && this.bsOpen == bsOpen
      ensures shadow == seq(rowsInArray, r => if preZero then Holds(ZeroRow(width)) else Unspecified)
      ensures lo == hi && firstUndefRow == 0
    {
      this.rowsInArray, this.width, this.maxAccess, this.rowsInMem := rowsInArray, width, maxAccess, rowsInMem;
      this.rowsPerChunk, this.preZero, this.bsOpen := rowsPerChunk, preZero, bsOpen;
      memBuffer := new Row[rowsInMem];
      store := new Row[rowsInArray];
      curStartRow, firstUndefRow, dirty := 0, 0, false;
      shadow := seq(rowsInArray, r => if preZero then Holds(ZeroRow(width)) else Unspecified);
      lo, hi, mayWrite := 0, 0, false;
    }

    // Rows up to which a transfer goes: those in the window, defined, and in the file.
    function TransferEnd(): (e: int)
      reads this
      ensures e <= rowsInArray && e <= curStartRow + rowsInMem
    {
      Min(Min(curStartRow + rowsInMem, firstUndefRow), rowsInArray)
    }

    // One transfer between the backing store and the contiguous rows of one chunk.
    method Transfer(i: nat, offset: nat, rows: nat, writing: bool)
      requires Realized() && i % rowsPerChunk == 0 && rows <= rowsPerChunk
      requires i + rows <= rowsInMem && offset + rows <= rowsInArray
      modifies if writing then store else memBuffer
      ensures writing ==> forall r | 0 <= r < rowsInArray ::
                store[r] == if offset <= r < offset + rows then memBuffer[i + r - offset] else old(store[r])
      ensures !writing ==> forall b | 0 <= b < rowsInMem ::
                memBuffer[b] == if i <= b < i + rows then store[offset + b - i] else old(memBuffer[b])
    {
      for n := 0 to rows
        invariant writing ==> forall r | 0 <= r < rowsInArray ::
                    store[r] == if offset <= r < offset + n then memBuffer[i + r - offset] else old(store[r])
        invariant !writing ==> forall b | 0 <= b < rowsInMem ::
                    memBuffer[b] == if i <= b < i + n then store[offset + b - i] else old(memBuffer[b])
      {
        if writing {
          store[offset + n] := memBuffer[i + n];
        } else {
          memBuffer[i + n] := store[offset + n];
        }
      }
    }

    // Rows to transfer for the chunk that begins at window row i.
    function ChunkRows(i: nat): int
      reads this
    {
      var thisRow := curStartRow + i;
      Min(Min(Min(rowsPerChunk, rowsInMem - i), firstUndefRow - thisRow), rowsInArray - thisRow)
    }

    // A chunk is transferred whole unless the transfer ends in it.
    lemma ChunkReach(i: nat)
      requires Realized() && i < rowsInMem
      ensures var rows, from, end := ChunkRows(i), curStartRow + i, TransferEnd();
        && (rows <= 0 <==> end <= from)
        && (rows > 0 ==> rows <= rowsPerChunk && i + rows <= rowsInMem && from + rows <= rowsInArray)
        && (rows > 0 ==> from + rows == Min(from + rowsPerChunk, end))
    {}

    // do_sarray_io / do_barray_io: transfer the window, chunk by chunk.
    method DoIo(writing: bool)
      requires Realized()
      modifies if writing then store else memBuffer
      ensures writing ==> forall r | 0 <= r < rowsInArray ::
                store[r] == if curStartRow <= r < TransferEnd() then memBuffer[r - curStartRow] else old(store[r])
      ensures !writing ==> forall b | 0 <= b < rowsInMem ::
                memBuffer[b] == if curStartRow + b < TransferEnd() then store[curStartRow + b] else old(memBuffer[b])
    {
      hide TransferEnd, ChunkRows;
      var fileOffset := curStartRow;
      var i: nat := 0;
      while i < rowsInMem
        invariant i % rowsPerChunk == 0
        invariant fileOffset == curStartRow + i || (fileOffset <= curStartRow + i && TransferEnd() <= curStartRow + i)
        invariant writing ==> forall r | 0 <= r < rowsInArray ::
                    store[r] == if curStartRow <= r < Min(curStartRow + i,
                      TransferEnd()) then memBuffer[r - curStartRow] else old(store[r])
        invariant !writing ==> forall b | 0 <= b < rowsInMem ::
                    memBuffer[b] == if curStartRow + b < Min(curStartRow + i, TransferEnd()) then store[curStartRow + b]
                      else old(memBuffer[b])
      {
        var rows: int := Min(rowsPerChunk, rowsInMem - i);
        var thisRow := curStartRow + i;
        rows := Min(rows, firstUndefRow - thisRow);
        rows := Min(rows, rowsInArray - thisRow);
        ChunkIs(i, rows);
        ChunkReach(i);
        if rows <= 0 {
          break;
        }
        Transfer(i, fileOffset, rows, writing);
        fileOffset := fileOffset + rows;
        ShiftRemainder(i, rowsPerChunk, 1);
        i := i + rowsPerChunk;
      }
    }

    lemma ChunkIs(i: nat, rows: int)
      requires rows == Min(Min(Min(rowsPerChunk, rowsInMem - i), firstUndefRow - (curStartRow + i)),
          rowsInArray - (curStartRow + i))
      ensures rows == ChunkRows(i)
    {}

    // The accesses the caller may make: inside the array, no higher than announced, and a
    // writer must not leave a gap of undefined rows, nor a reader look at undefined rows
    // unless they are pre-zeroed.
    predicate Legal(startRow: nat, numRows: nat, writable: bool)
      reads this
    {
      && startRow + numRows <= rowsInArray && numRows <= maxAccess
      && (firstUndefRow < startRow + numRows ==> if writable then startRow <= firstUndefRow else preZero)
    }

    // Write the window back if necessary.
    method WriteBack()
      requires Realized() && Kept(dirty) && bsOpen
      modifies this`dirty, store
      ensures Kept(false) && !dirty
    {
      if dirty {
        DoIo(true);
        dirty := false;
      }
    }

    // Write the window back if necessary and move it over the rows asked for.
    method MoveWindow(startRow: nat, endRow: nat)
      requires Valid() && bsOpen && startRow <= endRow <= rowsInArray && endRow - startRow <= maxAccess
      requires startRow < curStartRow || endRow > curStartRow + rowsInMem
      modifies this`curStartRow, this`dirty, memBuffer, store
      ensures Realized() && Kept(dirty)
      ensures curStartRow <= startRow && endRow <= curStartRow + rowsInMem
    {
      WriteBack();
      assert forall r | 0 <= r < firstUndefRow && shadow[r].Holds? :: store[r] == shadow[r].row;
      if startRow > curStartRow {
        curStartRow := startRow;
      } else {
        curStartRow := if endRow < rowsInMem then 0 else endRow - rowsInMem;
      }
      DoIo(false);
    }

    // access_virt_sarray / access_virt_barray
    method AccessRows(startRow: nat, numRows: nat, writable: bool) returns (a: Access)
      requires Valid()
      modifies this`curStartRow, this`firstUndefRow, this`dirty, this`lo, this`hi, this`mayWrite, memBuffer, store
      ensures Valid()
      ensures a.Granted? <==> old(Legal(startRow, numRows, writable))
      ensures a.Granted? ==> lo == startRow && hi == startRow + numRows && mayWrite == writable
      ensures a.Granted? ==> a.bufferRow == startRow - curStartRow
      ensures a != VirtualBug
      ensures firstUndefRow == if a.Granted? && writable
          && old(firstUndefRow) < startRow + numRows then startRow + numRows
                               else old(firstUndefRow)
    {
      hide Kept;
      var endRow := startRow + numRows;
      if endRow > rowsInArray || numRows > maxAccess {
        return BadVirtualAccess;
      }
      var ok := BringIn(startRow, endRow);
      if !ok {
        return VirtualBug;
      }
      ok := EnsureDefined(startRow, endRow, writable);
      if !ok {
        return BadVirtualAccess;
      }
      Grant(startRow, endRow, writable);
      a := Granted(startRow - curStartRow);
    }

    // Flag the buffer dirty if the caller will write in it; the strip is the caller's.
    method Grant(startRow: nat, endRow: nat, writable: bool)
      requires Realized() && Kept(dirty || writable) && startRow <= endRow <= rowsInArray
      requires curStartRow <= startRow && endRow <= curStartRow + rowsInMem
      requires if writable then endRow <= firstUndefRow else firstUndefRow < endRow ==> preZero
      requires forall b | startRow - curStartRow <= b < endRow - curStartRow && curStartRow + b >= firstUndefRow ::
                 memBuffer[b] == ZeroRow(width)
      modifies this`dirty, this`lo, this`hi, this`mayWrite
      ensures Valid() && lo == startRow && hi == endRow && mayWrite == writable
    {
      if writable {
        dirty := true;
      }
      lo, hi, mayWrite := startRow, endRow, writable;
    }

    // The first half of an access: make sure the window covers the rows.
    method BringIn(startRow: nat, endRow: nat) returns (ok: bool)
      requires Valid() && startRow <= endRow <= rowsInArray && endRow - startRow <= maxAccess
      modifies this`curStartRow, this`dirty, this`lo, this`hi, this`mayWrite, memBuffer, store
      ensures Valid() && ok
      ensures curStartRow <= startRow && endRow <= curStartRow + rowsInMem
    {
      if startRow < curStartRow || endRow > curStartRow + rowsInMem {
        if !bsOpen {
          return false;
        }
        MoveWindow(startRow, endRow);
        lo, hi, mayWrite := startRow, startRow, false;
      }
      ok := true;
    }

    // The second half of an access: ensure that the rows in the window are defined.
    method EnsureDefined(startRow: nat, endRow: nat, writable: bool) returns (ok: bool)
      requires Realized() && Kept(dirty) && startRow <= endRow <= rowsInArray
      requires curStartRow <= startRow && endRow <= curStartRow + rowsInMem
      modifies this`firstUndefRow, memBuffer
      ensures ok <==> (old(firstUndefRow) < endRow ==> if writable then startRow <= old(firstUndefRow) else preZero)
      ensures Kept(dirty || (ok && writable))
      ensures firstUndefRow == if ok && writable && old(firstUndefRow) < endRow then endRow else old(firstUndefRow)
      ensures ok ==>
          forall b | startRow - curStartRow <= b < endRow - curStartRow && curStartRow + b >= firstUndefRow ::
                       memBuffer[b] == ZeroRow(width)
      ensures !ok ==> memBuffer[..] == old(memBuffer[..])
    {
      if firstUndefRow >= endRow {
        return true;
      }
      var undefRow := firstUndefRow;
      if firstUndefRow < startRow {
        if writable {
          return false;
        }
        undefRow := startRow;
      }
      if !preZero && !writable {
        return false;
      }
      ClearRows(undefRow, endRow, writable);
      ok := true;
    }

    // The rows from undefRow on become accessible; pre-zero them if asked to.
    method ClearRows(undefRow: nat, endRow: nat, writable: bool)
      requires Realized() && Kept(dirty) && firstUndefRow <= undefRow <= endRow <= rowsInArray
      requires curStartRow <= undefRow && endRow <= curStartRow + rowsInMem
      requires preZero || writable
      requires writable ==> undefRow == firstUndefRow
      modifies this`firstUndefRow, memBuffer
      ensures Kept(dirty || writable)
      ensures firstUndefRow == if writable then endRow else old(firstUndefRow)
      ensures preZero ==>
                forall b | undefRow - curStartRow <= b < endRow - curStartRow :: memBuffer[b] == ZeroRow(width)
    {
      if writable {
        firstUndefRow := endRow;
      }
      if preZero {
        ZeroRows(undefRow - curStartRow, endRow - curStartRow);
      }
    }

    method ZeroRows(from: nat, to: nat)
      requires from <= to <= memBuffer.Length
      modifies memBuffer
      ensures forall j | 0 <= j < memBuffer.Length ::
                memBuffer[j] == if from <= j < to then ZeroRow(width) else old(memBuffer[j])
    {
      hide ZeroRow;
      var b := from;
      while b < to
        invariant from <= b <= to
        invariant forall j | 0 <= j < memBuffer.Length ::
            memBuffer[j] == if from <= j < b then ZeroRow(width) else old(memBuffer[j])
      {
        memBuffer[b] := ZeroRow(width);
        b := b + 1;
      }
    }

    // The caller writes a row of a strip it was granted for writing.
    method WriteRow(r: nat, row: Row)
      requires Valid() && mayWrite && lo <= r < hi
      modifies this`shadow, memBuffer
      ensures Valid() && shadow == old(shadow)[r := Holds(row)]
    {
      memBuffer[r - curStartRow] := row;
      shadow := shadow[r := Holds(row)];
    }

    // The caller reads a row of the strip it was granted: what it wrote there last, or zeros
    // if it never wrote there and the array is pre-zeroed.
    method ReadRow(r: nat) returns (row: Row)
      requires Valid() && lo <= r < hi
      ensures r < |shadow| && (shadow[r].Holds? ==> row == shadow[r].row)
    {
      row := memBuffer[r - curStartRow];
    }

    ghost function Abs(): Plain
      reads this
    {
      Plain(shadow, firstUndefRow, maxAccess, preZero, lo, hi, mayWrite)
    }

    // One operation of the caller.
    method Apply(op: Op) returns (ok: bool, row: Row)
      requires Valid()
      requires op.Get? || Abs().Step(op).Some?    // strips are used as granted
      modifies this, memBuffer, store
      ensures Valid()
      ensures ok <==> old(Abs()).Step(op).Some?
      ensures ok ==> var (next, content) := old(Abs()).Step(op).value;
                     Abs() == next && (content.Holds? ==> row == content.row)
    {
      ok, row := true, [];
      match op {
        case Get(startRow, numRows, writable) =>
          var a := AccessRows(startRow, numRows, writable);
          ok := a.Granted?;
        case Put(r, data) =>
          WriteRow(r, data);
        case Look(r) =>
          row := ReadRow(r);
      }
    }
  }

  // What the caller does with the array: get at a strip, write a row of it, look at a row of it.
  datatype Op = Get(startRow: nat, numRows: nat, writable: bool) | Put(r: nat, row: Row) | Look(r: nat)

  // The plain array a virtual array stands for: contents, number of defined rows, and the
  // strip granted.  There is no window and no backing store.
  datatype Plain = Plain(rows: seq<Content>, defined: nat, maxAccess: nat, preZero: bool, lo: nat, hi: nat,
                         mayWrite: bool) {
    // The state after an operation and what it reads; None if the operation is not allowed.
    function Step(op: Op): Option<(Plain, Content)> {
      match op
      case Get(startRow, numRows, writable) =>
        var end := startRow + numRows;
        if end > |rows| || numRows > maxAccess then None
        else if defined < end && (if writable then startRow > defined else !preZero) then None
        else
          var d := if writable && defined < end then end else defined;
          Some((this.(defined := d, lo := startRow, hi := end, mayWrite := writable), Unspecified))
      case Put(r, row) =>
        if mayWrite && lo <= r < hi <= |rows| then Some((this.(rows := rows[r := Holds(row)]), Unspecified)) else None
      case Look(r) =>
        if lo <= r < hi <= |rows| then Some((this, rows[r])) else None
    }

    // The contents read by a sequence of operations, up to the first that is not allowed.
    function Reads(ops: seq<Op>): seq<Content>
      decreases |ops|
    {
      if ops == [] then []
      else
        match Step(ops[0])
        case None => []
        case Some((next, content)) => [content] + next.Reads(ops[1..])
    }

    // Rows are only touched within the strip granted last (for writing, if written).
    predicate Disciplined(ops: seq<Op>)
      decreases |ops|
    {
      ops != [] ==>
        match Step(ops[0])
        case None => ops[0].Get?
        case Some((next, _)) => next.Disciplined(ops[1..])
    }
  }

  // The rows read agree with the plain contents, where these are specified.
  ghost predicate Agrees(outs: seq<Row>, plain: seq<Content>) {
    |outs| == |plain| && forall i | 0 <= i < |outs| && plain[i].Holds? :: outs[i] == plain[i].row
  }

  // Whatever the sequence of accesses and whatever the size of the window, the rows read are
  // those of the plain array, and exactly the accesses the plain array allows are granted.
  method RunAll(v: VirtArray, ops: seq<Op>) returns (outs: seq<Row>)
    requires v.Valid() && v.Abs().Disciplined(ops)
    modifies v, v.memBuffer, v.store
    ensures v.Valid() && Agrees(outs, old(v.Abs()).Reads(ops))
  {
    outs := [];
    var i := 0;
    ghost var plain := v.Abs().Reads(ops);
    ghost var done: seq<Content> := [];
    assert ops[0..] == ops && done + plain == plain;
    while i < |ops|
      invariant 0 <= i <= |ops| && v.Valid() && v.Abs().Disciplined(ops[i..])
      invariant Agrees(outs, done) && done + v.Abs().Reads(ops[i..]) == plain
    {
      hide Plain.Step;
      assert ops[i..][0] == ops[i] && ops[i..][1..] == ops[i + 1..];
      ghost var step := v.Abs().Step(ops[i]);
      var ok, row := v.Apply(ops[i]);
      if !ok {
        assert done + [] == done;
        return;
      }
      ConcatOne(done, step.value.1, v.Abs().Reads(ops[i + 1..]));
      done := done + [step.value.1];
      outs := outs + [row];
      i := i + 1;
    }
    assert done + [] == done;
  }

  lemma ConcatOne(a: seq<Content>, c: Content, b: seq<Content>)
    ensures a + ([c] + b) == (a + [c]) + b
  {}
}
