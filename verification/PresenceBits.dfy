/**
 The cell existence block of a table row, and why its bits agree with the cells that are really there after the
 table writer has patched the row (src/messaging.cpp, src/ltp.cpp; section 2.3.4.4.1 of [MS-PST]).
 */
module PresenceBits {
  import opened Bytes
  import opened ByteBits
  import opened Heap
  import opened Sorting
  import opened TableBuilder
  import opened TableContext
  import opened TableReader
  import opened TableSize
  import opened Wrappers

  const PTYPE_UNICODE: UInt16 := 0x001F
  const PTYPE_BINARY: UInt16 := 0x0102

  // ---- Bits, the highest of each byte first ----

  predicate BitOn(b: Byte, k: nat) {
    Bit(b, k) == 1
  }

  predicate CebBit(ceb: seq<Byte>, iBit: nat)
    requires iBit < 8 * |ceb|
  {
    BitOn(ceb[iBit / 8], 7 - iBit % 8)
  }

  ghost predicate CebShows(ceb: seq<Byte>, bits: set<nat>) {
    forall i | 0 <= i < 8 * |ceb| :: CebBit(ceb, i) <==> i in bits
  }

  lemma NothingOn(k: nat)
    ensures !BitOn(0, k)
  {
    Quotient(0, Pow2(k), 0, 0);
  }

  lemma NoBits(n: nat)
    ensures CebShows(Zeros(n), {})
  {
    hide BitOn;
    forall i | 0 <= i < 8 * n
      ensures !CebBit(Zeros(n), i)
    {
      NothingOn(7 - i % 8);
    }
  }

  /** The byte with bit `k` set as well. */
  function WithBit(b: Byte, k: nat): Byte
    requires k < 8
  {
    Pow2At8();
    BitFits(b, k, 8);
    if Bit(b, k) == 1 then b else b + Pow2(k)
  }

  lemma WithBitShows(b: Byte, k: nat, j: nat)
    requires k < 8 && j < 8
    ensures BitOn(WithBit(b, k), j) <==> j == k || BitOn(b, j)
  {
    hide Bit, Pow2;
    Pow2At8();
    BitFits(b, k, 8);
    if Bit(b, k) == 0 {
      BitAdded(b, k, j);
    }
  }

  // ---- A row while it is being filled ----

  /** The fixed cells written so far, zeros up to the existence block, and the bits set in it. */
  ghost predicate RowState(buf: seq<Byte>, cebOff: nat, done: seq<Byte>, bits: set<nat>) {
    |done| <= cebOff <= |buf| && Filled(buf[..cebOff], done) && CebShows(buf[cebOff..], bits)
  }

  lemma EmptyRow(buf: seq<Byte>, cebOff: nat)
    requires cebOff <= |buf| && forall i | 0 <= i < |buf| :: buf[i] == 0
    ensures RowState(buf, cebOff, [], {})
  {
    assert buf[cebOff..] == Zeros(|buf| - cebOff);
    NoBits(|buf| - cebOff);
  }

  /** setCebBit. */
  method SetCebBit(buf: array<Byte>, cebOff: nat, iBit: nat, ghost done: seq<Byte>, ghost bits: set<nat>)
    requires RowState(buf[..], cebOff, done, bits) && cebOff + iBit / 8 < buf.Length
    modifies buf
    ensures RowState(buf[..], cebOff, done, bits + {iBit})
  {
    hide WithBit, Filled;
    var byteIdx, bitInByte := iBit / 8, 7 - iBit % 8;
    ghost var before := buf[cebOff..];
    ghost var front := buf[..cebOff];
    buf[cebOff + byteIdx] := WithBit(buf[cebOff + byteIdx], bitInByte);
    assert buf[..cebOff] == front;
    BlockGains(before, iBit, buf[cebOff..], bits);
  }

  lemma BlockGains(before: seq<Byte>, iBit: nat, after: seq<Byte>, bits: set<nat>)
    requires CebShows(before, bits) && iBit < 8 * |before| && |after| == |before|
    requires after == before[iBit / 8 := WithBit(before[iBit / 8], 7 - iBit % 8)]
    ensures CebShows(after, bits + {iBit})
  {
    hide WithBit, BitOn;
    forall i | 0 <= i < 8 * |after|
      ensures CebBit(after, i) <==> i in bits + {iBit}
    {
      assert CebBit(before, i) <==> i in bits;
      SameByte(i, iBit);
      if i / 8 == iBit / 8 {
        WithBitShows(before[iBit / 8], 7 - iBit % 8, 7 - i % 8);
      }
    }
  }

  lemma SameByte(i: nat, j: nat)
    ensures i == j <==> i / 8 == j / 8 && 7 - i % 8 == 7 - j % 8
  {
  }

  function When(c: bool, iBit: nat): set<nat> {
    if c then {iBit} else {}
  }

  method SetCebBitWhen(c: bool, buf: array<Byte>, cebOff: nat, iBit: nat, ghost done: seq<Byte>, ghost bits: set<nat>)
    requires RowState(buf[..], cebOff, done, bits) && cebOff + iBit / 8 < buf.Length
    modifies buf
    ensures RowState(buf[..], cebOff, done, bits + When(c, iBit))
  {
    hide RowState;
    assert bits + {} == bits;
    if c {
      SetCebBit(buf, cebOff, iBit, done, bits);
    }
  }

  lemma FieldWritten(before: seq<Byte>, after: seq<Byte>, cebOff: nat, done: seq<Byte>, bits: set<nat>, d: seq<Byte>)
    requires RowState(before, cebOff, done, bits) && |done| + |d| <= cebOff && after == Patch(before, |done|, d)
    ensures RowState(after, cebOff, done + d, bits)
  {
    assert after[..cebOff] == Patch(before[..cebOff], |done|, d);
    assert after[cebOff..] == before[cebOff..];
    FillNext(before[..cebOff], done, d);
  }

  lemma FieldSkipped(buf: seq<Byte>, cebOff: nat, done: seq<Byte>, bits: set<nat>, n: nat)
    requires RowState(buf, cebOff, done, bits) && |done| + n <= cebOff
    ensures RowState(buf, cebOff, done + Zeros(n), bits)
  {
    FillZeros(buf[..cebOff], done, n);
  }

  method Put8(buf: array<Byte>, off: nat, v: Byte, cebOff: nat, ghost done: seq<Byte>, ghost bits: set<nat>)
    requires RowState(buf[..], cebOff, done, bits) && off == |done| && off + 1 <= cebOff
    modifies buf
    ensures RowState(buf[..], cebOff, done + [v], bits)
  {
    ghost var before := buf[..];
    WriteU8(buf, off, v);
    FieldWritten(before, buf[..], cebOff, done, bits, [v]);
  }

  method Put32(buf: array<Byte>, off: nat, v: UInt32, cebOff: nat, ghost done: seq<Byte>, ghost bits: set<nat>)
    requires RowState(buf[..], cebOff, done, bits) && off == |done| && off + 4 <= cebOff
    modifies buf
    ensures RowState(buf[..], cebOff, done + Le32(v), bits)
  {
    hide Le32, Patch, Filled, CebShows;
    ghost var before := buf[..];
    WriteU32(buf, off, v);
    FieldWritten(before, buf[..], cebOff, done, bits, Le32(v));
  }

  /** A 64-bit time, written only when it is not zero. */
  method Put64(buf: array<Byte>, off: nat, v: UInt64, cebOff: nat, ghost done: seq<Byte>, ghost bits: set<nat>)
    requires RowState(buf[..], cebOff, done, bits) && off == |done| && off + 8 <= cebOff
    modifies buf
    ensures RowState(buf[..], cebOff, done + Le64(v), bits)
  {
    hide Le64, Patch, Filled, CebShows;
    if v != 0 {
      ghost var before := buf[..];
      WriteU64(buf, off, v);
      FieldWritten(before, buf[..], cebOff, done, bits, Le64(v));
    } else {
      ZeroTime();
      FieldSkipped(buf[..], cebOff, done, bits, 8);
    }
  }

  lemma ZeroTime()
    ensures Le64(0) == Zeros(8)
  {
  }

  // ---- Schemas and marked rows ----

  predicate IsVariable(c: TcColumn) {
    c.ptype == PTYPE_UNICODE || c.ptype == PTYPE_BINARY
  }

  /** Columns that share no bytes, all in front of the existence block, which has a bit for each. */
  ghost predicate SchemaOk(cols: seq<TcColumn>, cebOff: nat) {
    && DisjointColumns(cols) && CellsInRow(cols) && cebOff + (|cols| + 7) / 8 == RowSize(cols)
    && forall i | 0 <= i < |cols| ::
         && cols[i].ibData + cols[i].cbData <= cebOff && cols[i].iBit as nat < |cols|
         && (IsVariable(cols[i]) ==> cols[i].cbData == 4)
  }

  /** A cell for every column of `order` that has a payload, in that order. */
  function CellsOf(order: seq<nat>, payloads: seq<seq<Byte>>): seq<VarlenCell>
    requires forall k | 0 <= k < |order| :: order[k] < |payloads|
  {
    if order == [] then []
    else
      var col := order[|order| - 1];
      CellsOf(order[..|order| - 1], payloads) + if payloads[col] == [] then [] else [VarlenCell(col, payloads[col])]
  }

  ghost predicate InSomeOrder(order: seq<nat>, cols: seq<TcColumn>, payloads: seq<seq<Byte>>) {
    && |payloads| == |cols|
    && (forall k | 0 <= k < |order| :: order[k] < |cols| && IsVariable(cols[order[k]]))
    && (forall k, l | 0 <= k < l < |order| :: order[k] != order[l])
    && (forall i | 0 <= i < |cols| && payloads[i] != [] :: i in order)
  }

  lemma {:induction false} CellsOfMeans(order: seq<nat>, payloads: seq<seq<Byte>>)
    requires forall k | 0 <= k < |order| :: order[k] < |payloads|
    requires forall k, l | 0 <= k < l < |order| :: order[k] != order[l]
    ensures var cells := CellsOf(order, payloads);
            && |cells| <= |order|
            && (forall j | 0 <= j < |cells| :: cells[j].col in order && payloads[cells[j].col] == cells[j].bytes != [])
            && (forall j, k | 0 <= j < k < |cells| :: cells[j].col != cells[k].col)
            && (forall k | 0 <= k < |order| && payloads[order[k]] != [] ::
                  VarlenCell(order[k], payloads[order[k]]) in cells)
  {
    if order != [] {
      var n := |order| - 1;
      CellsOfMeans(order[..n], payloads);
      assert order[n] !in order[..n];
      assert forall c | c in order[..n] :: c in order;
    } else {
    }
  }

  /** A row as its builder leaves it: bits for the payloads given, zeros where heap ids will go. */
  ghost predicate Marked(cols: seq<TcColumn>, cebOff: nat, r: TcRow, payloads: seq<seq<Byte>>, bits: set<nat>) {
    && |r.bytes| == RowSize(cols) && cebOff <= |r.bytes| && |payloads| == |cols|
    && CebShows(r.bytes[cebOff..], bits)
    && OneCellPerColumn(r)
    && (forall j | 0 <= j < |r.cells| ::
          r.cells[j].col < |cols| && IsVariable(cols[r.cells[j].col])
            && payloads[r.cells[j].col] == r.cells[j].bytes != [])
    && (forall i | 0 <= i < |cols| && payloads[i] != [] :: VarlenCell(i, payloads[i]) in r.cells)
    && (forall i | 0 <= i < |cols| && IsVariable(cols[i]) :: cols[i].iBit as nat in bits <==> payloads[i] != [])
    && (forall i | 0 <= i < |cols| && IsVariable(cols[i]) ::
          cols[i].ibData + 4 <= |r.bytes| && r.bytes[cols[i].ibData..cols[i].ibData + 4] == Zeros(4))
  }

  // ---- The theorem ----

  /** The bit of column `i` in a row that was read back. */
  predicate ShowsColumn(row: seq<Byte>, cebOff: nat, c: TcColumn)
    requires cebOff + c.iBit as nat / 8 < |row|
  {
    CebBit(row[cebOff..], c.iBit)
  }

  /**
   In the row read back: the existence block and every fixed cell are as the builder left them, and for each
   variable-size column the bit is set exactly when the slot is not zero, exactly when a payload was given, and then
   the slot resolves to that payload.
   */
  ghost predicate Agrees(hn: seq<Byte>, row: seq<Byte>, cols: seq<TcColumn>, cebOff: nat, built: seq<Byte>,
                         payloads: seq<seq<Byte>>) {
    && |row| == |built| && cebOff <= |row| && |payloads| == |cols| && row[cebOff..] == built[cebOff..]
    && forall i | 0 <= i < |cols| ::
         && cols[i].ibData + cols[i].cbData <= cebOff && cebOff + cols[i].iBit as nat / 8 < |row|
         && if IsVariable(cols[i]) then
              && cols[i].ibData + 4 <= |row|
              && (ShowsColumn(row, cebOff, cols[i]) <==> payloads[i] != [])
              && (ReadU32(row, cols[i].ibData) != 0 <==> payloads[i] != [])
              && (payloads[i] != [] ==> ReadCell(hn, row, cols[i].ibData) == Success(payloads[i]))
            else row[cols[i].ibData..cols[i].ibData + cols[i].cbData]
                 == built[cols[i].ibData..cols[i].ibData + cols[i].cbData]
  }

  lemma ResolvedSlotNotZero(hn: seq<Byte>, row: seq<Byte>, ibData: nat)
    requires ibData + 4 <= |row| && ReadCell(hn, row, ibData).Success?
    ensures ReadU32(row, ibData) != 0
  {
    hide ReadU32, ReadU16;
  }

  lemma ZeroSlot(row: seq<Byte>, ibData: nat)
    requires ibData + 4 <= |row| && row[ibData..ibData + 4] == Zeros(4)
    ensures ReadU32(row, ibData) == 0
  {
    ReadsBack32(row, ibData, 0);
    assert Le32(0) == Zeros(4);
  }

  /** Bytes of a column without a cell lie outside all cells. */
  lemma ColumnUntouched(cols: seq<TcColumn>, cebOff: nat, r: TcRow, payloads: seq<seq<Byte>>, bits: set<nat>, i: nat,
                        p: nat)
    requires SchemaOk(cols, cebOff) && Marked(cols, cebOff, r, payloads, bits)
    requires i < |cols| && payloads[i] == [] && cols[i].ibData <= p < cols[i].ibData + cols[i].cbData
    ensures OutsideCells(cols, r, p)
  {
    hide RowSize, CebShows;
    forall j | 0 <= j < |r.cells|
      ensures !(cols[r.cells[j].col].ibData <= p < cols[r.cells[j].col].ibData + 4)
    {
      var c := r.cells[j].col;
      assert c != i && IsVariable(cols[c]) && cols[c].cbData == 4;
      assert !Overlap(cols[i].ibData, cols[i].cbData, cols[c].ibData, cols[c].cbData);
    }
  }

  lemma CebUntouched(cols: seq<TcColumn>, cebOff: nat, r: TcRow, payloads: seq<seq<Byte>>, bits: set<nat>, p: nat)
    requires SchemaOk(cols, cebOff) && Marked(cols, cebOff, r, payloads, bits) && cebOff <= p
    ensures OutsideCells(cols, r, p)
  {
    hide RowSize, CebShows, DisjointColumns;
  }

  lemma SliceKept(cols: seq<TcColumn>, r: TcRow, row: seq<Byte>, off: nat, n: nat)
    requires |row| == |r.bytes| && off + n <= |row|
    requires forall p | 0 <= p < |row| && OutsideCells(cols, r, p) :: row[p] == r.bytes[p]
    requires forall p | off <= p < off + n :: OutsideCells(cols, r, p)
    ensures row[off..off + n] == r.bytes[off..off + n]
  {
    hide OutsideCells;
    assert forall p | off <= p < off + n :: row[p] == r.bytes[p];
  }

  lemma ColumnAgrees(hn: seq<Byte>, subnodes: seq<SubnodeOut>, cols: seq<TcColumn>, cebOff: nat, r: TcRow,
                     payloads: seq<seq<Byte>>, bits: set<nat>, row: seq<Byte>, i: nat)
    requires SchemaOk(cols, cebOff) && Marked(cols, cebOff, r, payloads, bits) && ReadsAs(hn, subnodes, cols, r)
    requires ReadRow(hn, subnodes, r.rowId) == Success(Some(row)) && i < |cols|
    ensures var ib := cols[i].ibData;
            if payloads[i] == [] then
              ib + cols[i].cbData <= |row| && row[ib..ib + cols[i].cbData] == r.bytes[ib..ib + cols[i].cbData]
            else ib + 4 <= |row| && ReadCell(hn, row, ib) == Success(payloads[i])
  {
    hide ReadRow, ReadCell, OutsideCells, RowSize, CebShows, DisjointColumns, OneCellPerColumn;
    var c := cols[i];
    if payloads[i] == [] {
      forall p | c.ibData <= p < c.ibData + c.cbData
        ensures OutsideCells(cols, r, p)
      {
        ColumnUntouched(cols, cebOff, r, payloads, bits, i, p);
      }
      SliceKept(cols, r, row, c.ibData, c.cbData);
    } else {
      assert VarlenCell(i, payloads[i]) in r.cells;
    }
  }

  /** What reads back agrees with its existence block. */
  lemma RowAgrees(hn: seq<Byte>, subnodes: seq<SubnodeOut>, cols: seq<TcColumn>, cebOff: nat, r: TcRow,
                  payloads: seq<seq<Byte>>, bits: set<nat>, row: seq<Byte>)
    requires SchemaOk(cols, cebOff) && Marked(cols, cebOff, r, payloads, bits) && ReadsAs(hn, subnodes, cols, r)
    requires ReadRow(hn, subnodes, r.rowId) == Success(Some(row))
    ensures Agrees(hn, row, cols, cebOff, r.bytes, payloads)
  {
    hide ReadRow, ReadCell, OutsideCells, RowSize, DisjointColumns, OneCellPerColumn, ReadU32, CebBit;
    forall p | cebOff <= p < |row|
      ensures OutsideCells(cols, r, p)
    {
      CebUntouched(cols, cebOff, r, payloads, bits, p);
    }
    SliceKept(cols, r, row, cebOff, |row| - cebOff);
    assert row[cebOff..|row|] == row[cebOff..] && r.bytes[cebOff..|row|] == r.bytes[cebOff..];
    forall i | 0 <= i < |cols|
      ensures cebOff + cols[i].iBit as nat / 8 < |row|
      ensures if IsVariable(cols[i]) then
                && cols[i].ibData + 4 <= |row|
                && (ShowsColumn(row, cebOff, cols[i]) <==> payloads[i] != [])
                && (ReadU32(row, cols[i].ibData) != 0 <==> payloads[i] != [])
                && (payloads[i] != [] ==> ReadCell(hn, row, cols[i].ibData) == Success(payloads[i]))
              else row[cols[i].ibData..cols[i].ibData + cols[i].cbData]
                   == r.bytes[cols[i].ibData..cols[i].ibData + cols[i].cbData]
    {
      BitInBlock(cols[i].iBit, |cols|);
      ColumnAgrees(hn, subnodes, cols, cebOff, r, payloads, bits, row, i);
      if payloads[i] != [] {
        assert VarlenCell(i, payloads[i]) in r.cells;
        ResolvedSlotNotZero(hn, row, cols[i].ibData);
      } else if IsVariable(cols[i]) {
        ZeroSlot(row, cols[i].ibData);
      }
    }
  }

  lemma BitInBlock(iBit: nat, n: nat)
    requires iBit < n
    ensures iBit / 8 < (n + 7) / 8
  {
  }

  // ---- Whole tables ----

  ghost predicate AllMarked(cols: seq<TcColumn>, cebOff: nat, rows: seq<TcRow>, payloads: seq<seq<seq<Byte>>>,
                            bits: seq<set<nat>>) {
    |payloads| == |bits| == |rows| && forall s | 0 <= s < |rows| :: Marked(cols, cebOff, rows[s], payloads[s], bits[s])
  }

  ghost predicate RowFound(res: TcResult, rowId: UInt32, cols: seq<TcColumn>, cebOff: nat, built: seq<Byte>,
                           payloads: seq<seq<Byte>>) {
    var got := ReadRow(res.hn, res.subnodes, rowId);
    got.Success? && got.value.Some? && Agrees(res.hn, got.value.value, cols, cebOff, built, payloads)
  }

  ghost predicate NoRow(rows: seq<TcRow>, id: UInt32) {
    forall s | 0 <= s < |rows| :: rows[s].rowId != id
  }

  ghost predicate FewCells(rows: seq<TcRow>) {
    forall s | 0 <= s < |rows| :: |rows[s].cells| <= 8 && forall j | 0 <= j < |rows[s].cells| ::
      rows[s].cells[j].bytes != []
  }

  lemma {:induction false} FewCellsInAll(rows: seq<TcRow>)
    requires FewCells(rows)
    ensures |CellList(rows)| <= 8 * |rows| && PayloadBytes(CellList(rows)) >= |CellList(rows)|
  {
    hide PayloadBytes;
    if rows != [] {
      var n := |rows| - 1;
      FewCellsInAll(rows[..n]);
      PayloadBytesAppend(CellList(rows[..n]), RowCells(n, rows[n].cells));
      NotEmptyPayloads(RowCells(n, rows[n].cells));
    } else {
      NotEmptyPayloads([]);
    }
  }

  lemma {:induction false} NotEmptyPayloads(refs: seq<CellRef>)
    requires forall k | 0 <= k < |refs| :: refs[k].cell.bytes != []
    ensures PayloadBytes(refs) >= |refs|
  {
    if refs == [] {
    } else {
      NotEmptyPayloads(refs[1..]);
      assert CellPayloads(refs)[1..] == CellPayloads(refs[1..]);
    }
  }

  /** At most eight non-empty payloads a row keep every heap id within 11 bits, for any table that fits. */
  lemma SlotsFit(cols: seq<TcColumn>, rows: seq<TcRow>, promote: bool)
    requires FewCells(rows) && |cols| >= 13 && Estimate(cols, rows, promote) <= MAX_BODY
    ensures FirstCellSlot(promote) + |CellList(rows)| <= 0x800
  {
    hide RowSize, CellList, PayloadBytes;
    FewCellsInAll(rows);
    SizeBounds(|cols|, |rows|, RowSize(cols), |CellList(rows)|, PayloadBytes(CellList(rows)), promote);
  }

  lemma MarkedTableReads(cols: seq<TcColumn>, cebOff: nat, rows: seq<TcRow>, nid: UInt32, payloads: seq<seq<seq<Byte>>>,
                         bits: seq<set<nat>>, sortedCols: seq<TcColumn>, order: seq<TcRow>, res: TcResult)
    requires SchemaOk(cols, cebOff) && 13 <= |cols| < 0x100 && AllMarked(cols, cebOff, rows, payloads, bits)
             && FewCells(rows)
    requires Accepted(cols, rows, nid, sortedCols, order, res) && DistinctKeys(rows, ByRowId)
    ensures FindsRows(res.hn, res.subnodes, cols, rows)
  {
    hide FindsRows, Accepted, FewCells, CellList, DistinctKeys, RowSize, DisjointColumns, Estimate, CebShows,
         OneCellPerColumn;
    ShortEnough(cols, rows, nid, sortedCols, order, res);
    SlotsFit(cols, rows, res.subnodes != []);
    forall r | r in rows ensures OneCellPerColumn(r) {
      var s :| 0 <= s < |rows| && rows[s] == r;
      assert Marked(cols, cebOff, rows[s], payloads[s], bits[s]);
    }
    TableReadsBack(cols, rows, nid, sortedCols, order, res);
  }

  lemma ShortEnough(cols: seq<TcColumn>, rows: seq<TcRow>, nid: UInt32, sortedCols: seq<TcColumn>, order: seq<TcRow>,
                    res: TcResult)
    requires Accepted(cols, rows, nid, sortedCols, order, res)
    ensures Estimate(cols, rows, res.subnodes != []) <= MAX_BODY
  {
    hide Estimate, WrittenHeap, WrittenSubnodes, Laid, Ready;
    AcceptedIsWritten(cols, rows, nid, sortedCols, order, res);
    EstimatePermuted(cols, order, rows, res.subnodes != []);
  }

  /** Every row of an accepted table of marked rows is found under its id and agrees with its existence block. */
  lemma TableAgrees(cols: seq<TcColumn>, cebOff: nat, rows: seq<TcRow>, nid: UInt32, payloads: seq<seq<seq<Byte>>>,
                    bits: seq<set<nat>>, sortedCols: seq<TcColumn>, order: seq<TcRow>, res: TcResult)
    requires SchemaOk(cols, cebOff) && 13 <= |cols| < 0x100 && AllMarked(cols, cebOff, rows, payloads, bits)
             && FewCells(rows)
    requires Accepted(cols, rows, nid, sortedCols, order, res) && DistinctKeys(rows, ByRowId)
    ensures forall s | 0 <= s < |rows| :: RowFound(res, rows[s].rowId, cols, cebOff, rows[s].bytes, payloads[s])
    ensures forall id: UInt32 | NoRow(rows, id) :: ReadRow(res.hn, res.subnodes, id) == Success(None)
  {
    hide ReadRow, Accepted, Agrees, FewCells, DistinctKeys, SchemaOk, Marked, ReadCell, OutsideCells;
    MarkedTableReads(cols, cebOff, rows, nid, payloads, bits, sortedCols, order, res);
    forall s | 0 <= s < |rows|
      ensures RowFound(res, rows[s].rowId, cols, cebOff, rows[s].bytes, payloads[s])
    {
      assert rows[s] in rows;
      assert ReadsAs(res.hn, res.subnodes, cols, rows[s]);
      RowAgrees(res.hn, res.subnodes, cols, cebOff, rows[s], payloads[s], bits[s],
                ReadRow(res.hn, res.subnodes, rows[s].rowId).value.value);
    }
    forall id: UInt32 | NoRow(rows, id) ensures ReadRow(res.hn, res.subnodes, id) == Success(None) {
      assert forall r | r in rows :: r.rowId != id;
    }
  }
}
