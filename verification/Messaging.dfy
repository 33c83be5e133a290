/**
 The folder tables of the messaging layer (src/messaging.cpp; section 2.4.4 of [MS-PST]): the Hierarchy and the
 Contents schema, their row builders, and the agreement of existence bits, heap id slots and payloads.
 */
module Messaging {
  import opened Bytes
  import opened PresenceBits
  import opened Sorting
  import opened TableBuilder
  import opened TableContext
  import opened TableFields
  import opened TableReader
  import opened TableSchema
  import opened TableSize
  import opened Wrappers

  const PTYPE_INT32: UInt16 := 0x0003
  const PTYPE_BOOLEAN: UInt16 := 0x000B
  const PTYPE_INT64: UInt16 := 0x0014
  const PTYPE_SYSTIME: UInt16 := 0x0040

  // ---- Facts about any schema given as a list ----

  lemma {:induction false} RegionAtMost(cols: seq<TcColumn>, widths: set<nat>, v: UInt16)
    requires forall k | 0 <= k < |cols| && InWidths(cols[k], widths) :: ColumnEnd(cols[k]) <= v
    ensures RegionEnd(cols, widths).Some? ==> RegionEnd(cols, widths).value <= v
  {
    hide ColumnEnd, InWidths;
    if cols == [] {
    } else {
      RegionAtMost(cols[..|cols| - 1], widths, v);
    }
  }

  /** A region ends where column `i` ends if no other column of those widths ends later. */
  lemma RegionEndsAt(cols: seq<TcColumn>, widths: set<nat>, i: nat)
    requires i < |cols| && InWidths(cols[i], widths)
    requires forall k | 0 <= k < |cols| && InWidths(cols[k], widths) :: ColumnEnd(cols[k]) <= ColumnEnd(cols[i])
    ensures RegionEnd(cols, widths) == Some(ColumnEnd(cols[i]))
  {
    hide ColumnEnd, InWidths, RegionEnd;
    RegionCovers(cols, widths, i);
    RegionAtMost(cols, widths, ColumnEnd(cols[i]));
  }

  lemma {:induction false} NoColumnThatWide(cols: seq<TcColumn>, widths: set<nat>)
    requires forall k | 0 <= k < |cols| :: !InWidths(cols[k], widths)
    ensures RegionEnd(cols, widths) == None
  {
    hide ColumnEnd, InWidths;
    if cols == [] {
    } else {
      NoColumnThatWide(cols[..|cols| - 1], widths);
    }
  }

  ghost predicate Owns(cols: seq<TcColumn>, owner: nat -> nat) {
    forall i, p: nat | 0 <= i < |cols| && cols[i].ibData as nat <= p < cols[i].ibData as nat + cols[i].cbData as nat ::
      owner(p) == i
  }

  /** Columns are disjoint when every byte has one owner. */
  lemma OwnedIsDisjoint(cols: seq<TcColumn>, owner: nat -> nat)
    requires Owns(cols, owner) && forall i | 0 <= i < |cols| :: cols[i].cbData > 0
    ensures DisjointColumns(cols)
  {
    forall i, j | 0 <= i < |cols| && 0 <= j < |cols| && i != j
      ensures !Overlap(cols[i].ibData, cols[i].cbData, cols[j].ibData, cols[j].cbData)
    {
      var a: nat, b: nat := cols[i].ibData, cols[j].ibData;
      var p := if a >= b then a else b;
      assert cols[i].ibData <= p < cols[i].ibData + cols[i].cbData ==> owner(p) == i;
      assert cols[j].ibData <= p < cols[j].ibData + cols[j].cbData ==> owner(p) == j;
    }
  }

  // ---- Hierarchy tables ----

  const HIERARCHY_CEB := 53
  const HIERARCHY_ROW := 55

  function HierarchyCols(): (cols: seq<TcColumn>)
    ensures |cols| == 13
  {
    [TcColumn(0x0E30, PTYPE_BINARY, 20, 4, 6),
     TcColumn(0x0E33, PTYPE_INT64, 24, 8, 7),
     TcColumn(0x0E34, PTYPE_BINARY, 32, 4, 8),
     TcColumn(0x0E38, PTYPE_INT32, 36, 4, 9),
     TcColumn(0x3001, PTYPE_UNICODE, 8, 4, 2),
     TcColumn(0x3602, PTYPE_INT32, 12, 4, 3),
     TcColumn(0x3603, PTYPE_INT32, 16, 4, 4),
     TcColumn(0x360A, PTYPE_BOOLEAN, 52, 1, 5),
     TcColumn(0x3613, PTYPE_UNICODE, 40, 4, 10),
     TcColumn(0x6635, PTYPE_INT32, 44, 4, 11),
     TcColumn(0x6636, PTYPE_INT32, 48, 4, 12),
     TcColumn(0x67F2, PTYPE_INT32, 0, 4, 0),
     TcColumn(0x67F3, PTYPE_INT32, 4, 4, 1)]
  }

  function HierarchyOwner(p: nat): nat {
    if p < 4 then 11 else if p < 8 then 12 else if p < 12 then 4 else if p < 16 then 5 else if p < 20 then 6
    else if p < 24 then 0 else if p < 32 then 1 else if p < 36 then 2 else if p < 40 then 3 else if p < 44 then 8
    else if p < 48 then 9 else if p < 52 then 10 else 7
  }

  lemma HierarchyRowSize()
    ensures RowSize(HierarchyCols()) == HIERARCHY_ROW
  {
    var cols := HierarchyCols();
    RegionEndsAt(cols, {4, 8}, 10);
    NoColumnThatWide(cols, {2});
    RegionEndsAt(cols, {1}, 7);
  }

  lemma HierarchySchemaOk()
    ensures SchemaOk(HierarchyCols(), HIERARCHY_CEB)
  {
    hide RowSize, DisjointColumns;
    HierarchyRowSize();
    assert Owns(HierarchyCols(), HierarchyOwner);
    OwnedIsDisjoint(HierarchyCols(), HierarchyOwner);
  }

  datatype HierarchyRow = HierarchyRow(
    rowId: UInt32,
    rowVer: UInt32,
    displayName: seq<Byte>,
    contentCount: UInt32,
    contentUnreadCount: UInt32,
    hasSubfolders: bool,
    containerClass: seq<Byte>)

  function HierarchyFront(src: HierarchyRow): (s: seq<Byte>)
    ensures |s| == HIERARCHY_CEB
  {
    Le32(src.rowId) + Le32(src.rowVer) + Zeros(4) + Le32(src.contentCount) + Le32(src.contentUnreadCount) + Zeros(32)
    + [if src.hasSubfolders then 1 else 0]
  }

  function HierarchyBits(src: HierarchyRow): set<nat> {
    {} + {0} + {1} + {3} + {4} + {5} + When(src.displayName != [], 2) + When(src.containerClass != [], 10)
  }

  /** What the caller supplies for each column. */
  function HierarchyPayloads(src: HierarchyRow): (p: seq<seq<Byte>>)
    ensures |p| == 13
  {
    [[], [], [], [], src.displayName, [], [], [], src.containerClass, [], [], [], []]
  }

  const HIERARCHY_ORDER: seq<nat> := [4, 8]

  function Cell(col: nat, bytes: seq<Byte>): seq<VarlenCell> {
    if bytes == [] then [] else [VarlenCell(col, bytes)]
  }

  method PushVarlen(cells: seq<VarlenCell>, colIdx: nat, iBit: nat, bytes: seq<Byte>, buf: array<Byte>, cebOff: nat,
                    ghost done: seq<Byte>, ghost bits: set<nat>)
    returns (more: seq<VarlenCell>)
    requires RowState(buf[..], cebOff, done, bits) && cebOff + iBit / 8 < buf.Length
    modifies buf
    ensures more == cells + Cell(colIdx, bytes)
    ensures RowState(buf[..], cebOff, done, bits + When(bytes != [], iBit))
  {
    more := if bytes == [] then cells else cells + [VarlenCell(colIdx, bytes)];
    SetCebBitWhen(bytes != [], buf, cebOff, iBit, done, bits);
  }

  method BuildHierarchyRow(src: HierarchyRow) returns (row: TcRow)
    ensures row.rowId == src.rowId && |row.bytes| == HIERARCHY_ROW
    ensures row.bytes[..HIERARCHY_CEB] == HierarchyFront(src)
    ensures CebShows(row.bytes[HIERARCHY_CEB..], HierarchyBits(src))
    ensures row.cells == CellsOf(HIERARCHY_ORDER, HierarchyPayloads(src))
  {
    hide RowState, Le32, CebShows, CellsOf, When, Cell;
    var dst := new Byte[HIERARCHY_ROW](_ => 0);
    var ceb := HIERARCHY_CEB;
    EmptyRow(dst[..], ceb);
    ghost var done: seq<Byte>, bits: set<nat> := [], {};
    Put32(dst, 0, src.rowId, ceb, done, bits);
    done := Le32(src.rowId);
    assert [] + Le32(src.rowId) == Le32(src.rowId);
    Put32(dst, 4, src.rowVer, ceb, done, bits);
    done := done + Le32(src.rowVer);
    FieldSkipped(dst[..], ceb, done, bits, 4);
    done := done + Zeros(4);
    Put32(dst, 12, src.contentCount, ceb, done, bits);
    done := done + Le32(src.contentCount);
    Put32(dst, 16, src.contentUnreadCount, ceb, done, bits);
    done := done + Le32(src.contentUnreadCount);
    FieldSkipped(dst[..], ceb, done, bits, 32);
    done := done + Zeros(32);
    Put8(dst, 52, if src.hasSubfolders then 1 else 0, ceb, done, bits);
    done := done + [if src.hasSubfolders then 1 else 0];
    SetCebBit(dst, ceb, 0, done, bits);
    SetCebBit(dst, ceb, 1, done, bits + {0});
    SetCebBit(dst, ceb, 3, done, bits + {0} + {1});
    SetCebBit(dst, ceb, 4, done, bits + {0} + {1} + {3});
    SetCebBit(dst, ceb, 5, done, bits + {0} + {1} + {3} + {4});
    bits := {} + {0} + {1} + {3} + {4} + {5};
    var cells := PushVarlen([], 4, 2, src.displayName, dst, ceb, done, bits);
    bits := bits + When(src.displayName != [], 2);
    cells := PushVarlen(cells, 8, 10, src.containerClass, dst, ceb, done, bits);
    bits := bits + When(src.containerClass != [], 10);
    RowFinished(dst[..], ceb, done, bits);
    HierarchyCells(src);
    row := TcRow(src.rowId, dst[..], cells);
  }

  lemma RowFinished(buf: seq<Byte>, cebOff: nat, done: seq<Byte>, bits: set<nat>)
    requires RowState(buf, cebOff, done, bits) && |done| == cebOff
    ensures buf[..cebOff] == done && CebShows(buf[cebOff..], bits)
  {
    assert done + Zeros(0) == done;
  }

  lemma CellsStep(order: seq<nat>, k: nat, payloads: seq<seq<Byte>>)
    requires k < |order| && forall l | 0 <= l < |order| :: order[l] < |payloads|
    ensures CellsOf(order[..k + 1], payloads)
            == CellsOf(order[..k], payloads) + Cell(order[k], payloads[order[k]])
  {
    assert order[..k + 1][..k] == order[..k];
  }

  lemma HierarchyCells(src: HierarchyRow)
    ensures CellsOf(HIERARCHY_ORDER, HierarchyPayloads(src))
            == [] + Cell(4, src.displayName) + Cell(8, src.containerClass)
  {
    var order, payloads := HIERARCHY_ORDER, HierarchyPayloads(src);
    CellsStep(order, 0, payloads);
    CellsStep(order, 1, payloads);
    assert order[..2] == order;
  }

  function One(bytes: seq<Byte>): nat {
    if bytes == [] then 0 else 1
  }

  lemma NextCellSize(cells: seq<VarlenCell>, col: nat, bytes: seq<Byte>)
    ensures |cells + Cell(col, bytes)| == |cells| + One(bytes)
    ensures BytesOf(cells + Cell(col, bytes)) == BytesOf(cells) + |bytes|
  {
    BytesOfAppend(cells, Cell(col, bytes));
    if bytes == [] {
      NoPayloadBytes();
    } else {
      assert CellPayloads(RowCells(0, Cell(col, bytes))) == [bytes];
      FlattenOne(bytes);
    }
  }

  ghost const HierarchyCellCount: HierarchyRow -> nat :=
    (src: HierarchyRow) => One(src.displayName) + One(src.containerClass)
  ghost const HierarchyCellBytes: HierarchyRow -> nat :=
    (src: HierarchyRow) => |src.displayName| + |src.containerClass|

  lemma HierarchyRowCells(src: HierarchyRow)
    ensures var cells := CellsOf(HIERARCHY_ORDER, HierarchyPayloads(src));
            |cells| == HierarchyCellCount(src) && BytesOf(cells) == HierarchyCellBytes(src)
  {
    hide CellsOf, Cell, BytesOf, One;
    HierarchyCells(src);
    NoPayloadBytes();
    NextCellSize([], 4, src.displayName);
    NextCellSize([] + Cell(4, src.displayName), 8, src.containerClass);
  }

  /** The size of the heap that holds the Hierarchy table of these folders. */
  ghost function HierarchySize(srcs: seq<HierarchyRow>): nat {
    EstimatedSize(13, |srcs|, HIERARCHY_ROW, Total(srcs, HierarchyCellCount), Total(srcs, HierarchyCellBytes), false)
  }

  /** What every row builder guarantees for its schema. */
  lemma BuiltRowIsMarked(cols: seq<TcColumn>, cebOff: nat, r: TcRow, order: seq<nat>, payloads: seq<seq<Byte>>,
                         bits: set<nat>)
    requires |r.bytes| == RowSize(cols) && cebOff <= |r.bytes| && CebShows(r.bytes[cebOff..], bits)
    requires InSomeOrder(order, cols, payloads) && r.cells == CellsOf(order, payloads)
    requires forall i | 0 <= i < |cols| && IsVariable(cols[i]) :: cols[i].iBit as nat in bits <==> payloads[i] != []
    requires forall i | 0 <= i < |cols| && IsVariable(cols[i]) ::
               cols[i].ibData + 4 <= cebOff && r.bytes[..cebOff][cols[i].ibData..cols[i].ibData + 4] == Zeros(4)
    ensures Marked(cols, cebOff, r, payloads, bits) && |r.cells| <= |order|
  {
    hide RowSize, CebShows, CellsOf, IsVariable;
    CellsOfMeans(order, payloads);
    forall i | 0 <= i < |cols| && IsVariable(cols[i])
      ensures cols[i].ibData + 4 <= |r.bytes| && r.bytes[cols[i].ibData..cols[i].ibData + 4] == Zeros(4)
    {
      assert r.bytes[..cebOff][cols[i].ibData..cols[i].ibData + 4] == r.bytes[cols[i].ibData..cols[i].ibData + 4];
    }
  }

  lemma HierarchySlotsZero(src: HierarchyRow)
    ensures var f := HierarchyFront(src);
            f[20..24] == Zeros(4) && f[32..36] == Zeros(4) && f[8..12] == Zeros(4) && f[40..44] == Zeros(4)
  {
    hide Le32;
  }

  lemma HierarchyRowIsMarked(src: HierarchyRow, r: TcRow)
    requires |r.bytes| == HIERARCHY_ROW && r.bytes[..HIERARCHY_CEB] == HierarchyFront(src)
    requires CebShows(r.bytes[HIERARCHY_CEB..], HierarchyBits(src))
    requires r.cells == CellsOf(HIERARCHY_ORDER, HierarchyPayloads(src))
    ensures Marked(HierarchyCols(), HIERARCHY_CEB, r, HierarchyPayloads(src), HierarchyBits(src)) && |r.cells| <= 2
  {
    hide RowSize, CebShows, CellsOf, HierarchyFront, Marked;
    HierarchyRowSize();
    HierarchySlotsZero(src);
    var cols, payloads := HierarchyCols(), HierarchyPayloads(src);
    assert HIERARCHY_ORDER[0] == 4 && HIERARCHY_ORDER[1] == 8;
    assert InSomeOrder(HIERARCHY_ORDER, cols, payloads);
    BuiltRowIsMarked(cols, HIERARCHY_CEB, r, HIERARCHY_ORDER, payloads, HierarchyBits(src));
  }

  // ---- A whole table from its rows ----

  /** All rows as built: marked, with at most eight cells, and valid for the table writer. */
  ghost predicate RowsBuilt(cols: seq<TcColumn>, cebOff: nat, rows: seq<TcRow>, payloads: seq<seq<seq<Byte>>>,
                            bits: seq<set<nat>>) {
    && AllMarked(cols, cebOff, rows, payloads, bits)
    && forall s | 0 <= s < |rows| :: |rows[s].cells| <= 8
  }

  lemma RowsAreValid(cols: seq<TcColumn>, cebOff: nat, rows: seq<TcRow>, payloads: seq<seq<seq<Byte>>>,
                     bits: seq<set<nat>>)
    requires SchemaOk(cols, cebOff) && RowsBuilt(cols, cebOff, rows, payloads, bits)
    ensures RowError(cols, rows).None? && FewCells(rows)
  {
    hide RowSize, CebShows, DisjointColumns, RowError, OneCellPerColumn;
    RowErrorMeans(cols, rows);
    forall s | 0 <= s < |rows|
      ensures ValidRow(cols, rows[s])
      ensures forall j | 0 <= j < |rows[s].cells| :: rows[s].cells[j].bytes != []
    {
      assert Marked(cols, cebOff, rows[s], payloads[s], bits[s]);
    }
  }

  /** Builds the table and proves what each row reads back as. */
  method BuildMarkedTable(cols: seq<TcColumn>, ghost cebOff: nat, rows: seq<TcRow>, nid: UInt32,
                          ghost payloads: seq<seq<seq<Byte>>>, ghost bits: seq<set<nat>>)
    returns (r: Result<TcResult, TcError>)
    requires SchemaOk(cols, cebOff) && 13 <= |cols| < 0x100 && RowsBuilt(cols, cebOff, rows, payloads, bits)
    requires forall i | 0 <= i < |cols| :: cols[i].cbData in {1, 2, 4, 8}
    ensures nid != 0 && nid % 0x20 == 0 ==> r == Failure(SubnodeNidIsHid)
    ensures nid == 0 || nid % 0x20 != 0 ==>
              match SizeError(cols, rows, nid)
              case None => r.Success?
              case Some(e) => r == Failure(e)
    ensures r != Failure(EstimatorDrift)
    ensures r.Success? ==> SchemaStored(r.value.hn, cols, cebOff)
    ensures r.Success? && DistinctKeys(rows, ByRowId) ==>
              && (forall s | 0 <= s < |rows| ::
                    RowFound(r.value, rows[s].rowId, cols, cebOff, rows[s].bytes, payloads[s]))
              && forall id: UInt32 | NoRow(rows, id) :: ReadRow(r.value.hn, r.value.subnodes, id) == Success(None)
  {
    hide RowError, Laid, Ready, RowFound, AllMarked, FewCells, DistinctKeys, DisjointColumns, RowSize, CellsInRow,
         SizeError;
    RowsAreValid(cols, cebOff, rows, payloads, bits);
    assert ColumnError(cols).None?;
    ghost var sortedCols, order;
    r, sortedCols, order := BuildTableContext(cols, rows, nid);
    if InputError(cols, rows, nid).None? {
      DriftOnlyWithoutRows(cols, sortedCols, order, nid);
      OutcomeBySize(cols, sortedCols, rows, order, nid);
      SameLength(order, rows);
      if r.Success? {
        SchemaFound(cols, cebOff, rows, nid, sortedCols, order, r.value);
      }
      if r.Success? && DistinctKeys(rows, ByRowId) {
        assert Accepted(cols, rows, nid, sortedCols, order, r.value);
        TableAgrees(cols, cebOff, rows, nid, payloads, bits, sortedCols, order, r.value);
      }
    }
  }

  ghost predicate DistinctIds<T(!new)>(srcs: seq<T>, id: T -> UInt32) {
    forall i, j | 0 <= i < j < |srcs| :: id(srcs[i]) != id(srcs[j])
  }

  /** The row of `src` in a finished table: its fixed cells, its existence bits, and slots that agree with them. */
  ghost predicate HierarchyRowReads(res: TcResult, src: HierarchyRow) {
    var got := ReadRow(res.hn, res.subnodes, src.rowId);
    && got.Success? && got.value.Some? && |got.value.value| == HIERARCHY_ROW
    && CebShows(got.value.value[HIERARCHY_CEB..], HierarchyBits(src))
    && Agrees(res.hn, got.value.value, HierarchyCols(), HIERARCHY_CEB,
              HierarchyFront(src) + got.value.value[HIERARCHY_CEB..], HierarchyPayloads(src))
  }

  lemma HierarchyRowFound(res: TcResult, src: HierarchyRow, r: TcRow)
    requires |r.bytes| == HIERARCHY_ROW && r.bytes[..HIERARCHY_CEB] == HierarchyFront(src)
    requires CebShows(r.bytes[HIERARCHY_CEB..], HierarchyBits(src))
    requires RowFound(res, src.rowId, HierarchyCols(), HIERARCHY_CEB, r.bytes, HierarchyPayloads(src))
    ensures HierarchyRowReads(res, src)
  {
    hide ReadRow, CebShows, HierarchyFront, HierarchyBits, HierarchyPayloads, HierarchyCols, ReadCell, ReadU32,
         IsVariable, ShowsColumn;
    var row := ReadRow(res.hn, res.subnodes, src.rowId).value.value;
    assert r.bytes == HierarchyFront(src) + row[HIERARCHY_CEB..];
  }

  // ---- What a client reads of a folder ----

  /** What a client reads of a folder in its parent's Hierarchy table: tag, place, existence bit and value. */
  function HierarchyAnswers(src: HierarchyRow): (answers: seq<Answer>)
    ensures |answers| == 13
  {
    [Answer(0x0E30_0102, Field(20, 6, false, [])),
     Answer(0x0E33_0014, Field(24, 7, false, Zeros(8))),
     Answer(0x0E34_0102, Field(32, 8, false, [])),
     Answer(0x0E38_0003, Field(36, 9, false, Zeros(4))),
     Answer(0x3001_001F, Field(8, 2, src.displayName != [], src.displayName)),
     Answer(0x3602_0003, Field(12, 3, true, Le32(src.contentCount))),
     Answer(0x3603_0003, Field(16, 4, true, Le32(src.contentUnreadCount))),
     Answer(0x360A_000B, Field(52, 5, true, [if src.hasSubfolders then 1 else 0])),
     Answer(0x3613_001F, Field(40, 10, src.containerClass != [], src.containerClass)),
     Answer(0x6635_0003, Field(44, 11, false, Zeros(4))),
     Answer(0x6636_0003, Field(48, 12, false, Zeros(4))),
     Answer(0x67F2_0003, Field(0, 0, true, Le32(src.rowId))),
     Answer(0x67F3_0003, Field(4, 1, true, Le32(src.rowVer)))]
  }

  /** The fixed cells of a row by their places. */
  lemma HierarchyFixedCells(src: HierarchyRow, row: seq<Byte>)
    requires |row| == HIERARCHY_ROW && row[..HIERARCHY_CEB] == HierarchyFront(src)
    ensures row[0..4] == Le32(src.rowId) && row[4..8] == Le32(src.rowVer)
    ensures row[12..16] == Le32(src.contentCount) && row[16..20] == Le32(src.contentUnreadCount)
    ensures row[24..32] == Zeros(8) && row[36..40] == Zeros(4) && row[44..48] == Zeros(4) && row[48..52] == Zeros(4)
    ensures row[52..53] == [if src.hasSubfolders then 1 else 0]
  {
    hide Le32;
    var f := HierarchyFront(src);
    assert row[0..4] == f[0..4] && row[4..8] == f[4..8] && row[12..16] == f[12..16] && row[16..20] == f[16..20];
    assert row[24..32] == f[24..32] && row[36..40] == f[36..40] && row[44..48] == f[44..48];
    assert row[48..52] == f[48..52] && row[52..53] == f[52..53];
  }

  lemma HierarchyAnswersAre(src: HierarchyRow, row: seq<Byte>)
    requires |row| == HIERARCHY_ROW && row[..HIERARCHY_CEB] == HierarchyFront(src)
    ensures AnswersOf(HierarchyCols(), row, HierarchyPayloads(src), HierarchyBits(src), HierarchyAnswers(src))
  {
    hide HierarchyFront, Le32;
    HierarchyFixedCells(src, row);
  }

  lemma HierarchyRowAnswers(res: TcResult, src: HierarchyRow)
    requires SchemaStored(res.hn, HierarchyCols(), HIERARCHY_CEB) && HierarchyRowReads(res, src)
    ensures Answers(res, src.rowId, HierarchyAnswers(src))
  {
    hide SchemaStored, HierarchyFront, CebShows, SchemaOk, Answers, AnswersOf, HierarchyCols, HierarchyPayloads,
         HierarchyBits, HierarchyAnswers, ReadRow, Agrees;
    var row := HierarchyFront(src) + ReadRow(res.hn, res.subnodes, src.rowId).value.value[HIERARCHY_CEB..];
    assert row[HIERARCHY_CEB..] == ReadRow(res.hn, res.subnodes, src.rowId).value.value[HIERARCHY_CEB..];
    HierarchySchemaOk();
    HierarchyAnswersAre(src, row);
    AnswersRead(res, src.rowId, HierarchyCols(), HIERARCHY_CEB, row, HierarchyPayloads(src), HierarchyBits(src),
                HierarchyAnswers(src));
  }

  /** buildFolderHierarchyTc. */
  method BuildFolderHierarchyTc(srcs: seq<HierarchyRow>) returns (r: Result<TcResult, TcError>)
    ensures r.Success? <==> HierarchySize(srcs) <= 8176
    ensures r.Failure? ==> r.error == BodyTooLarge
    ensures r.Success? ==> SchemaStored(r.value.hn, HierarchyCols(), HIERARCHY_CEB)
    ensures r.Success? && DistinctIds(srcs, (s: HierarchyRow) => s.rowId) ==>
              && (forall i | 0 <= i < |srcs| ::
                    HierarchyRowReads(r.value, srcs[i]) && Answers(r.value, srcs[i].rowId, HierarchyAnswers(srcs[i])))
              && forall id: UInt32 | (forall i | 0 <= i < |srcs| :: srcs[i].rowId != id) ::
                   ReadRow(r.value.hn, r.value.subnodes, id) == Success(None)
  {
    hide HierarchyFront, HierarchyBits, HierarchyPayloads, HierarchyCols, CellsOf, CebShows, Marked, RowFound,
         HierarchyRowReads, Answers, HierarchyAnswers, SchemaStored, SchemaOk, BytesOf, EstimatedSize;
    var rows: seq<TcRow> := [];
    ghost var payloads: seq<seq<seq<Byte>>>, bits: seq<set<nat>> := [], [];
    for i := 0 to |srcs|
      invariant |rows| == |payloads| == |bits| == i
      invariant forall k | 0 <= k < i ::
        && payloads[k] == HierarchyPayloads(srcs[k]) && bits[k] == HierarchyBits(srcs[k])
        && rows[k].rowId == srcs[k].rowId
        && |rows[k].bytes| == HIERARCHY_ROW && rows[k].bytes[..HIERARCHY_CEB] == HierarchyFront(srcs[k])
        && CebShows(rows[k].bytes[HIERARCHY_CEB..], HierarchyBits(srcs[k]))
        && Marked(HierarchyCols(), HIERARCHY_CEB, rows[k], payloads[k], bits[k]) && |rows[k].cells| <= 2
        && |rows[k].cells| == HierarchyCellCount(srcs[k]) && BytesOf(rows[k].cells) == HierarchyCellBytes(srcs[k])
    {
      var row := BuildHierarchyRow(srcs[i]);
      HierarchyRowIsMarked(srcs[i], row);
      HierarchyRowCells(srcs[i]);
      rows := rows + [row];
      payloads, bits := payloads + [HierarchyPayloads(srcs[i])], bits + [HierarchyBits(srcs[i])];
    }
    HierarchySchemaOk();
    HierarchyWidths();
    HierarchyRowSize();
    EstimateBySource(HierarchyCols(), rows, srcs, HierarchyCellCount, HierarchyCellBytes, false);
    r := BuildMarkedTable(HierarchyCols(), HIERARCHY_CEB, rows, 0, payloads, bits);
    if r.Success? && DistinctIds(srcs, (s: HierarchyRow) => s.rowId) {
      assert DistinctKeys(rows, ByRowId);
      forall i | 0 <= i < |srcs|
        ensures HierarchyRowReads(r.value, srcs[i]) && Answers(r.value, srcs[i].rowId, HierarchyAnswers(srcs[i]))
      {
        assert RowFound(r.value, rows[i].rowId, HierarchyCols(), HIERARCHY_CEB, rows[i].bytes, payloads[i]);
        HierarchyRowFound(r.value, srcs[i], rows[i]);
        HierarchyRowAnswers(r.value, srcs[i]);
      }
      forall id: UInt32 | forall i | 0 <= i < |srcs| :: srcs[i].rowId != id
        ensures ReadRow(r.value.hn, r.value.subnodes, id) == Success(None)
      {
        assert NoRow(rows, id);
      }
    }
  }

  lemma HierarchyWidths()
    ensures forall i | 0 <= i < |HierarchyCols()| :: HierarchyCols()[i].cbData in {1, 2, 4, 8}
  {
  }
}
