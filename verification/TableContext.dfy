/** The Table Context writer (src/ltp.cpp; section 2.3.4 of [MS-PST]). */
module TableContext {
  import opened Bytes
  import opened Heap
  import opened Wrappers
  import Bth

  const TC_SIGNATURE: Byte := 0x7C
  // With no rows nothing bounds the column count before the 16-bit heap offsets are computed.
  const MAX_COLUMNS: nat := 8186

  datatype TcColumn = TcColumn(tag: UInt16, ptype: UInt16, ibData: UInt16, cbData: Byte, iBit: Byte)

  datatype VarlenCell = VarlenCell(col: nat, bytes: seq<Byte>)

  datatype TcRow = TcRow(rowId: UInt32, bytes: seq<Byte>, cells: seq<VarlenCell>)

  datatype TcResult = TcResult(hn: seq<Byte>, subnodes: seq<SubnodeOut>)

  datatype TcError =
    | NoColumns
    | SubnodeNidIsHid
    | BadCellWidth
    | RowSizeMismatch
    | CellColumnOutOfRange
    | CellNotFourBytes
    | BodyTooLarge
    | PromotedBodyTooLarge
    | EstimatorDrift

  // ---- Row regions ----

  datatype Rgib = Rgib(end4b: UInt16, end2b: UInt16, end1b: UInt16, endBm: UInt16)

  predicate InWidths(c: TcColumn, widths: set<nat>) {
    c.cbData as nat in widths
  }

  function ColumnEnd(c: TcColumn): UInt16 {
    (c.ibData + c.cbData) % 0x1_0000
  }

  /** The largest end over the columns of the given widths, if there are any. */
  function RegionEnd(cols: seq<TcColumn>, widths: set<nat>): (r: Option<UInt16>) {
    if cols == [] then None
    else
      var before := RegionEnd(cols[..|cols| - 1], widths);
      var c := cols[|cols| - 1];
      if !InWidths(c, widths) then before
      else if before.None? || ColumnEnd(c) > before.value then Some(ColumnEnd(c))
      else before
  }

  lemma RegionStep(cols: seq<TcColumn>, i: nat, widths: set<nat>)
    requires i < |cols|
    ensures RegionEnd(cols[..i + 1], widths) ==
              var before := RegionEnd(cols[..i], widths);
              if !InWidths(cols[i], widths) then before
              else if before.None? || ColumnEnd(cols[i]) > before.value then Some(ColumnEnd(cols[i]))
              else before
  {
    assert cols[..i + 1][..i] == cols[..i];
  }

  /** Every column of those widths ends inside the region. */
  lemma {:induction false} RegionCovers(cols: seq<TcColumn>, widths: set<nat>, i: nat)
    requires i < |cols| && InWidths(cols[i], widths)
    ensures RegionEnd(cols, widths).Some? && ColumnEnd(cols[i]) <= RegionEnd(cols, widths).value
  {
    if i >= |cols| - 1 {
    } else {
      RegionCovers(cols[..|cols| - 1], widths, i);
    }
  }

  function OrElse(o: Option<UInt16>, d: UInt16): UInt16 {
    match o case Some(v) => v case None => d
  }

  function Regions(cols: seq<TcColumn>): Rgib {
    var end4b := OrElse(RegionEnd(cols, {4, 8}), 0);
    var end2b := OrElse(RegionEnd(cols, {2}), end4b);
    var end1b := OrElse(RegionEnd(cols, {1}), end2b);
    Rgib(end4b, end2b, end1b, (end1b + (|cols| + 7) / 8 % 0x1_0000) % 0x1_0000)
  }

  function RowSize(cols: seq<TcColumn>): UInt16 {
    Regions(cols).endBm
  }

  lemma NoRegion(widths: set<nat>)
    ensures RegionEnd([], widths) == None
  {
  }

  method ComputeRgib(cols: seq<TcColumn>) returns (rg: Rgib)
    ensures rg == Regions(cols)
  {
    hide RegionEnd, ColumnEnd;
    var end4b: UInt16, end2b: UInt16, end1b: UInt16 := 0, 0, 0;
    NoRegion({4, 8});
    NoRegion({2});
    NoRegion({1});
    var any4b, any2b, any1b := false, false, false;
    for i := 0 to |cols|
      invariant RegionEnd(cols[..i], {4, 8}) == if any4b then Some(end4b) else None
      invariant RegionEnd(cols[..i], {2}) == if any2b then Some(end2b) else None
      invariant RegionEnd(cols[..i], {1}) == if any1b then Some(end1b) else None
      invariant (any4b || end4b == 0)
    {
      var c := cols[i];
      RegionStep(cols, i, {4, 8});
      RegionStep(cols, i, {2});
      RegionStep(cols, i, {1});
      var end := ColumnEnd(c);
      if c.cbData == 4 || c.cbData == 8 {
        if !any4b || end > end4b { end4b := end; }
        any4b := true;
      } else if c.cbData == 2 {
        if !any2b || end > end2b { end2b := end; }
        any2b := true;
      } else if c.cbData == 1 {
        if !any1b || end > end1b { end1b := end; }
        any1b := true;
      }
    }
    assert cols[..|cols|] == cols;
    if !any2b { end2b := end4b; }
    if !any1b { end1b := end2b; }
    var cebBytes: UInt16 := (|cols| + 7) / 8 % 0x1_0000;
    rg := Rgib(end4b, end2b, end1b, (end1b + cebBytes) % 0x1_0000);
  }

  // ---- Validation ----

  function ColumnError(cols: seq<TcColumn>): Option<TcError> {
    if exists i | 0 <= i < |cols| :: cols[i].cbData !in {1, 2, 4, 8} then Some(BadCellWidth) else None
  }

  function CellError(cols: seq<TcColumn>, cells: seq<VarlenCell>): Option<TcError> {
    if cells == [] then None
    else if cells[0].col >= |cols| then Some(CellColumnOutOfRange)
    else if cols[cells[0].col].cbData != 4 then Some(CellNotFourBytes)
    else CellError(cols, cells[1..])
  }

  function RowError(cols: seq<TcColumn>, rows: seq<TcRow>): Option<TcError> {
    if rows == [] then None
    else if |rows[0].bytes| != RowSize(cols) then Some(RowSizeMismatch)
    else if CellError(cols, rows[0].cells).Some? then CellError(cols, rows[0].cells)
    else RowError(cols, rows[1..])
  }

  function InputError(cols: seq<TcColumn>, rows: seq<TcRow>, nid: UInt32): Option<TcError> {
    if cols == [] then Some(NoColumns)
    else if nid != 0 && nid % 0x20 == 0 then Some(SubnodeNidIsHid)
    else if ColumnError(cols).Some? then ColumnError(cols)
    else RowError(cols, rows)
  }

  predicate ValidCell(cols: seq<TcColumn>, c: VarlenCell) {
    c.col < |cols| && cols[c.col].cbData == 4
  }

  predicate ValidRow(cols: seq<TcColumn>, r: TcRow) {
    |r.bytes| == RowSize(cols) && forall i | 0 <= i < |r.cells| :: ValidCell(cols, r.cells[i])
  }

  predicate ValidRows(cols: seq<TcColumn>, rows: seq<TcRow>) {
    forall s | 0 <= s < |rows| :: ValidRow(cols, rows[s])
  }

  lemma {:induction false} CellErrorMeans(cols: seq<TcColumn>, cells: seq<VarlenCell>)
    ensures CellError(cols, cells).None? <==> forall i | 0 <= i < |cells| :: ValidCell(cols, cells[i])
  {
    if cells == [] {
    } else {
      CellErrorMeans(cols, cells[1..]);
      assert cells == [cells[0]] + cells[1..];
      assert forall i | 0 <= i < |cells[1..]| :: cells[1..][i] == cells[i + 1];
      if CellError(cols, cells).None? {
        forall i | 0 <= i < |cells| ensures ValidCell(cols, cells[i]) {
          if i > 0 { assert ValidCell(cols, cells[1..][i - 1]); }
        }
      }
    }
  }

  lemma {:induction false} RowErrorMeans(cols: seq<TcColumn>, rows: seq<TcRow>)
    ensures RowError(cols, rows).None? <==> ValidRows(cols, rows)
  {
    if rows == [] {
    } else {
      RowErrorMeans(cols, rows[1..]);
      CellErrorMeans(cols, rows[0].cells);
      if RowError(cols, rows).None? {
        forall s | 0 <= s < |rows| ensures ValidRow(cols, rows[s]) {
          if s > 0 { assert ValidRow(cols, rows[1..][s - 1]); }
        }
      }
      if ValidRows(cols, rows) {
        assert ValidRow(cols, rows[0]);
        forall s | 0 <= s < |rows[1..]| ensures ValidRow(cols, rows[1..][s]) {
          assert ValidRow(cols, rows[s + 1]);
        }
      }
    }
  }

  /** Every cell's four-byte slot lies inside the row; the writer patches it without looking. */
  ghost predicate CellsInRow(cols: seq<TcColumn>) {
    forall i | 0 <= i < |cols| && cols[i].cbData == 4 :: cols[i].ibData + 4 <= RowSize(cols)
  }

  // ---- What the writer must produce, for rows in ascending row-id order ----

  datatype CellRef = CellRef(row: nat, cell: VarlenCell)

  function RowCells(row: nat, cells: seq<VarlenCell>): (refs: seq<CellRef>)
    ensures |refs| == |cells| && forall j | 0 <= j < |cells| :: refs[j] == CellRef(row, cells[j])
  {
    seq(|cells|, j requires 0 <= j < |cells| => CellRef(row, cells[j]))
  }

  /** All variable-size cells, row by row. */
  function CellList(rows: seq<TcRow>): seq<CellRef> {
    if rows == [] then []
    else CellList(rows[..|rows| - 1]) + RowCells(|rows| - 1, rows[|rows| - 1].cells)
  }

  lemma {:induction false} CellListValid(cols: seq<TcColumn>, rows: seq<TcRow>)
    requires ValidRows(cols, rows)
    ensures forall k | 0 <= k < |CellList(rows)| ::
              CellList(rows)[k].row < |rows| && ValidCell(cols, CellList(rows)[k].cell)
  {
    if rows == [] {
    } else {
      CellListValid(cols, rows[..|rows| - 1]);
      assert ValidRow(cols, rows[|rows| - 1]);
    }
  }

  function CellOffset(cols: seq<TcColumn>, ref: CellRef): nat
    requires ref.cell.col < |cols|
  {
    ref.row * RowSize(cols) + cols[ref.cell.col].ibData
  }

  function CellPayloads(refs: seq<CellRef>): (ps: seq<seq<Byte>>)
    ensures |ps| == |refs| && forall k | 0 <= k < |refs| :: ps[k] == refs[k].cell.bytes
  {
    seq(|refs|, k requires 0 <= k < |refs| => refs[k].cell.bytes)
  }

  function RowBytes(rows: seq<TcRow>): (bs: seq<seq<Byte>>)
    ensures |bs| == |rows| && forall s | 0 <= s < |rows| :: bs[s] == rows[s].bytes
  {
    seq(|rows|, s requires 0 <= s < |rows| => rows[s].bytes)
  }

  /** The row matrix as the caller gave it. */
  function RawMatrix(rows: seq<TcRow>): seq<Byte> {
    Flatten(RowBytes(rows))
  }

  ghost predicate Patchable(cols: seq<TcColumn>, refs: seq<CellRef>, size: nat) {
    forall k | 0 <= k < |refs| :: refs[k].cell.col < |cols| && CellOffset(cols, refs[k]) + 4 <= size
  }

  /** The matrix after the heap ids of the cells in `refs` have been written into their slots, in order. */
  ghost function Patched(cols: seq<TcColumn>, raw: seq<Byte>, refs: seq<CellRef>, firstSlot: UInt16): (m: seq<Byte>)
    requires Patchable(cols, refs, |raw|)
    ensures |m| == |raw|
  {
    if refs == [] then raw
    else
      var k := |refs| - 1;
      assert forall i | 0 <= i < k :: refs[..k][i] == refs[i];
      Patch(Patched(cols, raw, refs[..k], firstSlot), CellOffset(cols, refs[k]),
            Le32(MakeHid((firstSlot + k) % 0x1_0000)))
  }

  lemma CellsPatchable(cols: seq<TcColumn>, rows: seq<TcRow>)
    requires ValidRows(cols, rows) && CellsInRow(cols)
    ensures |RawMatrix(rows)| == |rows| * RowSize(cols)
    ensures Patchable(cols, CellList(rows), |RawMatrix(rows)|)
  {
    assert forall s | 0 <= s < |rows| :: ValidRow(cols, rows[s]);
    FlattenUniformLength(RowBytes(rows), RowSize(cols));
    CellListValid(cols, rows);
    hide Regions, Flatten, CellList;
    forall k | 0 <= k < |CellList(rows)|
      ensures CellOffset(cols, CellList(rows)[k]) + 4 <= |rows| * RowSize(cols)
    {
      SlotInRow(CellList(rows)[k].row, |rows|, RowSize(cols), cols[CellList(rows)[k].cell.col].ibData);
    }
  }

  lemma SlotInRow(row: nat, rowCount: nat, rowSize: nat, ibData: nat)
    requires row < rowCount && ibData + 4 <= rowSize
    ensures row * rowSize + ibData + 4 <= row * rowSize + rowSize <= rowCount * rowSize
  {
    MulAtMost(row + 1, rowCount, rowSize);
    assert (row + 1) * rowSize == row * rowSize + rowSize;
  }

  function FirstCellSlot(promote: bool): UInt16 {
    if promote then 4 else 5
  }

  ghost function Matrix(cols: seq<TcColumn>, rows: seq<TcRow>, promote: bool): seq<Byte>
    requires ValidRows(cols, rows) && CellsInRow(cols)
  {
    CellsPatchable(cols, rows);
    Patched(cols, RawMatrix(rows), CellList(rows), FirstCellSlot(promote))
  }

  function IndexEntry(rows: seq<TcRow>, s: nat): (e: seq<Byte>)
    requires s < |rows|
    ensures |e| == 8
  {
    Le32(rows[s].rowId) + Le32(s % 0x1_0000_0000)
  }

  function IndexEntries(rows: seq<TcRow>): (es: seq<seq<Byte>>)
    ensures |es| == |rows| && forall s | 0 <= s < |rows| :: es[s] == IndexEntry(rows, s)
  {
    seq(|rows|, s requires 0 <= s < |rows| => IndexEntry(rows, s))
  }

  function ColumnTag(c: TcColumn): UInt32 {
    c.tag * 0x1_0000 + c.ptype
  }

  function ColumnEntry(c: TcColumn): (e: seq<Byte>)
    ensures |e| == 8
  {
    Le32(ColumnTag(c)) + Le16(c.ibData) + [c.cbData, c.iBit]
  }

  function ColumnEntries(cols: seq<TcColumn>): (es: seq<seq<Byte>>)
    ensures |es| == |cols| && forall i | 0 <= i < |cols| :: es[i] == ColumnEntry(cols[i])
  {
    seq(|cols|, i requires 0 <= i < |cols| => ColumnEntry(cols[i]))
  }

  function TcHead(colCount: nat, rg: Rgib, hnidRows: UInt32): (s: seq<Byte>)
    ensures |s| == 22
  {
    [TC_SIGNATURE, colCount % 0x100] + Le16(rg.end4b) + Le16(rg.end2b) + Le16(rg.end1b) + Le16(rg.endBm)
    + Le32(MakeHid(1)) + Le32(hnidRows) + Le32(0)
  }

  function TcInfo(rg: Rgib, sortedCols: seq<TcColumn>, hnidRows: UInt32): seq<Byte> {
    TcHead(|sortedCols|, rg, hnidRows) + Flatten(ColumnEntries(sortedCols))
  }

  function HnidRows(rows: seq<TcRow>, promote: bool, nid: UInt32): UInt32 {
    if rows == [] then 0 else if promote then nid else MakeHid(4)
  }

  ghost function Allocs(cols: seq<TcColumn>, sortedCols: seq<TcColumn>, rows: seq<TcRow>, promote: bool,
                        nid: UInt32): seq<seq<Byte>>
    requires ValidRows(cols, rows) && CellsInRow(cols)
  {
    [Bth.Header(4, 4, 0, if rows == [] then 0 else MakeHid(3)),
     TcInfo(Regions(cols), sortedCols, HnidRows(rows, promote, nid)),
     Flatten(IndexEntries(rows))]
    + (if promote then [] else [Matrix(cols, rows, promote)])
    + CellPayloads(CellList(rows))
  }

  // ---- The size estimate ----

  function PayloadBytes(refs: seq<CellRef>): nat {
    |Flatten(CellPayloads(refs))|
  }

  function EstimatedSize(colCount: nat, rowCount: nat, rowSize: nat, cellCount: nat, cellBytes: nat,
                         promoted: bool): nat {
    var total := 8 + (22 + 8 * colCount) + rowCount * 8 + cellBytes + if promoted then 0 else rowCount * rowSize;
    var allocCount := 3 + cellCount + if promoted then 0 else 1;
    var cursorRaw := HN_HEADER_SIZE + total;
    var cursorAligned := (cursorRaw + 3) / 4 * 4;
    cursorAligned + 4 + 2 * (allocCount + (if cursorRaw != cursorAligned then 1 else 0) + 1)
  }

  function Estimate(cols: seq<TcColumn>, rows: seq<TcRow>, promoted: bool): nat {
    EstimatedSize(|cols|, |rows|, RowSize(cols), |CellList(rows)|, PayloadBytes(CellList(rows)), promoted)
  }

  lemma TcInfoSize(rg: Rgib, sortedCols: seq<TcColumn>, hnidRows: UInt32)
    ensures |TcInfo(rg, sortedCols, hnidRows)| == 22 + 8 * |sortedCols|
  {
    FlattenUniformLength(ColumnEntries(sortedCols), 8);
  }

  lemma AllocsEnd(cols: seq<TcColumn>, sortedCols: seq<TcColumn>, rows: seq<TcRow>, promote: bool, nid: UInt32)
    requires ValidRows(cols, rows) && CellsInRow(cols) && |sortedCols| == |cols|
    ensures var allocs := Allocs(cols, sortedCols, rows, promote, nid);
            |allocs| == 3 + |CellList(rows)| + (if promote then 0 else 1) &&
            HeapEnd(allocs) == HN_HEADER_SIZE + 8 + (22 + 8 * |cols|) + |rows| * 8 + PayloadBytes(CellList(rows))
                               + if promote then 0 else |rows| * RowSize(cols)
  {
    var hdr := Bth.Header(4, 4, 0, if rows == [] then 0 else MakeHid(3));
    var info := TcInfo(Regions(cols), sortedCols, HnidRows(rows, promote, nid));
    var leaf := Flatten(IndexEntries(rows));
    TcInfoSize(Regions(cols), sortedCols, HnidRows(rows, promote, nid));
    FlattenUniformLength(IndexEntries(rows), 8);
    CellsPatchable(cols, rows);
    var m := Matrix(cols, rows, promote);
    var payloads := CellPayloads(CellList(rows));
    FourParts(hdr, info, leaf, if promote then [] else [m], payloads);
    FlattenOne(m);
  }

  lemma FourParts(a: seq<Byte>, b: seq<Byte>, c: seq<Byte>, d: seq<seq<Byte>>, e: seq<seq<Byte>>)
    ensures |Flatten([a, b, c] + d + e)| == |a| + |b| + |c| + |Flatten(d)| + |Flatten(e)|
  {
    FlattenAppend([a, b, c] + d, e);
    FlattenAppend([a, b, c], d);
    assert [a, b, c] == [a, b] + [c] && [a, b] == [a] + [b];
    FlattenSnoc([a, b], c);
    FlattenSnoc([a], b);
    FlattenOne(a);
  }

  /** The estimate is the exact size of the heap that will be built. */
  lemma EstimateIsExact(cols: seq<TcColumn>, sortedCols: seq<TcColumn>, rows: seq<TcRow>, promote: bool, nid: UInt32)
    requires ValidRows(cols, rows) && CellsInRow(cols) && |sortedCols| == |cols|
    ensures HeapImageSize(Allocs(cols, sortedCols, rows, promote, nid)) == Estimate(cols, rows, promote)
  {
    AllocsEnd(cols, sortedCols, rows, promote, nid);
  }
}
