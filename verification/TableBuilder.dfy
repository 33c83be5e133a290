/** buildTableContext itself: layout decision, patching and assembly (src/ltp.cpp). */
module TableBuilder {
  import opened Bytes
  import opened Heap
  import opened Sorting
  import opened TableContext
  import opened Wrappers
  import Bth

  ghost const ByTag: TcColumn -> int := (c: TcColumn) => ColumnTag(c)
  ghost const ByRowId: TcRow -> int := (r: TcRow) => r.rowId

  // ---- The outcome as a function of the sorted input ----

  ghost predicate Ready(cols: seq<TcColumn>, sortedCols: seq<TcColumn>, rows: seq<TcRow>) {
    && ValidRows(cols, rows) && CellsInRow(cols)
    && |sortedCols| == |cols| && (rows == [] ==> |cols| <= MAX_COLUMNS)
  }

  lemma SmallHeapFits(cols: seq<TcColumn>, sortedCols: seq<TcColumn>, rows: seq<TcRow>, promote: bool, nid: UInt32)
    requires Ready(cols, sortedCols, rows)
    requires Estimate(cols, rows, promote) <= MAX_BODY || (rows == [] && !promote)
    ensures Fits(Allocs(cols, sortedCols, rows, promote, nid))
  {
    AllocsEnd(cols, sortedCols, rows, promote, nid);
    EstimateIsExact(cols, sortedCols, rows, promote, nid);
  }

  ghost function Built(cols: seq<TcColumn>, sortedCols: seq<TcColumn>, rows: seq<TcRow>, promote: bool,
                       nid: UInt32): TcResult
    requires Ready(cols, sortedCols, rows) && Fits(Allocs(cols, sortedCols, rows, promote, nid))
  {
    TcResult(HeapImage(Allocs(cols, sortedCols, rows, promote, nid), TC_SIGNATURE, MakeHid(2), NO_FILL),
             if promote then [SubnodeOut(nid, 0, Matrix(cols, rows, true))] else [])
  }

  /** Inline when it fits, otherwise the row matrix moves to a subnode if the caller allows one. */
  ghost function Laid(cols: seq<TcColumn>, sortedCols: seq<TcColumn>, rows: seq<TcRow>,
                      nid: UInt32): Result<TcResult, TcError>
    requires Ready(cols, sortedCols, rows)
  {
    if Estimate(cols, rows, false) <= MAX_BODY then
      SmallHeapFits(cols, sortedCols, rows, false, nid);
      Success(Built(cols, sortedCols, rows, false, nid))
    else if rows == [] then Failure(EstimatorDrift)
    else if nid == 0 then Failure(BodyTooLarge)
    else if Estimate(cols, rows, true) > MAX_BODY then Failure(PromotedBodyTooLarge)
    else
      SmallHeapFits(cols, sortedCols, rows, true, nid);
      Success(Built(cols, sortedCols, rows, true, nid))
  }

  // ---- The writer ----

  datatype VarlenAlloc = VarlenAlloc(rowMatrixOffset: nat, data: seq<Byte>)

  ghost predicate AllocsOf(allocs: seq<VarlenAlloc>, cols: seq<TcColumn>, refs: seq<CellRef>) {
    && |allocs| == |refs|
    && forall k | 0 <= k < |refs| ::
         refs[k].cell.col < |cols| && allocs[k] == VarlenAlloc(CellOffset(cols, refs[k]), refs[k].cell.bytes)
  }

  method BuildTableContext(cols: seq<TcColumn>, rows: seq<TcRow>, nid: UInt32)
    returns (r: Result<TcResult, TcError>, ghost sortedCols: seq<TcColumn>, ghost order: seq<TcRow>)
    requires (rows == [] ==> |cols| <= MAX_COLUMNS) && CellsInRow(cols)
    ensures InputError(cols, rows, nid).Some? ==> r == Failure(InputError(cols, rows, nid).value)
    ensures InputError(cols, rows, nid).None? ==>
              && multiset(sortedCols) == multiset(cols) && Ascending(sortedCols, ByTag)
              && multiset(order) == multiset(rows) && Ascending(order, ByRowId)
              && Ready(cols, sortedCols, order)
              && r == Laid(cols, sortedCols, order, nid)
  {
    sortedCols, order := [], [];
    var bad := Validate(cols, rows, nid);
    if bad.Some? {
      return Failure(bad.value), [], [];
    }
    var colOrder := Sort(cols, (c: TcColumn) => ColumnTag(c));
    var rowOrder := Sort(rows, (r: TcRow) => r.rowId);
    assert Ascending(colOrder, ByTag) && Ascending(rowOrder, ByRowId);
    sortedCols, order := colOrder, rowOrder;
    SortedRowsValid(cols, rows, rowOrder);
    SameElements(rowOrder, rows);
    var rg := ComputeRgib(cols);
    r := Assemble(cols, colOrder, rowOrder, nid, rg);
  }

  lemma SortedRowsValid(cols: seq<TcColumn>, rows: seq<TcRow>, order: seq<TcRow>)
    requires RowError(cols, rows).None? && multiset(order) == multiset(rows)
    ensures ValidRows(cols, order)
  {
    RowErrorMeans(cols, rows);
    SameElements(order, rows);
    forall s | 0 <= s < |order| ensures ValidRow(cols, order[s]) {
      assert order[s] in rows;
    }
  }

  method Validate(cols: seq<TcColumn>, rows: seq<TcRow>, nid: UInt32) returns (bad: Option<TcError>)
    ensures bad == InputError(cols, rows, nid)
  {
    if |cols| == 0 {
      return Some(NoColumns);
    }
    if nid != 0 && nid % 0x20 == 0 {
      return Some(SubnodeNidIsHid);
    }
    for i := 0 to |cols|
      invariant forall k | 0 <= k < i :: cols[k].cbData in {1, 2, 4, 8}
    {
      if cols[i].cbData !in {1, 2, 4, 8} {
        return Some(BadCellWidth);
      }
    }
    var rg := ComputeRgib(cols);
    for s := 0 to |rows|
      invariant RowError(cols, rows) == RowError(cols, rows[s..])
    {
      assert rows[s..][0] == rows[s] && rows[s..][1..] == rows[s + 1..];
      if |rows[s].bytes| != rg.endBm {
        return Some(RowSizeMismatch);
      }
      var cellBad := ValidateCells(cols, rows[s].cells);
      if cellBad.Some? {
        return cellBad;
      }
    }
    return None;
  }

  method ValidateCells(cols: seq<TcColumn>, cells: seq<VarlenCell>) returns (bad: Option<TcError>)
    ensures bad == CellError(cols, cells)
  {
    for j := 0 to |cells|
      invariant CellError(cols, cells) == CellError(cols, cells[j..])
    {
      assert cells[j..][0] == cells[j] && cells[j..][1..] == cells[j + 1..];
      if cells[j].col >= |cols| {
        return Some(CellColumnOutOfRange);
      }
      if cols[cells[j].col].cbData != 4 {
        return Some(CellNotFourBytes);
      }
    }
    return None;
  }

  method BuildIndexLeaf(rows: seq<TcRow>) returns (leaf: seq<Byte>)
    ensures leaf == Flatten(IndexEntries(rows))
  {
    hide IndexEntry, Patch, Le32, Flatten;
    IndexStart(rows);
    var out := new Byte[|rows| * 8](_ => 0);
    for s := 0 to |rows|
      invariant out[..s * 8] == Flatten(IndexEntries(rows[..s]))
    {
      IndexStep(rows, s);
      WriteIndexEntry(out, s * 8, rows, s);
    }
    assert rows[..|rows|] == rows;
    assert out[..|rows| * 8] == out[..];
    leaf := out[..];
  }

  lemma IndexStart(rows: seq<TcRow>)
    ensures Flatten(IndexEntries(rows[..0])) == []
  {
  }

  lemma IndexStep(rows: seq<TcRow>, s: nat)
    requires s < |rows|
    ensures Flatten(IndexEntries(rows[..s + 1])) == Flatten(IndexEntries(rows[..s])) + IndexEntry(rows, s)
  {
    assert IndexEntries(rows[..s + 1]) == IndexEntries(rows[..s]) + [IndexEntry(rows, s)];
    FlattenSnoc(IndexEntries(rows[..s]), IndexEntry(rows, s));
  }

  method WriteIndexEntry(out: array<Byte>, at: nat, rows: seq<TcRow>, s: nat)
    requires s < |rows| && at + 8 <= out.Length
    modifies out
    ensures out[..at + 8] == old(out[..at]) + IndexEntry(rows, s)
  {
    hide Patch, Le32;
    WriteU32(out, at, rows[s].rowId);
    WriteU32(out, at + 4, s % 0x1_0000_0000);
  }

  /** Copies the row bytes into one matrix and notes where each variable-size cell's heap id will go. */
  method GatherRows(cols: seq<TcColumn>, rows: seq<TcRow>, rg: Rgib)
    returns (rowMatrix: array<Byte>, varlenAllocs: seq<VarlenAlloc>, totalVarlenBytes: nat)
    requires ValidRows(cols, rows) && rg == Regions(cols)
    ensures fresh(rowMatrix) && rowMatrix[..] == RawMatrix(rows)
    ensures AllocsOf(varlenAllocs, cols, CellList(rows))
    ensures totalVarlenBytes == PayloadBytes(CellList(rows))
  {
    hide Regions, CellList, AllocsOf, PayloadBytes, RawMatrix, ValidRow;
    GatherStart(cols, rows);
    var size := |rows| * rg.endBm;
    rowMatrix := new Byte[size](_ => 0);
    varlenAllocs, totalVarlenBytes := [], 0;
    for s := 0 to |rows|
      invariant s * rg.endBm <= size && rowMatrix[..s * rg.endBm] == RawMatrix(rows[..s])
      invariant AllocsOf(varlenAllocs, cols, CellList(rows[..s]))
      invariant totalVarlenBytes == PayloadBytes(CellList(rows[..s]))
    {
      assert ValidRow(cols, rows[s]);
      CopyRow(rowMatrix, cols, rows, s, rg);
      varlenAllocs, totalVarlenBytes := GatherMore(cols, rows, s, rg, varlenAllocs, totalVarlenBytes);
    }
    assert rows[..|rows|] == rows;
    assert rowMatrix[..size] == rowMatrix[..];
  }

  method CopyRow(rowMatrix: array<Byte>, cols: seq<TcColumn>, rows: seq<TcRow>, s: nat, rg: Rgib)
    requires s < |rows| && ValidRow(cols, rows[s]) && rg == Regions(cols)
    requires rowMatrix.Length == |rows| * rg.endBm && s * rg.endBm <= rowMatrix.Length
    requires rowMatrix[..s * rg.endBm] == RawMatrix(rows[..s])
    modifies rowMatrix
    ensures (s + 1) * rg.endBm <= rowMatrix.Length
    ensures rowMatrix[..(s + 1) * rg.endBm] == RawMatrix(rows[..s + 1])
  {
    hide Regions, RawMatrix, ValidRow, Patch;
    RowWidth(cols, rows[s]);
    MatrixStep(rows, s, rg.endBm);
    Copy(rowMatrix, s * rg.endBm, rows[s].bytes);
  }

  lemma RowWidth(cols: seq<TcColumn>, row: TcRow)
    requires ValidRow(cols, row)
    ensures |row.bytes| == Regions(cols).endBm
  {
  }

  lemma GatherStart(cols: seq<TcColumn>, rows: seq<TcRow>)
    ensures RawMatrix(rows[..0]) == [] && AllocsOf([], cols, CellList(rows[..0]))
            && PayloadBytes(CellList(rows[..0])) == 0
  {
  }

  method GatherMore(cols: seq<TcColumn>, rows: seq<TcRow>, s: nat, rg: Rgib, allocs: seq<VarlenAlloc>, total: nat)
    returns (allocs': seq<VarlenAlloc>, total': nat)
    requires s < |rows| && ValidRow(cols, rows[s]) && rg == Regions(cols)
    requires AllocsOf(allocs, cols, CellList(rows[..s])) && total == PayloadBytes(CellList(rows[..s]))
    ensures AllocsOf(allocs', cols, CellList(rows[..s + 1])) && total' == PayloadBytes(CellList(rows[..s + 1]))
  {
    hide Regions, CellList, AllocsOf, PayloadBytes, RowCells;
    var rowAllocs, rowTotal := GatherCells(cols, rows[s], s, rg);
    CellListStep(rows, s);
    PayloadBytesAppend(CellList(rows[..s]), RowCells(s, rows[s].cells));
    AllocsOfAppend(allocs, CellList(rows[..s]), rowAllocs, RowCells(s, rows[s].cells), cols);
    allocs', total' := allocs + rowAllocs, total + rowTotal;
  }

  lemma AllocsOfAppend(a: seq<VarlenAlloc>, ra: seq<CellRef>, b: seq<VarlenAlloc>, rb: seq<CellRef>,
                       cols: seq<TcColumn>)
    requires AllocsOf(a, cols, ra) && AllocsOf(b, cols, rb)
    ensures AllocsOf(a + b, cols, ra + rb)
  {
    hide CellOffset;
  }

  lemma MatrixStep(rows: seq<TcRow>, s: nat, size: nat)
    requires s < |rows|
    ensures RawMatrix(rows[..s + 1]) == RawMatrix(rows[..s]) + rows[s].bytes
    ensures s * size + size == (s + 1) * size <= |rows| * size
  {
    assert RowBytes(rows[..s + 1]) == RowBytes(rows[..s]) + [rows[s].bytes];
    FlattenSnoc(RowBytes(rows[..s]), rows[s].bytes);
    MulAtMost(s + 1, |rows|, size);
  }

  lemma CellListStep(rows: seq<TcRow>, s: nat)
    requires s < |rows|
    ensures CellList(rows[..s + 1]) == CellList(rows[..s]) + RowCells(s, rows[s].cells)
  {
    assert rows[..s + 1][..s] == rows[..s];
  }

  lemma PayloadBytesAppend(a: seq<CellRef>, b: seq<CellRef>)
    ensures PayloadBytes(a + b) == PayloadBytes(a) + PayloadBytes(b)
  {
    assert CellPayloads(a + b) == CellPayloads(a) + CellPayloads(b);
    FlattenAppend(CellPayloads(a), CellPayloads(b));
  }

  method GatherCells(cols: seq<TcColumn>, row: TcRow, s: nat, rg: Rgib) returns (allocs: seq<VarlenAlloc>, total: nat)
    requires ValidRow(cols, row) && rg == Regions(cols)
    ensures AllocsOf(allocs, cols, RowCells(s, row.cells))
    ensures total == PayloadBytes(RowCells(s, row.cells))
  {
    hide Regions;
    allocs, total := [], 0;
    for j := 0 to |row.cells|
      invariant AllocsOf(allocs, cols, RowCells(s, row.cells)[..j])
      invariant total == PayloadBytes(RowCells(s, row.cells)[..j])
    {
      var v := row.cells[j];
      assert ValidCell(cols, v);
      ghost var refs := RowCells(s, row.cells);
      assert refs[..j + 1] == refs[..j] + [refs[j]];
      PayloadBytesAppend(refs[..j], [refs[j]]);
      assert CellPayloads([refs[j]]) == [v.bytes];
      FlattenOne(v.bytes);
      allocs := allocs + [VarlenAlloc(s * rg.endBm + cols[v.col].ibData, v.bytes)];
      total := total + |v.bytes|;
    }
    assert RowCells(s, row.cells)[..|row.cells|] == RowCells(s, row.cells);
  }

  method EstimateHnSize(cols: seq<TcColumn>, rows: seq<TcRow>, rg: Rgib, cellCount: nat, totalVarlenBytes: nat,
                        promoted: bool)
    returns (size: nat)
    requires rg == Regions(cols)
    requires cellCount == |CellList(rows)| && totalVarlenBytes == PayloadBytes(CellList(rows))
    ensures size == Estimate(cols, rows, promoted)
  {
    hide CellList, PayloadBytes, Regions, RowSize;
    RowSizeIs(cols);
    assert |rows| * rg.endBm == |rows| * RowSize(cols);
    var total := 8 + (22 + 8 * |cols|) + |rows| * 8 + totalVarlenBytes;
    var allocCount := 3 + cellCount;
    if !promoted {
      total := total + |rows| * rg.endBm;
      allocCount := allocCount + 1;
    }
    var cursorRaw := HN_HEADER_SIZE + total;
    var cursorAligned := (cursorRaw + 3) / 4 * 4;
    if cursorRaw != cursorAligned {
      allocCount := allocCount + 1;
    }
    size := cursorAligned + (4 + 2 * (allocCount + 1));
  }

  lemma RowSizeIs(cols: seq<TcColumn>)
    ensures RowSize(cols) == Regions(cols).endBm
  {
  }

  /** Writes the heap id of every variable-size cell into its slot of the row matrix. */
  method PatchHids(rowMatrix: array<Byte>, varlenAllocs: seq<VarlenAlloc>, promote: bool,
                   ghost cols: seq<TcColumn>, ghost refs: seq<CellRef>)
    requires AllocsOf(varlenAllocs, cols, refs) && Patchable(cols, refs, rowMatrix.Length)
    modifies rowMatrix
    ensures rowMatrix[..] == Patched(cols, old(rowMatrix[..]), refs, FirstCellSlot(promote))
  {
    assert |varlenAllocs| == |refs|;
    var nextVarlenSlot: UInt16 := FirstCellSlot(promote);
    hide CellOffset, MakeHid, Le32, Patched, Patchable, AllocsOf, FirstCellSlot, CellSlot;
    ghost var raw := rowMatrix[..];
    NothingPatched(cols, raw, refs, FirstCellSlot(promote));
    NextSlot(FirstCellSlot(promote), 0);
    for k := 0 to |varlenAllocs|
      invariant Patchable(cols, refs[..k], |raw|)
      invariant rowMatrix[..] == Patched(cols, raw, refs[..k], FirstCellSlot(promote))
      invariant nextVarlenSlot == CellSlot(FirstCellSlot(promote), k)
    {
      PatchCell(rowMatrix, varlenAllocs, k, nextVarlenSlot, cols, refs, raw, FirstCellSlot(promote));
      NextSlot(FirstCellSlot(promote), k);
      nextVarlenSlot := (nextVarlenSlot + 1) % 0x1_0000;
    }
    assert refs[..|refs|] == refs;
  }

  function CellSlot(first: UInt16, k: nat): UInt16 {
    (first + k) % 0x1_0000
  }

  lemma NextSlot(first: UInt16, k: nat)
    ensures CellSlot(first, 0) == first
    ensures CellSlot(first, k + 1) == (CellSlot(first, k) + 1) % 0x1_0000
  {
  }

  method PatchCell(rowMatrix: array<Byte>, varlenAllocs: seq<VarlenAlloc>, k: nat, slot: UInt16,
                   ghost cols: seq<TcColumn>, ghost refs: seq<CellRef>, ghost raw: seq<Byte>, ghost firstSlot: UInt16)
    requires AllocsOf(varlenAllocs, cols, refs) && Patchable(cols, refs, |raw|) && k < |varlenAllocs|
    requires Patchable(cols, refs[..k], |raw|) && rowMatrix[..] == Patched(cols, raw, refs[..k], firstSlot)
    requires slot == CellSlot(firstSlot, k)
    modifies rowMatrix
    ensures Patchable(cols, refs[..k + 1], |raw|)
    ensures rowMatrix[..] == Patched(cols, raw, refs[..k + 1], firstSlot)
  {
    hide CellOffset, MakeHid, Le32, Patched, Patchable, AllocsOf;
    NextPatch(varlenAllocs, cols, refs, |raw|, k);
    PatchedStep(cols, raw, refs, firstSlot, k);
    WriteU32(rowMatrix, varlenAllocs[k].rowMatrixOffset, MakeHid(slot));
  }

  lemma NothingPatched(cols: seq<TcColumn>, raw: seq<Byte>, refs: seq<CellRef>, firstSlot: UInt16)
    ensures Patchable(cols, refs[..0], |raw|) && Patched(cols, raw, refs[..0], firstSlot) == raw
  {
  }

  lemma NextPatch(allocs: seq<VarlenAlloc>, cols: seq<TcColumn>, refs: seq<CellRef>, size: nat, k: nat)
    requires AllocsOf(allocs, cols, refs) && Patchable(cols, refs, size) && k < |allocs|
    ensures k < |refs| && refs[k].cell.col < |cols|
    ensures allocs[k].rowMatrixOffset == CellOffset(cols, refs[k]) && CellOffset(cols, refs[k]) + 4 <= size
  {
    hide CellOffset;
  }

  lemma PatchedStep(cols: seq<TcColumn>, raw: seq<Byte>, refs: seq<CellRef>, firstSlot: UInt16, k: nat)
    requires k < |refs| && Patchable(cols, refs, |raw|)
    ensures Patchable(cols, refs[..k], |raw|) && Patchable(cols, refs[..k + 1], |raw|)
    ensures Patched(cols, raw, refs[..k + 1], firstSlot)
            == Patch(Patched(cols, raw, refs[..k], firstSlot), CellOffset(cols, refs[k]),
                     Le32(MakeHid((firstSlot + k) % 0x1_0000)))
  {
    hide CellOffset, MakeHid, Le32, Patch;
    assert forall i | 0 <= i < k + 1 :: refs[..k + 1][i] == refs[i];
    assert refs[..k + 1][..k] == refs[..k];
  }

  method BuildTcInfo(colOrder: seq<TcColumn>, rg: Rgib, hnidRows: UInt32) returns (info: seq<Byte>)
    ensures info == TcInfo(rg, colOrder, hnidRows)
  {
    hide TcHead, ColumnEntry, Flatten, ColumnEntries;
    var out := new Byte[22 + 8 * |colOrder|](_ => 0);
    WriteTcHead(out, |colOrder|, rg, hnidRows);
    assert Flatten(ColumnEntries(colOrder[..0])) == [] by { FlattenUniformLength(ColumnEntries(colOrder[..0]), 8); }
    for s := 0 to |colOrder|
      invariant out[..22 + s * 8] == TcHead(|colOrder|, rg, hnidRows) + Flatten(ColumnEntries(colOrder[..s]))
    {
      WriteColumn(out, 22 + s * 8, colOrder[s]);
      assert ColumnEntries(colOrder[..s + 1]) == ColumnEntries(colOrder[..s]) + [ColumnEntry(colOrder[s])];
      FlattenSnoc(ColumnEntries(colOrder[..s]), ColumnEntry(colOrder[s]));
    }
    assert colOrder[..|colOrder|] == colOrder;
    info := out[..];
  }

  method WriteColumn(out: array<Byte>, dst: nat, c: TcColumn)
    requires dst + 8 <= out.Length
    modifies out
    ensures out[..dst + 8] == old(out[..dst]) + ColumnEntry(c)
  {
    hide Le16, Le32, ColumnTag, Patch;
    WriteU32(out, dst, ColumnTag(c));
    WriteU16(out, dst + 4, c.ibData);
    WriteU8(out, dst + 6, c.cbData);
    WriteU8(out, dst + 7, c.iBit);
  }

  method WriteTcHead(out: array<Byte>, colCount: nat, rg: Rgib, hnidRows: UInt32)
    requires out.Length >= 22
    modifies out
    ensures out[..22] == TcHead(colCount, rg, hnidRows)
  {
    hide Le16, Le32, MakeHid, Patch;
    WriteU8(out, 0, TC_SIGNATURE);
    WriteU8(out, 1, colCount % 0x100);
    assert out[..2] == [TC_SIGNATURE, colCount % 0x100];
    WriteU16(out, 2, rg.end4b);
    WriteU16(out, 4, rg.end2b);
    WriteU16(out, 6, rg.end1b);
    WriteU16(out, 8, rg.endBm);
    WriteU32(out, 10, MakeHid(1));
    WriteU32(out, 14, hnidRows);
    WriteU32(out, 18, 0);
  }

  method Assemble(cols: seq<TcColumn>, colOrder: seq<TcColumn>, rows: seq<TcRow>, nid: UInt32, rg: Rgib)
    returns (r: Result<TcResult, TcError>)
    requires Ready(cols, colOrder, rows) && rg == Regions(cols)
    ensures r == Laid(cols, colOrder, rows, nid)
  {
    hide Regions, CellList, CellOffset, Estimate, Patched, PayloadBytes, HeapImage, ValidRows, CellsInRow, Flatten;
    var rowIdxHdr := Bth.Header(4, 4, 0, if |rows| > 0 then MakeHid(3) else 0);
    var rowIdxLeaf := BuildIndexLeaf(rows);
    var rowMatrix, varlenAllocs, totalVarlenBytes := GatherRows(cols, rows, rg);
    var promote := false;
    var estIfInline := EstimateHnSize(cols, rows, rg, |varlenAllocs|, totalVarlenBytes, false);
    if estIfInline > MAX_BODY && |rows| > 0 {
      if nid == 0 {
        return Failure(BodyTooLarge);
      }
      var estIfPromoted := EstimateHnSize(cols, rows, rg, |varlenAllocs|, totalVarlenBytes, true);
      if estIfPromoted > MAX_BODY {
        return Failure(PromotedBodyTooLarge);
      }
      promote := true;
    }
    CellsPatchable(cols, rows);
    PatchHids(rowMatrix, varlenAllocs, promote, cols, CellList(rows));
    var tcInfo := BuildTcInfo(colOrder, rg, if |rows| == 0 then 0 else if promote then nid else MakeHid(4));
    var allocs := [rowIdxHdr, tcInfo, rowIdxLeaf] + (if promote then [] else [rowMatrix[..]])
                  + seq(|varlenAllocs|, k requires 0 <= k < |varlenAllocs| => varlenAllocs[k].data);
    assert seq(|varlenAllocs|, k requires 0 <= k < |varlenAllocs| => varlenAllocs[k].data)
           == CellPayloads(CellList(rows));
    assert allocs == Allocs(cols, colOrder, rows, promote, nid);
    SmallHeapFits(cols, colOrder, rows, promote, nid);
    EstimateIsExact(cols, colOrder, rows, promote, nid);
    var hn := BuildHeapOnNode(allocs, TC_SIGNATURE, MakeHid(2), NO_FILL);
    if |hn| > MAX_BODY {
      return Failure(EstimatorDrift);
    }
    return Success(TcResult(hn, if promote then [SubnodeOut(nid, 0, rowMatrix[..])] else []));
  }
}
