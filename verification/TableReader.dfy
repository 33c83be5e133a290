/**
 Reading a Table Context back: the walk of tools/pst_info.cpp (section 2.3.4 of [MS-PST]) and why it finds
 every row and every variable-size cell that was written.
 */
module TableReader {
  import opened Bytes
  import opened Heap
  import opened Sorting
  import opened TableContext
  import opened TableSize
  import opened TableBuilder
  import opened Wrappers
  import Bth

  // ---- The reader ----

  datatype ReadError =
    | NotATable
    | PageMapOutOfRange
    | PageMapTooLong
    | InHeap(heap: HeapError)
    | BadTcInfo
    | BadTcInfoSize
    | BadRowIndexHeader
    | PartialIndexRecord
    | NoSuchSubnode
    | BadMatrixSize
    | BadRowNumber

  datatype Table = Table(rowSize: UInt16, leaf: HnSlice, matrix: seq<Byte>)

  function Resolve(hid: UInt32, hn: seq<Byte>, m: nat, cAlloc: UInt16): (r: Result<HnSlice, ReadError>)
    ensures r.Success? ==> r.value.off + r.value.size <= |hn|
  {
    match ResolveHid(hid, hn, m, cAlloc)
    case Success(s) => Success(s)
    case Failure(e) => Failure(InHeap(e))
  }

  function SubnodeData(subnodes: seq<SubnodeOut>, nid: UInt32): Result<seq<Byte>, ReadError> {
    if subnodes == [] then Failure(NoSuchSubnode)
    else if subnodes[0].nid == nid then Success(subnodes[0].data)
    else SubnodeData(subnodes[1..], nid)
  }

  /** The slice of leaf records that the row index names; an empty slice when it has no leaf. */
  function IndexLeaf(hn: seq<Byte>, hidRowIndex: UInt32, m: nat, cAlloc: UInt16): (r: Result<HnSlice, ReadError>)
    ensures r.Success? ==> r.value.off + r.value.size <= |hn| && r.value.size % 8 == 0
  {
    var hdr :- Resolve(hidRowIndex, hn, m, cAlloc);
    if hdr.size != 8 then Failure(BadRowIndexHeader)
    else if hn[hdr.off + 1] != 4 || hn[hdr.off + 2] != 4 || hn[hdr.off + 3] != 0 then Failure(BadRowIndexHeader)
    else
      var hidLeaf := ReadU32(hn, hdr.off + 4);
      if hidLeaf / 0x20 % 0x800 == 0 then Success(HnSlice(0, 0))
      else
        var leaf :- Resolve(hidLeaf, hn, m, cAlloc);
        if leaf.size % 8 != 0 then Failure(PartialIndexRecord) else Success(leaf)
  }

  /** A heap id names the matrix inside the heap, any other id the subnode that holds it. */
  function MatrixBytes(hn: seq<Byte>, subnodes: seq<SubnodeOut>, hnidRows: UInt32, m: nat, cAlloc: UInt16):
    Result<seq<Byte>, ReadError>
  {
    if hnidRows == 0 then Success([])
    else if hnidRows % 0x20 != 0 then SubnodeData(subnodes, hnidRows)
    else
      var s :- Resolve(hnidRows, hn, m, cAlloc);
      Success(SliceBytes(hn, s))
  }

  function OpenTable(hn: seq<Byte>, subnodes: seq<SubnodeOut>): (r: Result<Table, ReadError>)
    ensures r.Success? ==> r.value.leaf.off + r.value.leaf.size <= |hn| && r.value.leaf.size % 8 == 0
    ensures r.Success? ==> |r.value.matrix| == r.value.leaf.size / 8 * r.value.rowSize
  {
    if |hn| < HN_HEADER_SIZE || hn[2] != HN_SIGNATURE || hn[3] != TC_SIGNATURE then Failure(NotATable)
    else
      var m := ReadU16(hn, 0);
      if m + 4 > |hn| then Failure(PageMapOutOfRange)
      else
        var cAlloc := ReadU16(hn, m);
        if m + 4 + (cAlloc + 1) * 2 > |hn| then Failure(PageMapTooLong)
        else
          var info :- Resolve(ReadU32(hn, 4), hn, m, cAlloc);
          if info.size < 22 || hn[info.off] != TC_SIGNATURE then Failure(BadTcInfo)
          else if info.size != 22 + 8 * hn[info.off + 1] as nat then Failure(BadTcInfoSize)
          else
            var rowSize := ReadU16(hn, info.off + 8);
            var leaf :- IndexLeaf(hn, ReadU32(hn, info.off + 10), m, cAlloc);
            var matrix :- MatrixBytes(hn, subnodes, ReadU32(hn, info.off + 14), m, cAlloc);
            if |matrix| != leaf.size / 8 * rowSize then Failure(BadMatrixSize)
            else Success(Table(rowSize, leaf, matrix))
  }

  /** The row number the index gives for a row id, looking from record `i` on. */
  function RowNumber(hn: seq<Byte>, leaf: HnSlice, rowId: UInt32, i: nat): Option<UInt32>
    requires leaf.off + leaf.size <= |hn| && leaf.size % 8 == 0 && i <= leaf.size / 8
    decreases leaf.size / 8 - i
  {
    if i == leaf.size / 8 then None
    else if ReadU32(hn, leaf.off + i * 8) == rowId then Some(ReadU32(hn, leaf.off + i * 8 + 4))
    else RowNumber(hn, leaf, rowId, i + 1)
  }

  function MatrixRow(matrix: seq<Byte>, rowCount: nat, rowSize: nat, n: nat): seq<Byte>
    requires n < rowCount && |matrix| == rowCount * rowSize
  {
    MulAtMost(n + 1, rowCount, rowSize);
    assert (n + 1) * rowSize == n * rowSize + rowSize;
    matrix[n * rowSize..n * rowSize + rowSize]
  }

  /** The bytes of the row with the given id, or None when the table has no such row. */
  function ReadRow(hn: seq<Byte>, subnodes: seq<SubnodeOut>, rowId: UInt32): Result<Option<seq<Byte>>, ReadError> {
    var t :- OpenTable(hn, subnodes);
    match RowNumber(hn, t.leaf, rowId, 0)
    case None => Success(None)
    case Some(n) =>
      if n >= t.leaf.size / 8 then Failure(BadRowNumber)
      else
        Success(Some(MatrixRow(t.matrix, t.leaf.size / 8, t.rowSize, n)))
  }

  /** The payload a four-byte cell of a row names. */
  function ReadCell(hn: seq<Byte>, row: seq<Byte>, ibData: nat): Result<seq<Byte>, ReadError>
    requires ibData + 4 <= |row|
  {
    if |hn| < 2 || ReadU16(hn, 0) + 2 > |hn| then Failure(PageMapOutOfRange)
    else
      var m := ReadU16(hn, 0);
      var s :- Resolve(ReadU32(row, ibData), hn, m, ReadU16(hn, m));
      Success(SliceBytes(hn, s))
  }

  // ---- Conditions under which a table reads back ----

  predicate Overlap(a: nat, aSize: nat, b: nat, bSize: nat) {
    a < b + bSize && b < a + aSize
  }

  /** Columns laid out by width do not share bytes. */
  ghost predicate DisjointColumns(cols: seq<TcColumn>) {
    forall i, j | 0 <= i < |cols| && 0 <= j < |cols| && i != j ::
      !Overlap(cols[i].ibData, cols[i].cbData, cols[j].ibData, cols[j].cbData)
  }

  ghost predicate OneCellPerColumn(r: TcRow) {
    forall j, k | 0 <= j < k < |r.cells| :: r.cells[j].col != r.cells[k].col
  }

  /** Byte `p` of the row belongs to no variable-size cell. */
  ghost predicate OutsideCells(cols: seq<TcColumn>, r: TcRow, p: nat) {
    forall j | 0 <= j < |r.cells| ::
      r.cells[j].col < |cols| && !(cols[r.cells[j].col].ibData <= p < cols[r.cells[j].col].ibData + 4)
  }

  // ---- The matrix after patching ----

  lemma {:induction false} PatchedElsewhere(cols: seq<TcColumn>, raw: seq<Byte>, refs: seq<CellRef>, slot: UInt16,
                                            p: nat)
    requires Patchable(cols, refs, |raw|) && p < |raw|
    requires forall k | 0 <= k < |refs| :: !(CellOffset(cols, refs[k]) <= p < CellOffset(cols, refs[k]) + 4)
    ensures Patched(cols, raw, refs, slot)[p] == raw[p]
  {
    hide CellOffset, MakeHid, Le32;
    if refs == [] {
    } else {
      var k := |refs| - 1;
      PatchedStep(cols, raw, refs, slot, k);
      assert refs[..k + 1] == refs;
      PatchedElsewhere(cols, raw, refs[..k], slot, p);
    }
  }

  lemma PatchMisses(m: seq<Byte>, at: nat, part: seq<Byte>, off: nat)
    requires |part| == 4 && at + 4 <= |m| && off + 4 <= |m| && !Overlap(at, 4, off, 4)
    ensures Patch(m, at, part)[off..off + 4] == m[off..off + 4]
  {
    var after := Patch(m, at, part);
    assert forall i | off <= i < off + 4 :: after[i] == m[i];
  }

  lemma {:induction false} PatchedSlot(cols: seq<TcColumn>, raw: seq<Byte>, refs: seq<CellRef>, slot: UInt16, k: nat)
    requires Patchable(cols, refs, |raw|) && k < |refs|
    requires forall i | k < i < |refs| :: !Overlap(CellOffset(cols, refs[i]), 4, CellOffset(cols, refs[k]), 4)
    ensures var off := CellOffset(cols, refs[k]);
            off + 4 <= |raw| &&
            Patched(cols, raw, refs, slot)[off..off + 4] == Le32(MakeHid((slot + k) % 0x1_0000))
  {
    hide CellOffset, MakeHid, Le32;
    var n := |refs| - 1;
    PatchedStep(cols, raw, refs, slot, n);
    assert refs[..n + 1] == refs;
    if k >= n {
    } else {
      PatchedSlot(cols, raw, refs[..n], slot, k);
      var off, at := CellOffset(cols, refs[k]), CellOffset(cols, refs[n]);
      assert !Overlap(at, 4, off, 4);
      PatchMisses(Patched(cols, raw, refs[..n], slot), at, Le32(MakeHid((slot + n) % 0x1_0000)), off);
    }
  }

  // ---- Where a cell sits in the row-major list ----

  function CellIndex(rows: seq<TcRow>, s: nat, j: nat): nat
    requires s < |rows|
  {
    |CellList(rows[..s])| + j
  }

  lemma {:induction false} CellListPrefix(rows: seq<TcRow>, i: nat, n: nat)
    requires i <= n <= |rows|
    ensures CellList(rows[..i]) <= CellList(rows[..n])
    decreases n - i
  {
    if i >= n {
    } else {
      CellListPrefix(rows, i, n - 1);
      CellListStep(rows, n - 1);
    }
  }

  lemma CellHere(rows: seq<TcRow>, s: nat, j: nat)
    requires s < |rows| && j < |rows[s].cells|
    ensures CellIndex(rows, s, j) < |CellList(rows)|
    ensures CellList(rows)[CellIndex(rows, s, j)] == CellRef(s, rows[s].cells[j])
  {
    CellListStep(rows, s);
    CellListPrefix(rows, s + 1, |rows|);
    assert rows[..|rows|] == rows;
    var upTo := CellList(rows[..s + 1]);
    assert upTo[CellIndex(rows, s, j)] == RowCells(s, rows[s].cells)[j];
  }

  lemma {:induction false} CellFrom(rows: seq<TcRow>, n: nat, k: nat) returns (s: nat, j: nat)
    requires n <= |rows| && k < |CellList(rows[..n])|
    ensures s < n && j < |rows[s].cells| && k == CellIndex(rows, s, j)
    decreases n
  {
    CellListStep(rows, n - 1);
    if k < |CellList(rows[..n - 1])| {
      s, j := CellFrom(rows, n - 1, k);
    } else {
      s, j := n - 1, k - |CellList(rows[..n - 1])|;
    }
  }

  /** Row `s`, as stored: the caller's bytes outside its cells. */
  lemma RowKept(cols: seq<TcColumn>, rows: seq<TcRow>, promote: bool, s: nat, p: nat)
    requires ValidRows(cols, rows) && CellsInRow(cols) && s < |rows| && p < RowSize(cols)
    requires OutsideCells(cols, rows[s], p)
    ensures s * RowSize(cols) + p < |rows| * RowSize(cols) == |Matrix(cols, rows, promote)|
    ensures |rows[s].bytes| == RowSize(cols) && Matrix(cols, rows, promote)[s * RowSize(cols) + p] == rows[s].bytes[p]
  {
    hide RowSize, CellList, CellOffset, CellsInRow, OutsideCells, RawMatrix;
    var refs, raw, size := CellList(rows), RawMatrix(rows), RowSize(cols);
    CellsPatchable(cols, rows);
    RawRow(cols, rows, s, p);
    forall k | 0 <= k < |refs|
      ensures !(CellOffset(cols, refs[k]) <= s * size + p < CellOffset(cols, refs[k]) + 4)
    {
      CellMisses(cols, rows, s, p, k);
    }
    PatchedElsewhere(cols, raw, refs, FirstCellSlot(promote), s * size + p);
  }

  lemma RawRow(cols: seq<TcColumn>, rows: seq<TcRow>, s: nat, p: nat)
    requires ValidRows(cols, rows) && s < |rows| && p < RowSize(cols)
    ensures |rows[s].bytes| == RowSize(cols)
    ensures s * RowSize(cols) + p < |RawMatrix(rows)| == |rows| * RowSize(cols)
    ensures RawMatrix(rows)[s * RowSize(cols) + p] == rows[s].bytes[p]
  {
    hide RowSize, Flatten;
    assert forall i | 0 <= i < |rows| :: ValidRow(cols, rows[i]);
    FlattenUniformSlice(RowBytes(rows), RowSize(cols), s);
    AtSlice(RawMatrix(rows), s * RowSize(cols), rows[s].bytes, p);
  }

  lemma AtSlice(s: seq<Byte>, off: nat, part: seq<Byte>, p: nat)
    requires off + |part| <= |s| && s[off..off + |part|] == part && p < |part|
    ensures s[off + p] == part[p]
  {
    assert s[off..off + |part|][p] == s[off + p];
  }

  lemma CellMisses(cols: seq<TcColumn>, rows: seq<TcRow>, s: nat, p: nat, k: nat)
    requires ValidRows(cols, rows) && CellsInRow(cols) && s < |rows| && p < RowSize(cols)
    requires OutsideCells(cols, rows[s], p) && k < |CellList(rows)|
    ensures CellList(rows)[k].cell.col < |cols|
    ensures var off := CellOffset(cols, CellList(rows)[k]);
            !(off <= s * RowSize(cols) + p < off + 4)
  {
    hide Regions;
    assert rows[..|rows|] == rows;
    var s', j := CellFrom(rows, |rows|, k);
    CellHere(rows, s', j);
    assert ValidRow(cols, rows[s']) && ValidCell(cols, rows[s'].cells[j]);
    RowsApart(s', cols[rows[s'].cells[j].col].ibData, 4, s, p, 1, RowSize(cols));
  }

  /** Ranges inside different rows never meet. */
  lemma RowsApart(s: nat, a: nat, aSize: nat, t: nat, b: nat, bSize: nat, size: nat)
    requires a + aSize <= size && b + bSize <= size
    ensures s != t ==> !Overlap(s * size + a, aSize, t * size + b, bSize)
    ensures s == t ==> (Overlap(s * size + a, aSize, t * size + b, bSize) <==> Overlap(a, aSize, b, bSize))
  {
    if s < t {
      MulAtMost(s + 1, t, size);
      assert (s + 1) * size == s * size + size;
    } else if t < s {
      MulAtMost(t + 1, s, size);
      assert (t + 1) * size == t * size + size;
    }
  }

  /** The slot of cell `j` of row `s` holds the heap id handed out for it. */
  lemma CellPatched(cols: seq<TcColumn>, rows: seq<TcRow>, promote: bool, s: nat, j: nat)
    requires ValidRows(cols, rows) && CellsInRow(cols) && DisjointColumns(cols)
    requires s < |rows| && j < |rows[s].cells| && OneCellPerColumn(rows[s])
    ensures rows[s].cells[j].col < |cols|
    ensures var off := s * RowSize(cols) + cols[rows[s].cells[j].col].ibData;
            off + 4 <= |Matrix(cols, rows, promote)| &&
            Matrix(cols, rows, promote)[off..off + 4]
            == Le32(MakeHid((FirstCellSlot(promote) + CellIndex(rows, s, j)) % 0x1_0000))
  {
    var refs, k := CellList(rows), CellIndex(rows, s, j);
    CellsPatchable(cols, rows);
    CellHere(rows, s, j);
    assert ValidRow(cols, rows[s]) && ValidCell(cols, rows[s].cells[j]);
    forall i | k < i < |refs|
      ensures !Overlap(CellOffset(cols, refs[i]), 4, CellOffset(cols, refs[k]), 4)
    {
      CellsApart(cols, rows, s, j, i);
    }
    PatchedSlot(cols, RawMatrix(rows), refs, FirstCellSlot(promote), k);
  }

  lemma CellsApart(cols: seq<TcColumn>, rows: seq<TcRow>, s: nat, j: nat, i: nat)
    requires ValidRows(cols, rows) && CellsInRow(cols) && DisjointColumns(cols)
    requires s < |rows| && j < |rows[s].cells| && OneCellPerColumn(rows[s])
    requires i < |CellList(rows)| && i != CellIndex(rows, s, j)
    ensures CellList(rows)[i].cell.col < |cols| && rows[s].cells[j].col < |cols|
    ensures !Overlap(CellOffset(cols, CellList(rows)[i]), 4, CellOffset(cols, CellRef(s, rows[s].cells[j])), 4)
  {
    hide Regions;
    assert rows[..|rows|] == rows;
    var s', j' := CellFrom(rows, |rows|, i);
    CellHere(rows, s', j');
    assert ValidRow(cols, rows[s']) && ValidCell(cols, rows[s'].cells[j']);
    assert ValidRow(cols, rows[s]) && ValidCell(cols, rows[s].cells[j]);
    var a, b := cols[rows[s'].cells[j'].col], cols[rows[s].cells[j].col];
    RowsApart(s', a.ibData, 4, s, b.ibData, 4, RowSize(cols));
    if s' == s {
      assert rows[s].cells[j'].col != rows[s].cells[j].col;
    }
  }

  // ---- Opening a written table ----

  ghost predicate Written(cols: seq<TcColumn>, sortedCols: seq<TcColumn>, rows: seq<TcRow>, promote: bool,
                          nid: UInt32) {
    && Ready(cols, sortedCols, rows)
    && Estimate(cols, rows, promote) <= MAX_BODY
    && (promote ==> nid % 0x20 != 0)
  }

  ghost function WrittenHeap(cols: seq<TcColumn>, sortedCols: seq<TcColumn>, rows: seq<TcRow>, promote: bool,
                             nid: UInt32): seq<Byte>
    requires Written(cols, sortedCols, rows, promote, nid)
  {
    SmallHeapFits(cols, sortedCols, rows, promote, nid);
    Built(cols, sortedCols, rows, promote, nid).hn
  }

  lemma TcInfoFields(rg: Rgib, sortedCols: seq<TcColumn>, hnidRows: UInt32, hn: seq<Byte>, off: nat)
    requires |sortedCols| < 0x100
    requires off + 22 + 8 * |sortedCols| <= |hn|
    requires hn[off..off + (22 + 8 * |sortedCols|)] == TcInfo(rg, sortedCols, hnidRows)
    ensures hn[off] == TC_SIGNATURE && hn[off + 1] == |sortedCols|
    ensures ReadU16(hn, off + 8) == rg.endBm
    ensures ReadU32(hn, off + 10) == MakeHid(1)
    ensures ReadU32(hn, off + 14) == hnidRows
  {
    hide ReadU16, ReadU32, MakeHid;
    TcInfoSize(rg, sortedCols, hnidRows);
    var head := TcHead(|sortedCols|, rg, hnidRows);
    SubSlice(hn, off, off + (22 + 8 * |sortedCols|), 0, 22);
    assert hn[off..off + 22] == head;
    SubSlice(hn, off, off + 22, 8, 10);
    SubSlice(hn, off, off + 22, 10, 14);
    SubSlice(hn, off, off + 22, 14, 18);
    assert hn[off] == head[0] && hn[off + 1] == head[1];
    HeadSlices(|sortedCols|, rg, hnidRows);
    ReadsBack16(hn, off + 8, rg.endBm);
    ReadsBack32(hn, off + 10, MakeHid(1));
    ReadsBack32(hn, off + 14, hnidRows);
  }

  lemma HeadSlices(colCount: nat, rg: Rgib, hnidRows: UInt32)
    ensures var head := TcHead(colCount, rg, hnidRows);
            head[8..10] == Le16(rg.endBm) && head[10..14] == Le32(MakeHid(1)) && head[14..18] == Le32(hnidRows)
  {
    hide Le16, Le32, MakeHid;
  }

  /** What the slots of a written table hold. */
  lemma TableSlots(cols: seq<TcColumn>, sortedCols: seq<TcColumn>, rows: seq<TcRow>, promote: bool, nid: UInt32,
                   hn: seq<Byte>)
    requires Written(cols, sortedCols, rows, promote, nid) && hn == WrittenHeap(cols, sortedCols, rows, promote, nid)
    ensures var allocs := Allocs(cols, sortedCols, rows, promote, nid);
            && Fits(allocs) && |allocs| == FirstCellSlot(promote) - 1 + |CellList(rows)|
            && hn == HeapImage(allocs, TC_SIGNATURE, MakeHid(2), NO_FILL)
            && |allocs[0]| == 8 && |allocs[1]| == 22 + 8 * |sortedCols| && |allocs[2]| == 8 * |rows|
            && (!promote ==> allocs[3] == Matrix(cols, rows, false))
  {
    hide HeapImage, Estimate, Matrix, Regions, CellList, TcInfo, ValidRows, CellsInRow, Flatten;
    SmallHeapFits(cols, sortedCols, rows, promote, nid);
    AllocsEnd(cols, sortedCols, rows, promote, nid);
    FlattenUniformLength(IndexEntries(rows), 8);
    TcInfoSize(Regions(cols), sortedCols, HnidRows(rows, promote, nid));
  }

  lemma LeafFound(rows: seq<TcRow>, hn: seq<Byte>, m: nat, cAlloc: UInt16, hdr: HnSlice, leaf: HnSlice)
    requires ResolveHid(MakeHid(1), hn, m, cAlloc) == Success(hdr) && hdr.size == 8 && hdr.off + 8 <= |hn|
    requires SliceBytes(hn, hdr) == Bth.Header(4, 4, 0, if rows == [] then 0 else MakeHid(3))
    requires ResolveHid(MakeHid(3), hn, m, cAlloc) == Success(leaf) && leaf.size == 8 * |rows|
    ensures IndexLeaf(hn, MakeHid(1), m, cAlloc) == Success(if rows == [] then HnSlice(0, 0) else leaf)
  {
    hide ResolveHid;
    var h := SliceBytes(hn, hdr);
    var root := if rows == [] then 0 else MakeHid(3);
    assert hn[hdr.off + 1] == h[1] && hn[hdr.off + 2] == h[2] && hn[hdr.off + 3] == h[3];
    SubSlice(hn, hdr.off, hdr.off + 8, 4, 8);
    assert h[4..8] == Le32(root);
    ReadsBack32(hn, hdr.off + 4, root);
  }

  lemma MatrixFound(allocs: seq<seq<Byte>>, hn: seq<Byte>, rows: seq<TcRow>, promote: bool, nid: UInt32,
                    matrix: seq<Byte>)
    requires Fits(allocs) && hn == HeapImage(allocs, TC_SIGNATURE, MakeHid(2), NO_FILL)
    requires promote ==> nid % 0x20 != 0
    requires !promote ==> |allocs| >= 4 && allocs[3] == matrix
    requires rows == [] ==> matrix == []
    ensures MatrixBytes(hn, if promote then [SubnodeOut(nid, 0, matrix)] else [], HnidRows(rows, promote, nid),
                        PageMapOffset(allocs), SlotCount(allocs)) == Success(matrix)
  {
    hide ResolveHid, HeapImage, PageMapOffset, SlotCount;
    if rows != [] && !promote {
      InlineMatrix(allocs, hn);
    }
  }

  lemma InlineMatrix(allocs: seq<seq<Byte>>, hn: seq<Byte>)
    requires Fits(allocs) && |allocs| >= 4 && hn == HeapImage(allocs, TC_SIGNATURE, MakeHid(2), NO_FILL)
    ensures MatrixBytes(hn, [], MakeHid(4), PageMapOffset(allocs), SlotCount(allocs)) == Success(allocs[3])
  {
    hide ResolveHid, HeapImage;
    SlotResolves(allocs, TC_SIGNATURE, MakeHid(2), NO_FILL, hn, 4);
  }

  lemma Opens(cols: seq<TcColumn>, sortedCols: seq<TcColumn>, rows: seq<TcRow>, promote: bool, nid: UInt32,
              hn: seq<Byte>)
    requires |cols| < 0x100 && Written(cols, sortedCols, rows, promote, nid)
             && hn == WrittenHeap(cols, sortedCols, rows, promote, nid)
    ensures var subnodes := if promote then [SubnodeOut(nid, 0, Matrix(cols, rows, true))] else [];
            var t := OpenTable(hn, subnodes);
            && t.Success? && t.value.rowSize == RowSize(cols) && t.value.matrix == Matrix(cols, rows, promote)
            && t.value.leaf.size == 8 * |rows|
            && hn[t.value.leaf.off..t.value.leaf.off + 8 * |rows|] == Flatten(IndexEntries(rows))
  {
    hide Matrix, Estimate, Regions, CellList, TcInfo, OpenTable, MatrixBytes, HeapImage, WrittenHeap, Fits, Flatten,
         ValidRows, CellsInRow, RowSize, PageMapOffset, SlotCount;
    var allocs := Allocs(cols, sortedCols, rows, promote, nid);
    var subnodes := if promote then [SubnodeOut(nid, 0, Matrix(cols, rows, true))] else [];
    TableSlots(cols, sortedCols, rows, promote, nid, hn);
    MatrixSize(cols, rows, promote);
    RowSizeIs(cols);
    MatrixFound(allocs, hn, rows, promote, nid, Matrix(cols, rows, promote));
    OpensFrom(allocs, hn, Regions(cols), sortedCols, rows, HnidRows(rows, promote, nid), subnodes,
              Matrix(cols, rows, promote));
  }

  lemma OpensFrom(allocs: seq<seq<Byte>>, hn: seq<Byte>, rg: Rgib, sortedCols: seq<TcColumn>, rows: seq<TcRow>,
                  hnidRows: UInt32, subnodes: seq<SubnodeOut>, matrix: seq<Byte>)
    requires Fits(allocs) && |allocs| >= 3 && hn == HeapImage(allocs, TC_SIGNATURE, MakeHid(2), NO_FILL)
    requires allocs[0] == Bth.Header(4, 4, 0, if rows == [] then 0 else MakeHid(3))
    requires allocs[1] == TcInfo(rg, sortedCols, hnidRows) && |sortedCols| < 0x100
    requires |allocs[1]| == 22 + 8 * |sortedCols|
    requires allocs[2] == Flatten(IndexEntries(rows)) && |allocs[2]| == 8 * |rows|
    requires MatrixBytes(hn, subnodes, hnidRows, PageMapOffset(allocs), SlotCount(allocs)) == Success(matrix)
    requires |matrix| == |rows| * rg.endBm
    ensures var t := OpenTable(hn, subnodes);
            && t.Success? && t.value.rowSize == rg.endBm && t.value.matrix == matrix
            && t.value.leaf.size == 8 * |rows|
            && hn[t.value.leaf.off..t.value.leaf.off + 8 * |rows|] == Flatten(IndexEntries(rows))
  {
    hide HeapImage, ResolveHid, IndexLeaf, MatrixBytes, Flatten, AllocStart, PageMapOffset, SlotCount, ReadU16, ReadU32,
         TcInfo, Fits;
    var m, cAlloc := PageMapOffset(allocs), SlotCount(allocs);
    HeaderFields(allocs, TC_SIGNATURE, MakeHid(2), NO_FILL, hn);
    SlotResolves(allocs, TC_SIGNATURE, MakeHid(2), NO_FILL, hn, 1);
    SlotResolves(allocs, TC_SIGNATURE, MakeHid(2), NO_FILL, hn, 2);
    SlotResolves(allocs, TC_SIGNATURE, MakeHid(2), NO_FILL, hn, 3);
    var hdr, leaf := HnSlice(AllocStart(allocs, 0), 8), HnSlice(AllocStart(allocs, 2), 8 * |rows|);
    LeafFound(rows, hn, m, cAlloc, hdr, leaf);
    TcInfoFields(rg, sortedCols, hnidRows, hn, AllocStart(allocs, 1));
    OpensAt(hn, subnodes, m, cAlloc, HnSlice(AllocStart(allocs, 1), 22 + 8 * |sortedCols|),
            if rows == [] then HnSlice(0, 0) else leaf, hnidRows, matrix, rg.endBm);
    assert rows == [] ==> hn[0..0] == allocs[2];
  }

  lemma OpensAt(hn: seq<Byte>, subnodes: seq<SubnodeOut>, m: UInt16, cAlloc: UInt16, info: HnSlice, leaf: HnSlice,
                hnidRows: UInt32, matrix: seq<Byte>, rowSize: UInt16)
    requires |hn| >= HN_HEADER_SIZE && hn[2] == HN_SIGNATURE && hn[3] == TC_SIGNATURE
    requires ReadU16(hn, 0) == m && m + 4 + (cAlloc + 1) * 2 <= |hn| && ReadU16(hn, m) == cAlloc
    requires ReadU32(hn, 4) == MakeHid(2) && ResolveHid(MakeHid(2), hn, m, cAlloc) == Success(info)
    requires info.off + info.size <= |hn| && info.size >= 22
    requires hn[info.off] == TC_SIGNATURE && info.size == 22 + 8 * hn[info.off + 1] as nat
    requires ReadU16(hn, info.off + 8) == rowSize && ReadU32(hn, info.off + 10) == MakeHid(1)
    requires ReadU32(hn, info.off + 14) == hnidRows
    requires IndexLeaf(hn, MakeHid(1), m, cAlloc) == Success(leaf)
    requires MatrixBytes(hn, subnodes, hnidRows, m, cAlloc) == Success(matrix) && |matrix| == leaf.size / 8 * rowSize
    ensures OpenTable(hn, subnodes) == Success(Table(rowSize, leaf, matrix))
  {
    hide ResolveHid, IndexLeaf, MatrixBytes, ReadU16, ReadU32, MakeHid;
  }

  // ---- Rows and cells of a written table ----

  lemma IndexRecord(rows: seq<TcRow>, hn: seq<Byte>, leaf: HnSlice, i: nat)
    requires leaf.off + leaf.size <= |hn| && leaf.size == 8 * |rows| && i < |rows|
    requires hn[leaf.off..leaf.off + 8 * |rows|] == Flatten(IndexEntries(rows))
    ensures ReadU32(hn, leaf.off + i * 8) == rows[i].rowId
    ensures ReadU32(hn, leaf.off + i * 8 + 4) == i % 0x1_0000_0000
  {
    hide ReadU32, Le32, Flatten;
    FlattenUniformSlice(IndexEntries(rows), 8, i);
    SubSlice(hn, leaf.off, leaf.off + 8 * |rows|, i * 8, i * 8 + 8);
    PairFields(hn, leaf.off + i * 8, rows[i].rowId, i % 0x1_0000_0000);
  }

  lemma PairFields(hn: seq<Byte>, at: nat, a: UInt32, b: UInt32)
    requires at + 8 <= |hn| && hn[at..at + 8] == Le32(a) + Le32(b)
    ensures ReadU32(hn, at) == a && ReadU32(hn, at + 4) == b
  {
    hide ReadU32, Le32;
    SubSlice(hn, at, at + 8, 0, 4);
    SubSlice(hn, at, at + 8, 4, 8);
    ReadsBack32(hn, at, a);
    ReadsBack32(hn, at + 4, b);
  }

  lemma {:induction false} RowNumberFound(rows: seq<TcRow>, hn: seq<Byte>, leaf: HnSlice, s: nat, i: nat)
    requires leaf.off + leaf.size <= |hn| && leaf.size == 8 * |rows| && i <= s < |rows| < 0x1_0000_0000
    requires hn[leaf.off..leaf.off + 8 * |rows|] == Flatten(IndexEntries(rows))
    requires StrictlyAscending(rows, ByRowId)
    ensures RowNumber(hn, leaf, rows[s].rowId, i) == Some(s)
    decreases s - i
  {
    hide ReadU32, Flatten;
    IndexRecord(rows, hn, leaf, i);
    if i >= s {
    } else {
      assert ByRowId(rows[i]) < ByRowId(rows[s]);
      RowNumberFound(rows, hn, leaf, s, i + 1);
    }
  }

  lemma {:induction false} RowNumberAbsent(rows: seq<TcRow>, hn: seq<Byte>, leaf: HnSlice, rowId: UInt32, i: nat)
    requires leaf.off + leaf.size <= |hn| && leaf.size == 8 * |rows| && i <= |rows|
    requires hn[leaf.off..leaf.off + 8 * |rows|] == Flatten(IndexEntries(rows))
    requires forall s | 0 <= s < |rows| :: rows[s].rowId != rowId
    ensures RowNumber(hn, leaf, rowId, i) == None
    decreases |rows| - i
  {
    hide ReadU32, Flatten;
    if i >= |rows| {
    } else {
      IndexRecord(rows, hn, leaf, i);
      RowNumberAbsent(rows, hn, leaf, rowId, i + 1);
    }
  }

  ghost function WrittenSubnodes(cols: seq<TcColumn>, rows: seq<TcRow>, promote: bool, nid: UInt32): seq<SubnodeOut>
    requires ValidRows(cols, rows) && CellsInRow(cols)
  {
    if promote then [SubnodeOut(nid, 0, Matrix(cols, rows, true))] else []
  }

  /** Following the index to row `s` gives exactly its stretch of the matrix. */
  lemma RowStretch(cols: seq<TcColumn>, sortedCols: seq<TcColumn>, rows: seq<TcRow>, promote: bool, nid: UInt32, s: nat)
    requires |cols| < 0x100 && Written(cols, sortedCols, rows, promote, nid)
    requires StrictlyAscending(rows, ByRowId) && s < |rows|
    ensures |Matrix(cols, rows, promote)| == |rows| * RowSize(cols)
    ensures ReadRow(WrittenHeap(cols, sortedCols, rows, promote, nid), WrittenSubnodes(cols, rows, promote, nid),
                    rows[s].rowId)
            == Success(Some(MatrixRow(Matrix(cols, rows, promote), |rows|, RowSize(cols), s)))
  {
    hide Matrix, Regions, OpenTable, RowNumber, Flatten, Estimate, CellsInRow, ValidRows, WrittenHeap;
    var hn := WrittenHeap(cols, sortedCols, rows, promote, nid);
    var subnodes := WrittenSubnodes(cols, rows, promote, nid);
    Opens(cols, sortedCols, rows, promote, nid, hn);
    MatrixSize(cols, rows, promote);
    RowCountSmall(cols, rows, promote);
    RowNumberFound(rows, hn, OpenTable(hn, subnodes).value.leaf, s, 0);
  }

  lemma RowCountSmall(cols: seq<TcColumn>, rows: seq<TcRow>, promote: bool)
    requires Estimate(cols, rows, promote) <= MAX_BODY
    ensures |rows| < 0x1_0000_0000
  {
    hide RowSize, CellList, PayloadBytes;
    SizeBounds(|cols|, |rows|, RowSize(cols), |CellList(rows)|, PayloadBytes(CellList(rows)), promote);
  }

  lemma SizeBounds(colCount: nat, rowCount: nat, rowSize: nat, cellCount: nat, cellBytes: nat, promoted: bool)
    ensures EstimatedSize(colCount, rowCount, rowSize, cellCount, cellBytes, promoted)
            >= HN_HEADER_SIZE + 42 + 8 * (colCount + rowCount) + 2 * cellCount + cellBytes
  {
    MulAtMost(0, rowCount, rowSize);
  }

  lemma MatrixSize(cols: seq<TcColumn>, rows: seq<TcRow>, promote: bool)
    requires ValidRows(cols, rows) && CellsInRow(cols)
    ensures |Matrix(cols, rows, promote)| == |rows| * RowSize(cols)
  {
    CellsPatchable(cols, rows);
  }

  lemma RowAbsent(cols: seq<TcColumn>, sortedCols: seq<TcColumn>, rows: seq<TcRow>, promote: bool, nid: UInt32,
                  rowId: UInt32)
    requires |cols| < 0x100 && Written(cols, sortedCols, rows, promote, nid)
    requires forall s | 0 <= s < |rows| :: rows[s].rowId != rowId
    ensures ReadRow(WrittenHeap(cols, sortedCols, rows, promote, nid), WrittenSubnodes(cols, rows, promote, nid), rowId)
            == Success(None)
  {
    hide Matrix, Regions, OpenTable, RowNumber, Flatten, Estimate, CellsInRow, ValidRows, WrittenHeap, MatrixRow;
    var hn := WrittenHeap(cols, sortedCols, rows, promote, nid);
    Opens(cols, sortedCols, rows, promote, nid, hn);
    RowNumberAbsent(rows, hn, OpenTable(hn, WrittenSubnodes(cols, rows, promote, nid)).value.leaf, rowId, 0);
  }

  /** The heap id handed out for a cell resolves to its payload, as long as 11 bits can hold the slot number. */
  lemma CellResolves(cols: seq<TcColumn>, sortedCols: seq<TcColumn>, rows: seq<TcRow>, promote: bool, nid: UInt32,
                     s: nat, j: nat, row: seq<Byte>, ibData: nat)
    requires Written(cols, sortedCols, rows, promote, nid)
    requires s < |rows| && j < |rows[s].cells| && FirstCellSlot(promote) + |CellList(rows)| <= 0x800
    requires ibData + 4 <= |row|
             && row[ibData..ibData + 4] == Le32(MakeHid((FirstCellSlot(promote) + CellIndex(rows, s, j)) % 0x1_0000))
    ensures ReadCell(WrittenHeap(cols, sortedCols, rows, promote, nid), row, ibData) == Success(rows[s].cells[j].bytes)
  {
    hide Matrix, Regions, HeapImage, ReadCell, Le32, Estimate, WrittenHeap, MakeHid, TcInfo;
    var hn := WrittenHeap(cols, sortedCols, rows, promote, nid);
    var allocs := Allocs(cols, sortedCols, rows, promote, nid);
    var slot := FirstCellSlot(promote) + CellIndex(rows, s, j);
    TableSlots(cols, sortedCols, rows, promote, nid, hn);
    CellHere(rows, s, j);
    assert allocs[slot - 1] == CellPayloads(CellList(rows))[CellIndex(rows, s, j)];
    SlotReads(allocs, hn, row, ibData, slot);
  }

  lemma SlotReads(allocs: seq<seq<Byte>>, hn: seq<Byte>, row: seq<Byte>, ibData: nat, slot: nat)
    requires Fits(allocs) && hn == HeapImage(allocs, TC_SIGNATURE, MakeHid(2), NO_FILL)
    requires 1 <= slot <= |allocs| && slot < 0x800
    requires ibData + 4 <= |row| && row[ibData..ibData + 4] == Le32(MakeHid(slot))
    ensures ReadCell(hn, row, ibData) == Success(allocs[slot - 1])
  {
    hide ResolveHid, HeapImage, ReadU16, ReadU32, Le32, Fits, PageMapOffset, SlotCount;
    HeaderFields(allocs, TC_SIGNATURE, MakeHid(2), NO_FILL, hn);
    SlotResolves(allocs, TC_SIGNATURE, MakeHid(2), NO_FILL, hn, slot);
    ReadsBack32(row, ibData, MakeHid(slot));
  }

  /** What reading back row `r` must give. */
  ghost predicate ReadsAs(hn: seq<Byte>, subnodes: seq<SubnodeOut>, cols: seq<TcColumn>, r: TcRow) {
    var got := ReadRow(hn, subnodes, r.rowId);
    && got.Success? && got.value.Some?
    && |got.value.value| == RowSize(cols) == |r.bytes|
    && (forall p | 0 <= p < |r.bytes| && OutsideCells(cols, r, p) :: got.value.value[p] == r.bytes[p])
    && (forall j | 0 <= j < |r.cells| ::
          r.cells[j].col < |cols| && cols[r.cells[j].col].ibData + 4 <= |got.value.value| &&
          ReadCell(hn, got.value.value, cols[r.cells[j].col].ibData) == Success(r.cells[j].bytes))
  }

  lemma RowReadsBack(cols: seq<TcColumn>, sortedCols: seq<TcColumn>, rows: seq<TcRow>, promote: bool, nid: UInt32,
                     s: nat)
    requires |cols| < 0x100 && Written(cols, sortedCols, rows, promote, nid)
    requires StrictlyAscending(rows, ByRowId) && s < |rows|
    requires DisjointColumns(cols) && OneCellPerColumn(rows[s])
    requires FirstCellSlot(promote) + |CellList(rows)| <= 0x800
    ensures ReadsAs(WrittenHeap(cols, sortedCols, rows, promote, nid), WrittenSubnodes(cols, rows, promote, nid), cols,
                    rows[s])
  {
    hide Matrix, Regions, WrittenHeap, WrittenSubnodes, ReadRow, ReadCell, Estimate, CellList, OneCellPerColumn,
         DisjointColumns, CellsInRow, MatrixRow, ValidRows;
    RowStretch(cols, sortedCols, rows, promote, nid, s);
    RowFixedBytes(cols, rows, promote, s);
    RowCellsRead(cols, sortedCols, rows, promote, nid, s);
  }

  lemma RowAt(m: seq<Byte>, rowCount: nat, size: nat, s: nat, off: nat, n: nat)
    requires s < rowCount && |m| == rowCount * size && off + n <= size
    ensures |MatrixRow(m, rowCount, size, s)| == size
    ensures s * size + off + n <= |m|
    ensures MatrixRow(m, rowCount, size, s)[off..off + n] == m[s * size + off..s * size + off + n]
  {
    MulAtMost(s + 1, rowCount, size);
    assert (s + 1) * size == s * size + size;
    SubSlice(m, s * size, s * size + size, off, off + n);
  }

  lemma RowFixedBytes(cols: seq<TcColumn>, rows: seq<TcRow>, promote: bool, s: nat)
    requires ValidRows(cols, rows) && CellsInRow(cols) && s < |rows|
    ensures |Matrix(cols, rows, promote)| == |rows| * RowSize(cols)
    ensures var row := MatrixRow(Matrix(cols, rows, promote), |rows|, RowSize(cols), s);
            |row| == RowSize(cols) == |rows[s].bytes| &&
            forall p | 0 <= p < |rows[s].bytes| && OutsideCells(cols, rows[s], p) :: row[p] == rows[s].bytes[p]
  {
    hide Matrix, RowSize, OutsideCells, CellsInRow, MatrixRow;
    assert ValidRow(cols, rows[s]);
    MatrixSize(cols, rows, promote);
    var m, size := Matrix(cols, rows, promote), RowSize(cols);
    RowAt(m, |rows|, size, s, 0, size);
    var row := MatrixRow(m, |rows|, size, s);
    forall p | 0 <= p < |rows[s].bytes| && OutsideCells(cols, rows[s], p)
      ensures row[p] == rows[s].bytes[p]
    {
      RowKept(cols, rows, promote, s, p);
      RowAt(m, |rows|, size, s, p, 1);
      assert row[p..p + 1][0] == m[s * size + p..s * size + p + 1][0];
    }
  }

  lemma RowCellsRead(cols: seq<TcColumn>, sortedCols: seq<TcColumn>, rows: seq<TcRow>, promote: bool, nid: UInt32,
                     s: nat)
    requires Written(cols, sortedCols, rows, promote, nid) && s < |rows|
    requires DisjointColumns(cols) && OneCellPerColumn(rows[s])
    requires FirstCellSlot(promote) + |CellList(rows)| <= 0x800
    ensures |Matrix(cols, rows, promote)| == |rows| * RowSize(cols)
    ensures var row := MatrixRow(Matrix(cols, rows, promote), |rows|, RowSize(cols), s);
            |row| == RowSize(cols) &&
            forall j | 0 <= j < |rows[s].cells| ::
              rows[s].cells[j].col < |cols| && cols[rows[s].cells[j].col].ibData + 4 <= |row| &&
              ReadCell(WrittenHeap(cols, sortedCols, rows, promote, nid), row, cols[rows[s].cells[j].col].ibData)
              == Success(rows[s].cells[j].bytes)
  {
    hide Matrix, RowSize, WrittenHeap, ReadCell, Estimate, CellList, OneCellPerColumn, DisjointColumns, MatrixRow;
    MatrixSize(cols, rows, promote);
    RowAt(Matrix(cols, rows, promote), |rows|, RowSize(cols), s, 0, RowSize(cols));
    forall j | 0 <= j < |rows[s].cells|
      ensures rows[s].cells[j].col < |cols| && cols[rows[s].cells[j].col].ibData + 4 <= RowSize(cols)
      ensures ReadCell(WrittenHeap(cols, sortedCols, rows, promote, nid),
                       MatrixRow(Matrix(cols, rows, promote), |rows|, RowSize(cols), s),
                       cols[rows[s].cells[j].col].ibData)
              == Success(rows[s].cells[j].bytes)
    {
      CellRead(cols, sortedCols, rows, promote, nid, s, j);
    }
  }

  lemma CellRead(cols: seq<TcColumn>, sortedCols: seq<TcColumn>, rows: seq<TcRow>, promote: bool, nid: UInt32, s: nat,
                 j: nat)
    requires Written(cols, sortedCols, rows, promote, nid) && s < |rows| && j < |rows[s].cells|
    requires DisjointColumns(cols) && OneCellPerColumn(rows[s])
    requires FirstCellSlot(promote) + |CellList(rows)| <= 0x800
    ensures |Matrix(cols, rows, promote)| == |rows| * RowSize(cols)
    ensures var row := MatrixRow(Matrix(cols, rows, promote), |rows|, RowSize(cols), s);
            |row| == RowSize(cols) &&
            rows[s].cells[j].col < |cols| && cols[rows[s].cells[j].col].ibData + 4 <= |row| &&
            ReadCell(WrittenHeap(cols, sortedCols, rows, promote, nid), row, cols[rows[s].cells[j].col].ibData)
            == Success(rows[s].cells[j].bytes)
  {
    hide Matrix, RowSize, WrittenHeap, ReadCell, Estimate, CellList, CellIndex, OneCellPerColumn, DisjointColumns,
         MatrixRow, MakeHid, Le32;
    assert ValidRow(cols, rows[s]) && ValidCell(cols, rows[s].cells[j]);
    MatrixSize(cols, rows, promote);
    var ib := cols[rows[s].cells[j].col].ibData;
    CellPatched(cols, rows, promote, s, j);
    RowAt(Matrix(cols, rows, promote), |rows|, RowSize(cols), s, ib, 4);
    CellResolves(cols, sortedCols, rows, promote, nid, s, j,
                 MatrixRow(Matrix(cols, rows, promote), |rows|, RowSize(cols), s), ib);
  }

  // ---- For the tables callers build ----

  /** The result buildTableContext gives, with the orders its two sorts chose. */
  ghost predicate Accepted(cols: seq<TcColumn>, rows: seq<TcRow>, nid: UInt32,
                           sortedCols: seq<TcColumn>, order: seq<TcRow>, res: TcResult) {
    && CellsInRow(cols) && InputError(cols, rows, nid).None?
    && multiset(order) == multiset(rows) && Ascending(order, ByRowId)
    && Ready(cols, sortedCols, order)
    && Laid(cols, sortedCols, order, nid) == Success(res)
  }

  lemma AcceptedIsWritten(cols: seq<TcColumn>, rows: seq<TcRow>, nid: UInt32,
                          sortedCols: seq<TcColumn>, order: seq<TcRow>, res: TcResult)
    requires Accepted(cols, rows, nid, sortedCols, order, res)
    ensures var promote := res.subnodes != [];
            && Written(cols, sortedCols, order, promote, nid)
            && res == TcResult(WrittenHeap(cols, sortedCols, order, promote, nid),
                               WrittenSubnodes(cols, order, promote, nid))
  {
    hide Estimate, HeapImage, Matrix, Allocs;
  }

  /** The matrix moves to a subnode exactly when the inline heap would be too long; what is built never is. */
  lemma PromotedWhenTooLong(cols: seq<TcColumn>, rows: seq<TcRow>, nid: UInt32,
                            sortedCols: seq<TcColumn>, order: seq<TcRow>, res: TcResult)
    requires Accepted(cols, rows, nid, sortedCols, order, res)
    ensures res.subnodes != [] <==> HeapImageSize(Allocs(cols, sortedCols, order, false, nid)) > 8176
    ensures |res.hn| <= 8176
  {
    hide Estimate, HeapImage, Matrix, Allocs, Regions, HeapImageSize;
    EstimateIsExact(cols, sortedCols, order, false, nid);
    EstimateIsExact(cols, sortedCols, order, res.subnodes != [], nid);
  }

  lemma NameableReadsBack(cols: seq<TcColumn>, rows: seq<TcRow>, nid: UInt32,
                          sortedCols: seq<TcColumn>, order: seq<TcRow>, res: TcResult)
    requires Accepted(cols, rows, nid, sortedCols, order, res) && |cols| < 0x100
    requires DisjointColumns(cols) && DistinctKeys(rows, ByRowId)
    requires forall r | r in rows :: OneCellPerColumn(r)
    requires FirstCellSlot(res.subnodes != []) + |CellList(order)| <= 0x800
    ensures FindsRows(res.hn, res.subnodes, cols, rows)
  {
    hide ReadsAs, WrittenHeap, WrittenSubnodes, Laid, Ready, CellList, OneCellPerColumn, DisjointColumns, ReadRow;
    var promote := res.subnodes != [];
    AcceptedIsWritten(cols, rows, nid, sortedCols, order, res);
    SortedIsUnique(rows, order, ByRowId);
    SameElements(order, rows);
    forall r | r in rows ensures ReadsAs(res.hn, res.subnodes, cols, r) {
      var s :| 0 <= s < |order| && order[s] == r;
      RowReadsBack(cols, sortedCols, order, promote, nid, s);
    }
    forall id: UInt32 | forall r | r in rows :: r.rowId != id
      ensures ReadRow(res.hn, res.subnodes, id) == Success(None)
    {
      assert forall s | 0 <= s < |order| :: order[s] in rows;
      RowAbsent(cols, sortedCols, order, promote, nid, id);
    }
  }

  /** The column count is stored in one byte; with more columns the reader sees a size that does not match. */
  lemma TooManyColumns(cols: seq<TcColumn>, sortedCols: seq<TcColumn>, rows: seq<TcRow>, promote: bool, nid: UInt32,
                       subnodes: seq<SubnodeOut>)
    requires Written(cols, sortedCols, rows, promote, nid) && |cols| >= 0x100
    ensures OpenTable(WrittenHeap(cols, sortedCols, rows, promote, nid), subnodes).Failure?
  {
    hide HeapImage, ResolveHid, OpenTable, WrittenHeap, Estimate, PageMapOffset, SlotCount, ReadU16, ReadU32,
         AllocStart, ValidRows, CellsInRow, Allocs, Fits;
    var hn := WrittenHeap(cols, sortedCols, rows, promote, nid);
    var allocs := Allocs(cols, sortedCols, rows, promote, nid);
    TableSlots(cols, sortedCols, rows, promote, nid, hn);
    HeaderFields(allocs, TC_SIGNATURE, MakeHid(2), NO_FILL, hn);
    SlotResolves(allocs, TC_SIGNATURE, MakeHid(2), NO_FILL, hn, 2);
    WideInfoRejected(hn, subnodes, PageMapOffset(allocs), SlotCount(allocs),
                     HnSlice(AllocStart(allocs, 1), |allocs[1]|));
  }

  lemma WideInfoRejected(hn: seq<Byte>, subnodes: seq<SubnodeOut>, m: nat, cAlloc: UInt16, info: HnSlice)
    requires |hn| >= HN_HEADER_SIZE && ReadU16(hn, 0) == m && m + 2 <= |hn| && ReadU16(hn, m) == cAlloc
    requires ReadU32(hn, 4) == MakeHid(2) && ResolveHid(MakeHid(2), hn, m, cAlloc) == Success(info)
    requires info.size >= 22 + 8 * 0x100
    ensures OpenTable(hn, subnodes).Failure?
  {
    hide ResolveHid, IndexLeaf, MatrixBytes, ReadU16, ReadU32, MakeHid;
  }

  /** The cell that gets slot number 0x800 is given the heap id 0, which names nothing. */
  lemma UnnameableCell(cols: seq<TcColumn>, sortedCols: seq<TcColumn>, rows: seq<TcRow>, promote: bool, nid: UInt32)
    returns (s: nat)
    requires |cols| < 0x100 && Written(cols, sortedCols, rows, promote, nid) && StrictlyAscending(rows, ByRowId)
    requires DisjointColumns(cols) && forall r | r in rows :: OneCellPerColumn(r)
    requires FirstCellSlot(promote) + |CellList(rows)| > 0x800
    ensures s < |rows|
    ensures !ReadsAs(WrittenHeap(cols, sortedCols, rows, promote, nid), WrittenSubnodes(cols, rows, promote, nid), cols,
                     rows[s])
  {
    hide Matrix, RowSize, WrittenHeap, WrittenSubnodes, ReadRow, ReadCell, Estimate, CellList, CellIndex,
         OneCellPerColumn, DisjointColumns, MatrixRow, MakeHid, Le32, ValidRows, CellsInRow;
    assert rows[..|rows|] == rows;
    var j;
    s, j := CellFrom(rows, |rows|, 0x800 - FirstCellSlot(promote));
    var hn, m := WrittenHeap(cols, sortedCols, rows, promote, nid), Matrix(cols, rows, promote);
    var ib := CellColumn(cols, rows, s, j);
    RowStretch(cols, sortedCols, rows, promote, nid, s);
    CellPatched(cols, rows, promote, s, j);
    RowAt(m, |rows|, RowSize(cols), s, ib, 4);
    ZeroIdNamesNothing(hn, MatrixRow(m, |rows|, RowSize(cols), s), ib);
  }

  ghost function CellColumn(cols: seq<TcColumn>, rows: seq<TcRow>, s: nat, j: nat): (ib: nat)
    requires ValidRows(cols, rows) && CellsInRow(cols) && s < |rows| && j < |rows[s].cells|
    ensures rows[s].cells[j].col < |cols| && ib == cols[rows[s].cells[j].col].ibData && ib + 4 <= RowSize(cols)
  {
    hide RowSize;
    assert ValidRow(cols, rows[s]) && ValidCell(cols, rows[s].cells[j]);
    cols[rows[s].cells[j].col].ibData
  }

  lemma ZeroIdNamesNothing(hn: seq<Byte>, row: seq<Byte>, ibData: nat)
    requires ibData + 4 <= |row| && row[ibData..ibData + 4] == Le32(MakeHid(0x800))
    ensures ReadCell(hn, row, ibData).Failure?
  {
    hide ReadU16, ReadU32;
    ReadsBack32(row, ibData, MakeHid(0x800));
    assert MakeHid(0x800) == 0;
  }

  /** Every row reads as it was given, and no other id finds a row. */
  ghost predicate FindsRows(hn: seq<Byte>, subnodes: seq<SubnodeOut>, cols: seq<TcColumn>, rows: seq<TcRow>) {
    && (forall r | r in rows :: ReadsAs(hn, subnodes, cols, r))
    && forall id: UInt32 | (forall r | r in rows :: r.rowId != id) :: ReadRow(hn, subnodes, id) == Success(None)
  }

  /**
   Every row of an accepted table is found under its id, equals the caller's bytes outside its cells, and each
   cell names its payload, and no other id finds a row -- if and only if one byte can hold the column count and
   11 bits the slot numbers. Inline and promoted matrices read the same.
   */
  lemma TableReadsBack(cols: seq<TcColumn>, rows: seq<TcRow>, nid: UInt32,
                       sortedCols: seq<TcColumn>, order: seq<TcRow>, res: TcResult)
    requires Accepted(cols, rows, nid, sortedCols, order, res)
    requires DisjointColumns(cols) && DistinctKeys(rows, ByRowId)
    requires forall r | r in rows :: OneCellPerColumn(r)
    ensures FindsRows(res.hn, res.subnodes, cols, rows)
            <==> |cols| < 0x100 && FirstCellSlot(res.subnodes != []) + |CellList(rows)| <= 0x800
  {
    hide ReadsAs, WrittenHeap, WrittenSubnodes, Laid, Ready, CellList, OneCellPerColumn, DisjointColumns, OpenTable,
         Estimate;
    var promote := res.subnodes != [];
    AcceptedIsWritten(cols, rows, nid, sortedCols, order, res);
    SortedIsUnique(rows, order, ByRowId);
    EstimatePermuted(cols, order, rows, promote);
    SameElements(order, rows);
    if |cols| >= 0x100 {
      TooManyColumns(cols, sortedCols, order, promote, nid, res.subnodes);
      ClosedTableFindsNothing(res.hn, res.subnodes, cols, rows);
    } else if FirstCellSlot(promote) + |CellList(rows)| > 0x800 {
      assert forall r | r in order :: r in rows;
      var s := UnnameableCell(cols, sortedCols, order, promote, nid);
      assert order[s] in rows;
    } else {
      NameableReadsBack(cols, rows, nid, sortedCols, order, res);
    }
  }

  lemma ClosedTableFindsNothing(hn: seq<Byte>, subnodes: seq<SubnodeOut>, cols: seq<TcColumn>, rows: seq<TcRow>)
    requires OpenTable(hn, subnodes).Failure?
    ensures !FindsRows(hn, subnodes, cols, rows)
  {
    hide OpenTable;
    if rows == [] {
      assert ReadRow(hn, subnodes, 0).Failure?;
    } else {
      assert ReadRow(hn, subnodes, rows[0].rowId).Failure?;
      assert rows[0] in rows;
    }
  }

  /** Payloads of two bytes or more keep every slot number within 11 bits. */
  lemma SlotsStayNameable(cols: seq<TcColumn>, rows: seq<TcRow>, promote: bool)
    requires Estimate(cols, rows, promote) <= MAX_BODY
    requires forall k | 0 <= k < |CellList(rows)| :: |CellList(rows)[k].cell.bytes| >= 2
    ensures FirstCellSlot(promote) + |CellList(rows)| <= 0x800
  {
    hide RowSize, CellList, PayloadBytes;
    SizeBounds(|cols|, |rows|, RowSize(cols), |CellList(rows)|, PayloadBytes(CellList(rows)), promote);
    PayloadsAtLeast(CellList(rows));
  }

  lemma {:induction false} PayloadsAtLeast(refs: seq<CellRef>)
    requires forall k | 0 <= k < |refs| :: |refs[k].cell.bytes| >= 2
    ensures PayloadBytes(refs) >= 2 * |refs|
  {
    if refs == [] {
    } else {
      PayloadsAtLeast(refs[1..]);
      assert CellPayloads(refs)[1..] == CellPayloads(refs[1..]);
    }
  }

  /** The defensive size check after building fires only for a table with no rows and at least 1015 columns. */
  lemma DriftOnlyWithoutRows(cols: seq<TcColumn>, sortedCols: seq<TcColumn>, rows: seq<TcRow>, nid: UInt32)
    requires Ready(cols, sortedCols, rows)
    ensures Laid(cols, sortedCols, rows, nid) == Failure(EstimatorDrift) <==> rows == [] && |cols| >= 1015
  {
    hide HeapImage, Matrix, Allocs, Regions;
    if rows == [] {
      assert CellList(rows) == [];
      assert CellPayloads([]) == [];
    }
  }
}
