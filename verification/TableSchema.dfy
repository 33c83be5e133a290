/**
 The column descriptors and region ends of a written table, read back from its heap (src/ltp.cpp; sections 2.3.4.1
 and 2.3.4.2 of [MS-PST]).
 */
module TableSchema {
  import opened Bytes
  import opened Heap
  import opened Sorting
  import opened TableBuilder
  import opened TableContext
  import opened TableReader
  import opened Wrappers

  // ---- The reader ----

  /** The table description: one byte 0x7C, the column count, four region ends, ids, then eight bytes a column. */
  function FindInfo(hn: seq<Byte>): (r: Option<HnSlice>)
    ensures r.Some? ==> r.value.size >= 22 && r.value.off + r.value.size <= |hn|
    ensures r.Some? ==> r.value.size == 22 + 8 * hn[r.value.off + 1] as nat
  {
    if |hn| < 12 || hn[2] != 0xEC || hn[3] != 0x7C || ReadU16(hn, 0) + 2 > |hn| then None
    else
      match ResolveHid(ReadU32(hn, 4), hn, ReadU16(hn, 0), ReadU16(hn, ReadU16(hn, 0)))
      case Failure(_) => None
      case Success(s) =>
        if s.size < 22 || hn[s.off] != 0x7C || s.size != 22 + 8 * hn[s.off + 1] as nat then None else Some(s)
  }

  /** A descriptor: property type and id, then where the cell lies, how wide it is, and its existence bit. */
  function ReadColumn(hn: seq<Byte>, off: nat): TcColumn
    requires off + 8 <= |hn|
  {
    TcColumn(ReadU16(hn, off + 2), ReadU16(hn, off), ReadU16(hn, off + 4), hn[off + 6], hn[off + 7])
  }

  function ReadColumns(hn: seq<Byte>): (cols: seq<TcColumn>) {
    match FindInfo(hn)
    case None => []
    case Some(info) =>
      seq((info.size - 22) / 8, i requires 0 <= i < (info.size - 22) / 8 => ReadColumn(hn, info.off + 22 + 8 * i))
  }

  function ReadRegions(hn: seq<Byte>): Option<Rgib> {
    match FindInfo(hn)
    case None => None
    case Some(info) =>
      Some(Rgib(ReadU16(hn, info.off + 2), ReadU16(hn, info.off + 4), ReadU16(hn, info.off + 6),
                ReadU16(hn, info.off + 8)))
  }

  // ---- What is read is what was written ----

  lemma InfoBytes(rg: Rgib, sortedCols: seq<TcColumn>, hnidRows: UInt32, hn: seq<Byte>, off: nat)
    requires |sortedCols| < 0x100
    requires off + 22 + 8 * |sortedCols| <= |hn|
    requires hn[off..off + (22 + 8 * |sortedCols|)] == TcInfo(rg, sortedCols, hnidRows)
    ensures hn[off] == 0x7C && hn[off + 1] == |sortedCols|
    ensures Rgib(ReadU16(hn, off + 2), ReadU16(hn, off + 4), ReadU16(hn, off + 6), ReadU16(hn, off + 8)) == rg
    ensures forall i | 0 <= i < |sortedCols| :: ReadColumn(hn, off + 22 + 8 * i) == sortedCols[i]
  {
    hide ReadU16, ReadU32, MakeHid, Le16, Le32, ReadColumn, Flatten;
    TcInfoSize(rg, sortedCols, hnidRows);
    var head, size := TcHead(|sortedCols|, rg, hnidRows), 22 + 8 * |sortedCols|;
    SubSlice(hn, off, off + size, 0, 22);
    assert hn[off..off + 22] == head;
    HeadRegions(|sortedCols|, rg, hnidRows);
    SubSlice(hn, off, off + 22, 2, 4);
    SubSlice(hn, off, off + 22, 4, 6);
    SubSlice(hn, off, off + 22, 6, 8);
    SubSlice(hn, off, off + 22, 8, 10);
    assert hn[off] == head[0] && hn[off + 1] == head[1];
    ReadsBack16(hn, off + 2, rg.end4b);
    ReadsBack16(hn, off + 4, rg.end2b);
    ReadsBack16(hn, off + 6, rg.end1b);
    ReadsBack16(hn, off + 8, rg.endBm);
    forall i | 0 <= i < |sortedCols| ensures ReadColumn(hn, off + 22 + 8 * i) == sortedCols[i] {
      ColumnReadsBack(rg, sortedCols, hnidRows, hn, off, i);
    }
  }

  lemma HeadRegions(colCount: nat, rg: Rgib, hnidRows: UInt32)
    ensures var head := TcHead(colCount, rg, hnidRows);
            && head[2..4] == Le16(rg.end4b) && head[4..6] == Le16(rg.end2b)
            && head[6..8] == Le16(rg.end1b) && head[8..10] == Le16(rg.endBm)
  {
    hide Le16, Le32, MakeHid;
  }

  lemma ColumnReadsBack(rg: Rgib, sortedCols: seq<TcColumn>, hnidRows: UInt32, hn: seq<Byte>, off: nat, i: nat)
    requires i < |sortedCols| && off + 22 + 8 * |sortedCols| <= |hn|
    requires hn[off..off + (22 + 8 * |sortedCols|)] == TcInfo(rg, sortedCols, hnidRows)
    ensures ReadColumn(hn, off + 22 + 8 * i) == sortedCols[i]
  {
    hide TcHead, ReadColumn, Flatten, ColumnEntry;
    TcInfoSize(rg, sortedCols, hnidRows);
    var size, at := 22 + 8 * |sortedCols|, off + 22 + 8 * i;
    FlattenUniformSlice(ColumnEntries(sortedCols), 8, i);
    SubSlice(hn, off, off + size, 22 + i * 8, 22 + i * 8 + 8);
    var info := TcInfo(rg, sortedCols, hnidRows);
    assert info[22 + i * 8..22 + i * 8 + 8] == Flatten(ColumnEntries(sortedCols))[i * 8..i * 8 + 8];
    assert hn[at..at + 8] == ColumnEntry(sortedCols[i]);
    EntryIsColumn(hn, at, sortedCols[i]);
  }

  lemma EntryIsColumn(hn: seq<Byte>, at: nat, c: TcColumn)
    requires at + 8 <= |hn| && hn[at..at + 8] == ColumnEntry(c)
    ensures ReadColumn(hn, at) == c
  {
    hide ReadU16, Le16;
    var e := ColumnEntry(c);
    TagHalves(c);
    SubSlice(hn, at, at + 8, 0, 2);
    SubSlice(hn, at, at + 8, 2, 4);
    SubSlice(hn, at, at + 8, 4, 6);
    assert e[4..6] == Le16(c.ibData);
    assert hn[at + 6] == e[6] && hn[at + 7] == e[7];
    ReadsBack16(hn, at, c.ptype);
    ReadsBack16(hn, at + 2, c.tag);
    ReadsBack16(hn, at + 4, c.ibData);
  }

  lemma TagHalves(c: TcColumn)
    ensures ColumnEntry(c)[0..2] == Le16(c.ptype) && ColumnEntry(c)[2..4] == Le16(c.tag)
  {
    hide Le16;
    assert ColumnTag(c) % 0x1_0000 == c.ptype && ColumnTag(c) / 0x1_0000 == c.tag;
  }

  lemma InfoFound(cols: seq<TcColumn>, sortedCols: seq<TcColumn>, rows: seq<TcRow>, promote: bool, nid: UInt32,
                  hn: seq<Byte>)
    requires |cols| < 0x100 && Written(cols, sortedCols, rows, promote, nid)
    requires hn == WrittenHeap(cols, sortedCols, rows, promote, nid)
    ensures ReadColumns(hn) == sortedCols && ReadRegions(hn) == Some(Regions(cols))
  {
    hide HeapImage, ResolveHid, WrittenHeap, Estimate, PageMapOffset, SlotCount, ReadU16, ReadU32, AllocStart,
         ValidRows, CellsInRow, Fits, TcInfo, Regions, ReadColumn, MakeHid;
    var allocs := Allocs(cols, sortedCols, rows, promote, nid);
    var rg, hnidRows := Regions(cols), HnidRows(rows, promote, nid);
    TableSlots(cols, sortedCols, rows, promote, nid, hn);
    HeaderFields(allocs, TC_SIGNATURE, MakeHid(2), NO_FILL, hn);
    SlotResolves(allocs, TC_SIGNATURE, MakeHid(2), NO_FILL, hn, 2);
    InfoBytes(rg, sortedCols, hnidRows, hn, AllocStart(allocs, 1));
  }

  // ---- What the stored regions and columns mean ----

  /** Where a column ends; the sum is cut to 16 bits as its field is. */
  function EndOf(c: TcColumn): nat {
    (c.ibData + c.cbData) % 0x1_0000
  }

  predicate OfWidth(c: TcColumn, widths: set<int>) {
    c.cbData as int in widths
  }

  /** `end` is where the last column of those widths ends, or `otherwise` when there is none. */
  ghost predicate LastEnd(cols: seq<TcColumn>, widths: set<int>, end: nat, otherwise: nat) {
    && (forall i | 0 <= i < |cols| && OfWidth(cols[i], widths) :: EndOf(cols[i]) <= end)
    && if forall i | 0 <= i < |cols| :: !OfWidth(cols[i], widths) then end == otherwise
       else exists i :: 0 <= i < |cols| && OfWidth(cols[i], widths) && EndOf(cols[i]) == end
  }

  /** Wide columns first, then words, then bytes, then one bit a column. */
  ghost predicate RegionsFollow(cols: seq<TcColumn>, rg: Rgib) {
    && LastEnd(cols, {4, 8}, rg.end4b, 0)
    && LastEnd(cols, {2}, rg.end2b, rg.end4b)
    && LastEnd(cols, {1}, rg.end1b, rg.end2b)
    && rg.endBm as int == (rg.end1b + (|cols| + 7) / 8) % 0x1_0000
  }

  lemma {:induction false} RegionEndIsLast(cols: seq<TcColumn>, widths: set<nat>)
    ensures match RegionEnd(cols, widths)
            case None => forall i | 0 <= i < |cols| :: !InWidths(cols[i], widths)
            case Some(end) =>
              && (forall i | 0 <= i < |cols| && InWidths(cols[i], widths) :: ColumnEnd(cols[i]) <= end)
              && exists i :: 0 <= i < |cols| && InWidths(cols[i], widths) && ColumnEnd(cols[i]) == end
  {
    hide ColumnEnd, InWidths;
    if cols == [] {
    } else {
      var n := |cols| - 1;
      RegionEndIsLast(cols[..n], widths);
      assert forall i | 0 <= i < n :: cols[..n][i] == cols[i];
    }
  }

  lemma RegionIs(cols: seq<TcColumn>, widths: set<nat>, widthsInt: set<int>, otherwise: UInt16)
    requires forall w: nat :: w in widths <==> w in widthsInt
    ensures LastEnd(cols, widthsInt, OrElse(RegionEnd(cols, widths), otherwise), otherwise)
  {
    RegionEndIsLast(cols, widths);
    forall i | 0 <= i < |cols|
      ensures OfWidth(cols[i], widthsInt) <==> InWidths(cols[i], widths)
      ensures EndOf(cols[i]) == ColumnEnd(cols[i])
    {
    }
  }

  lemma RegionsAre(cols: seq<TcColumn>)
    ensures RegionsFollow(cols, Regions(cols))
  {
    hide RegionEnd, LastEnd;
    var end4b := OrElse(RegionEnd(cols, {4, 8}), 0);
    var end2b := OrElse(RegionEnd(cols, {2}), end4b);
    RegionIs(cols, {4, 8}, {4, 8}, 0);
    RegionIs(cols, {2}, {2}, end4b);
    RegionIs(cols, {1}, {1}, end2b);
  }

  /**
   The descriptors found in an accepted table are the caller's columns in ascending order of their tags, each with
   its place, width and existence bit, and the stored regions end where the last column of their width does.
   */
  lemma ColumnsReadBack(cols: seq<TcColumn>, rows: seq<TcRow>, nid: UInt32,
                        sortedCols: seq<TcColumn>, order: seq<TcRow>, res: TcResult)
    requires Accepted(cols, rows, nid, sortedCols, order, res) && |cols| < 0x100
    requires multiset(sortedCols) == multiset(cols) && Ascending(sortedCols, ByTag)
    ensures multiset(ReadColumns(res.hn)) == multiset(cols)
    ensures forall i, j | 0 <= i < j < |ReadColumns(res.hn)| ::
              TagOf(ReadColumns(res.hn)[i]) <= TagOf(ReadColumns(res.hn)[j])
    ensures ReadRegions(res.hn) == Some(Regions(cols)) && RegionsFollow(cols, ReadRegions(res.hn).value)
  {
    hide WrittenHeap, WrittenSubnodes, Laid, Ready, Regions, RegionsFollow, ReadColumns, ReadRegions, Estimate;
    AcceptedIsWritten(cols, rows, nid, sortedCols, order, res);
    InfoFound(cols, sortedCols, order, res.subnodes != [], nid, res.hn);
    RegionsAre(cols);
    forall i, j | 0 <= i < j < |sortedCols| ensures TagOf(sortedCols[i]) <= TagOf(sortedCols[j]) {
      assert ByTag(sortedCols[i]) <= ByTag(sortedCols[j]);
    }
  }

  /** The 32-bit tag: property id in the upper half, type in the lower. */
  function TagOf(c: TcColumn): nat {
    0x1_0000 * c.tag + c.ptype
  }

  // ---- The row index ----

  /** The row ids in the leaf of the row index, in its order. */
  function IndexIds(hn: seq<Byte>, leaf: HnSlice): (ids: seq<UInt32>)
    requires leaf.off + leaf.size <= |hn|
    ensures |ids| == leaf.size / 8
  {
    seq<UInt32>(leaf.size / 8, s requires 0 <= s < leaf.size / 8 => ReadU32(hn, leaf.off + s * 8))
  }

  /** The index of an accepted table lists the ids of all rows in ascending order, numbered from zero. */
  lemma IndexReadsBack(cols: seq<TcColumn>, rows: seq<TcRow>, nid: UInt32,
                       sortedCols: seq<TcColumn>, order: seq<TcRow>, res: TcResult)
    requires Accepted(cols, rows, nid, sortedCols, order, res) && |cols| < 0x100
    ensures match OpenTable(res.hn, res.subnodes)
            case Failure(_) => false
            case Success(t) =>
              var ids := IndexIds(res.hn, t.leaf);
              && |ids| == |rows| && t.leaf.size == 8 * |rows|
              && (forall i, j | 0 <= i < j < |ids| :: ids[i] <= ids[j])
              && (forall s | 0 <= s < |ids| :: ReadU32(res.hn, t.leaf.off + s * 8 + 4) as nat == s)
              && (forall r | r in rows :: r.rowId in ids)
              && forall id | id in ids :: exists r :: r in rows && r.rowId == id
  {
    hide WrittenHeap, WrittenSubnodes, Laid, Ready, OpenTable, Estimate, IndexIds, InputError, CellsInRow, ReadU32;
    AcceptedIsWritten(cols, rows, nid, sortedCols, order, res);
    WrittenIndex(cols, sortedCols, order, res.subnodes != [], nid, res.hn);
    SameLength(order, rows);
    SameElements(order, rows);
    var ids := IndexIds(res.hn, OpenTable(res.hn, res.subnodes).value.leaf);
    IdsFollow(order, ids);
    forall r | r in rows ensures r.rowId in ids {
      var s :| 0 <= s < |order| && order[s] == r;
      assert ids[s] == r.rowId;
    }
    forall id | id in ids ensures exists r :: r in rows && r.rowId == id {
      var s :| 0 <= s < |ids| && ids[s] == id;
      assert order[s] in rows;
    }
  }

  lemma IdsFollow(order: seq<TcRow>, ids: seq<UInt32>)
    requires Ascending(order, ByRowId) && |ids| == |order|
    requires forall s | 0 <= s < |ids| :: ids[s] == order[s].rowId
    ensures forall i, j | 0 <= i < j < |ids| :: ids[i] <= ids[j]
  {
    forall i, j | 0 <= i < j < |ids| ensures ids[i] <= ids[j] {
      assert ByRowId(order[i]) <= ByRowId(order[j]);
    }
  }

  lemma WrittenIndex(cols: seq<TcColumn>, sortedCols: seq<TcColumn>, order: seq<TcRow>, promote: bool, nid: UInt32,
                     hn: seq<Byte>)
    requires |cols| < 0x100 && Written(cols, sortedCols, order, promote, nid)
    requires hn == WrittenHeap(cols, sortedCols, order, promote, nid)
    ensures match OpenTable(hn, WrittenSubnodes(cols, order, promote, nid))
            case Failure(_) => false
            case Success(t) =>
              && t.leaf.size == 8 * |order|
              && (forall s | 0 <= s < |order| :: IndexIds(hn, t.leaf)[s] == order[s].rowId)
              && forall s | 0 <= s < |order| :: ReadU32(hn, t.leaf.off + s * 8 + 4) as nat == s
  {
    hide WrittenHeap, Estimate, OpenTable, Matrix, RowSize, Flatten, ReadU32, CellsInRow, ValidRows;
    Opens(cols, sortedCols, order, promote, nid, hn);
    RowCountSmall(cols, order, promote);
    var leaf := OpenTable(hn, WrittenSubnodes(cols, order, promote, nid)).value.leaf;
    forall s | 0 <= s < |order|
      ensures ReadU32(hn, leaf.off + s * 8) == order[s].rowId && ReadU32(hn, leaf.off + s * 8 + 4) as nat == s
    {
      IndexRecord(order, hn, leaf, s);
    }
  }

  /** How every table heap begins: its signatures, its root, and the header of its row index. */
  lemma HeapStart(cols: seq<TcColumn>, rows: seq<TcRow>, nid: UInt32,
                  sortedCols: seq<TcColumn>, order: seq<TcRow>, res: TcResult)
    requires Accepted(cols, rows, nid, sortedCols, order, res)
    ensures |res.hn| >= 20 && res.hn[2] == 0xEC && res.hn[3] == 0x7C && ReadU32(res.hn, 4) == 0x40
    ensures res.hn[8..12] == Zeros(4)
    ensures res.hn[12..20] == [0xB5, 4, 4, 0, if rows == [] then 0 else 0x60, 0, 0, 0]
  {
    hide ReadU32, WrittenHeap, WrittenSubnodes, Laid, Ready, Estimate, InputError, CellsInRow;
    AcceptedIsWritten(cols, rows, nid, sortedCols, order, res);
    WrittenStart(cols, sortedCols, order, res.subnodes != [], nid, res.hn);
    SameLength(order, rows);
  }

  lemma WrittenStart(cols: seq<TcColumn>, sortedCols: seq<TcColumn>, order: seq<TcRow>, promote: bool, nid: UInt32,
                     hn: seq<Byte>)
    requires Written(cols, sortedCols, order, promote, nid)
    requires hn == WrittenHeap(cols, sortedCols, order, promote, nid)
    ensures |hn| >= 20 && hn[2] == 0xEC && hn[3] == 0x7C && ReadU32(hn, 4) == 0x40 && hn[8..12] == Zeros(4)
    ensures hn[12..20] == [0xB5, 4, 4, 0, if order == [] then 0 else 0x60, 0, 0, 0]
  {
    hide HeapImage, ReadU32, WrittenHeap, Estimate, CellsInRow, ValidRows, Matrix, TcInfo, Flatten, CellPayloads;
    TableSlots(cols, sortedCols, order, promote, nid, hn);
    HeapBegins(Allocs(cols, sortedCols, order, promote, nid), 0x7C, 0x40, hn);
  }
}
