/** Tables at the limits: the writer accepts them, or its last check refuses them, as the theorems say it must. */
module TableLimits {
  import opened Bytes
  import opened Heap
  import opened Sorting
  import opened TableBuilder
  import opened TableContext
  import opened TableReader
  import opened TableSize
  import opened Wrappers
  import Messaging

  // ---- Many one-byte columns and no rows ----

  function ByteColumns(n: nat): (cols: seq<TcColumn>)
    requires n < 0x1_0000
    ensures |cols| == n
    ensures forall i | 0 <= i < n :: cols[i].ibData as int == i && cols[i].cbData == 1
  {
    seq(n, i requires 0 <= i < n => TcColumn(i, 0x000B, i, 1, i % 0x100))
  }

  lemma EmptyTable(n: nat, sortedCols: seq<TcColumn>)
    requires 0 < n <= MAX_COLUMNS && |sortedCols| == n
    ensures InputError(ByteColumns(n), [], 0).None? && CellsInRow(ByteColumns(n))
    ensures DisjointColumns(ByteColumns(n)) && Ready(ByteColumns(n), sortedCols, [])
    ensures |CellList([])| == 0
  {
    hide ByteColumns, RowSize;
  }

  lemma EmptyTableFits()
    ensures Estimate(ByteColumns(0x100), [], false) <= MAX_BODY
  {
    hide RowSize, ByteColumns, CellList, PayloadBytes;
    CellTotals([]);
  }

  /** 1015 columns and no rows pass every check of the input and are then refused by the check of the size. */
  lemma SizeCheckFires(sortedCols: seq<TcColumn>)
    requires |sortedCols| == 1015
    ensures var cols := ByteColumns(1015);
            && InputError(cols, [], 0).None? && Ready(cols, sortedCols, [])
            && Laid(cols, sortedCols, [], 0) == Failure(EstimatorDrift)
  {
    hide ByteColumns, Laid, Ready;
    EmptyTable(1015, sortedCols);
    DriftOnlyWithoutRows(ByteColumns(1015), sortedCols, [], 0);
  }

  /** 256 columns and no rows are accepted, and the table cannot be opened again. */
  lemma ColumnCountIsLost(sortedCols: seq<TcColumn>)
    requires |sortedCols| == 0x100
    ensures var cols := ByteColumns(0x100);
            Ready(cols, sortedCols, []) &&
            match Laid(cols, sortedCols, [], 0)
            case Failure(_) => false
            case Success(res) => Accepted(cols, [], 0, sortedCols, [], res)
                                 && !FindsRows(res.hn, res.subnodes, cols, [])
  {
    hide ByteColumns, Laid, Ready, DisjointColumns, FindsRows, Estimate;
    var cols := ByteColumns(0x100);
    EmptyTable(0x100, sortedCols);
    EmptyTableFits();
    OutcomeBySize(cols, sortedCols, [], [], 0);
    var res := Laid(cols, sortedCols, [], 0).value;
    TableReadsBack(cols, [], 0, sortedCols, [], res);
  }

  // ---- Many empty cells ----

  const SIDE: nat := 46

  function WideColumns(): (cols: seq<TcColumn>)
    ensures |cols| == SIDE
    ensures forall i | 0 <= i < SIDE :: cols[i] == TcColumn(i, 0x001F, 4 * i, 4, i)
  {
    seq(SIDE, i requires 0 <= i < SIDE => TcColumn(i, 0x001F, 4 * i, 4, i))
  }

  function EmptyCells(): (cells: seq<VarlenCell>)
    ensures |cells| == SIDE
    ensures forall i | 0 <= i < SIDE :: cells[i] == VarlenCell(i, [])
  {
    seq(SIDE, i requires 0 <= i < SIDE => VarlenCell(i, []))
  }

  function WideRows(n: nat): (rows: seq<TcRow>)
    requires n < 0x1_0000
    ensures |rows| == n
    ensures forall s | 0 <= s < n :: rows[s] == TcRow(s, Zeros(190), EmptyCells())
  {
    seq(n, s requires 0 <= s < n => TcRow(s, Zeros(190), EmptyCells()))
  }

  lemma WideRowSize()
    ensures RowSize(WideColumns()) == 190
  {
    hide WideColumns, RegionEnd;
    var cols := WideColumns();
    Messaging.RegionEndsAt(cols, {4, 8}, SIDE - 1);
    Messaging.NoColumnThatWide(cols, {2});
    Messaging.NoColumnThatWide(cols, {1});
  }

  lemma {:induction false} WideCells(n: nat)
    requires n < 0x1_0000
    ensures |CellList(WideRows(n))| == SIDE * n && PayloadBytes(CellList(WideRows(n))) == 0
  {
    hide PayloadBytes, EmptyCells, BytesOf;
    NoPayloadBytes();
    if n == 0 {
    } else {
      WideCells(n - 1);
      NoBytes(n - 1);
      assert WideRows(n)[..n - 1] == WideRows(n - 1);
      CellListStep(WideRows(n), n - 1);
      assert WideRows(n)[..n] == WideRows(n);
      PayloadBytesAppend(CellList(WideRows(n - 1)), RowCells(n - 1, EmptyCells()));
    }
  }

  lemma NoBytes(row: nat)
    ensures PayloadBytes(RowCells(row, EmptyCells())) == 0
  {
    hide EmptyCells;
    FlattenUniformLength(CellPayloads(RowCells(row, EmptyCells())), 0);
  }

  lemma WideColumnsDisjoint()
    ensures DisjointColumns(WideColumns())
  {
    hide WideColumns;
  }

  lemma WideTable(sortedCols: seq<TcColumn>)
    requires |sortedCols| == SIDE
    ensures InputError(WideColumns(), WideRows(SIDE), 0x21).None? && CellsInRow(WideColumns())
    ensures Ready(WideColumns(), sortedCols, WideRows(SIDE))
    ensures forall r | r in WideRows(SIDE) :: OneCellPerColumn(r)
    ensures StrictlyAscending(WideRows(SIDE), ByRowId)
  {
    hide WideColumns, WideRows, EmptyCells, RowSize;
    WideRowSize();
    RowErrorMeans(WideColumns(), WideRows(SIDE));
  }

  /** 46 rows of 46 empty cells are accepted, but the cell that gets slot 0x800 cannot be named. */
  lemma SlotNumberIsLost(sortedCols: seq<TcColumn>)
    requires |sortedCols| == SIDE
    ensures var cols, rows := WideColumns(), WideRows(SIDE);
            Ready(cols, sortedCols, rows) &&
            match Laid(cols, sortedCols, rows, 0x21)
            case Failure(_) => false
            case Success(res) => Accepted(cols, rows, 0x21, sortedCols, rows, res)
                                 && !FindsRows(res.hn, res.subnodes, cols, rows)
  {
    hide WideColumns, WideRows, Laid, Ready, DisjointColumns, FindsRows, CellList, PayloadBytes, RowSize,
         OneCellPerColumn;
    var cols, rows := WideColumns(), WideRows(SIDE);
    WideTable(sortedCols);
    WideColumnsDisjoint();
    WideRowSize();
    WideCells(SIDE);
    OutcomeBySize(cols, sortedCols, rows, rows, 0x21);
    var res := Laid(cols, sortedCols, rows, 0x21).value;
    TableReadsBack(cols, rows, 0x21, sortedCols, rows, res);
  }
}
