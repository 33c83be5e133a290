/** How large a table gets, whatever the order of its rows (src/ltp.cpp). */
module TableSize {
  import opened Bytes
  import opened Heap
  import opened Sorting
  import opened TableBuilder
  import opened TableContext
  import opened Wrappers

  ghost const CellCount: TcRow -> nat := (r: TcRow) => |r.cells|
  ghost const CellBytes: TcRow -> nat := (r: TcRow) => BytesOf(r.cells)

  function BytesOf(cells: seq<VarlenCell>): nat {
    PayloadBytes(RowCells(0, cells))
  }

  lemma RowNumberIrrelevant(row: nat, cells: seq<VarlenCell>)
    ensures PayloadBytes(RowCells(row, cells)) == BytesOf(cells)
  {
    assert CellPayloads(RowCells(row, cells)) == CellPayloads(RowCells(0, cells));
  }

  lemma BytesOfAppend(a: seq<VarlenCell>, b: seq<VarlenCell>)
    ensures BytesOf(a + b) == BytesOf(a) + BytesOf(b)
  {
    hide PayloadBytes;
    assert RowCells(0, a + b) == RowCells(0, a) + RowCells(0, b);
    PayloadBytesAppend(RowCells(0, a), RowCells(0, b));
  }

  /** The cell list of a table in terms of its rows alone. */
  lemma {:induction false} CellTotals(rows: seq<TcRow>)
    ensures |CellList(rows)| == Total(rows, CellCount)
    ensures PayloadBytes(CellList(rows)) == Total(rows, CellBytes)
  {
    hide PayloadBytes, BytesOf;
    if rows == [] {
      NoPayloadBytes();
    } else {
      var n := |rows| - 1;
      CellTotals(rows[..n]);
      PayloadBytesAppend(CellList(rows[..n]), RowCells(n, rows[n].cells));
      RowNumberIrrelevant(n, rows[n].cells);
    }
  }

  lemma NoPayloadBytes()
    ensures PayloadBytes([]) == 0 && BytesOf([]) == 0
  {
  }

  /** The estimate does not depend on the order of the rows. */
  lemma EstimatePermuted(cols: seq<TcColumn>, a: seq<TcRow>, b: seq<TcRow>, promoted: bool)
    requires multiset(a) == multiset(b)
    ensures |CellList(a)| == |CellList(b)| && Estimate(cols, a, promoted) == Estimate(cols, b, promoted)
  {
    hide PayloadBytes, RowSize, CellList, EstimatedSize, Total, CellCount, CellBytes;
    SameLength(a, b);
    CellTotals(a);
    CellTotals(b);
    TotalPermuted(a, b, CellCount);
    TotalPermuted(a, b, CellBytes);
  }

  /** The estimate of a table whose rows come one from each source. */
  lemma EstimateBySource<S>(cols: seq<TcColumn>, rows: seq<TcRow>, srcs: seq<S>, count: S -> nat, bytes: S -> nat,
                            promoted: bool)
    requires |rows| == |srcs|
    requires forall i | 0 <= i < |rows| :: |rows[i].cells| == count(srcs[i]) && BytesOf(rows[i].cells) == bytes(srcs[i])
    ensures Estimate(cols, rows, promoted)
            == EstimatedSize(|cols|, |srcs|, RowSize(cols), Total(srcs, count), Total(srcs, bytes), promoted)
  {
    hide BytesOf, RowSize, EstimatedSize, CellList, PayloadBytes, Total;
    CellTotals(rows);
    TotalsMatch(rows, CellCount, srcs, count);
    TotalsMatch(rows, CellBytes, srcs, bytes);
  }

  /** Why a table of valid rows is refused, from the sizes of its rows; None when it is built. */
  function SizeError(cols: seq<TcColumn>, rows: seq<TcRow>, nid: UInt32): Option<TcError> {
    if Estimate(cols, rows, false) <= MAX_BODY then None
    else if rows == [] then Some(EstimatorDrift)
    else if nid == 0 then Some(BodyTooLarge)
    else if Estimate(cols, rows, true) <= MAX_BODY then None
    else Some(PromotedBodyTooLarge)
  }

  /** Sorting the rows does not decide whether the table can be built. */
  lemma OutcomeBySize(cols: seq<TcColumn>, sortedCols: seq<TcColumn>, rows: seq<TcRow>, order: seq<TcRow>, nid: UInt32)
    requires Ready(cols, sortedCols, order) && multiset(order) == multiset(rows)
    ensures var r := Laid(cols, sortedCols, order, nid);
            match SizeError(cols, rows, nid)
            case None => r.Success?
            case Some(e) => r == Failure(e)
  {
    hide Estimate, Built, Ready, Allocs;
    SameLength(order, rows);
    EstimatePermuted(cols, order, rows, false);
    EstimatePermuted(cols, order, rows, true);
  }
}
