/**
 Reading one property of one row of a table, as a client does: find the column by its tag among the stored
 descriptors, then its cell and its existence bit in the row (sections 2.3.4.2 to 2.3.4.4 of [MS-PST]).
 */
module TableFields {
  import opened Bytes
  import opened ByteBits
  import opened PresenceBits
  import opened Sorting
  import opened TableBuilder
  import opened TableContext
  import opened TableReader
  import opened TableSchema
  import opened Wrappers

  // ---- The reader ----

  /** What a row says of a property: its place, its existence bit, whether that is set, and the value. */
  datatype Field = Field(at: nat, bit: nat, present: bool, value: seq<Byte>)

  /** The first descriptor with that 32-bit tag. */
  function ColumnNamed(cols: seq<TcColumn>, tag: nat): Option<TcColumn> {
    if cols == [] then None
    else if TagOf(cols[0]) == tag then Some(cols[0])
    else ColumnNamed(cols[1..], tag)
  }

  /** A string or binary value lies in the heap under the id in the cell, if that is not zero. */
  function CellValue(hn: seq<Byte>, row: seq<Byte>, c: TcColumn): Option<seq<Byte>>
    requires c.ibData + c.cbData <= |row|
  {
    if c.ptype != 0x001F && c.ptype != 0x0102 then Some(row[c.ibData..c.ibData + c.cbData])
    else if c.cbData != 4 then None
    else if ReadU32(row, c.ibData) == 0 then Some([])
    else
      match ReadCell(hn, row, c.ibData)
      case Failure(_) => None
      case Success(v) => Some(v)
  }

  /** The existence bits follow the one-byte region, the highest bit of each byte first. */
  function FieldIn(hn: seq<Byte>, row: seq<Byte>, c: TcColumn, block: nat): Option<Field> {
    if c.ibData + c.cbData > |row| || block + c.iBit as nat / 8 >= |row| then None
    else
      match CellValue(hn, row, c)
      case None => None
      case Some(v) => Some(Field(c.ibData, c.iBit, Bit(row[block + c.iBit as nat / 8], 7 - c.iBit as nat % 8) == 1, v))
  }

  function ReadField(res: TcResult, rowId: UInt32, tag: nat): Option<Field> {
    match (ColumnNamed(ReadColumns(res.hn), tag), ReadRegions(res.hn), ReadRow(res.hn, res.subnodes, rowId))
    case (Some(c), Some(rg), Success(Some(row))) => FieldIn(res.hn, row, c, rg.end1b)
    case _ => None
  }

  // ---- A stored schema ----

  ghost predicate TagsAscend(cols: seq<TcColumn>) {
    forall i, j | 0 <= i < j < |cols| :: TagOf(cols[i]) < TagOf(cols[j])
  }

  /** It is enough to compare neighbours. */
  lemma {:induction false} NeighboursAscend(cols: seq<TcColumn>)
    requires forall i | 0 <= i < |cols| - 1 :: TagOf(cols[i]) < TagOf(cols[i + 1])
    ensures TagsAscend(cols)
  {
    if |cols| > 1 {
      var n := |cols| - 1;
      NeighboursAscend(cols[..n]);
      assert TagOf(cols[n - 1]) < TagOf(cols[n - 1 + 1]);
      forall i, j | 0 <= i < j < |cols| ensures TagOf(cols[i]) < TagOf(cols[j]) {
        assert cols[i] == cols[..n][i];
        if j < n {
          assert cols[j] == cols[..n][j];
        } else if i < n - 1 {
          assert TagOf(cols[..n][i]) < TagOf(cols[..n][n - 1]);
        }
      }
    }
  }

  /** The heap describes these columns, and their existence bits begin where it says that the cells end. */
  ghost predicate SchemaStored(hn: seq<Byte>, cols: seq<TcColumn>, cebOff: nat) {
    && multiset(ReadColumns(hn)) == multiset(cols)
    && ReadRegions(hn).Some? && ReadRegions(hn).value.end1b as nat == cebOff
  }

  lemma SchemaFound(cols: seq<TcColumn>, cebOff: nat, rows: seq<TcRow>, nid: UInt32,
                    sortedCols: seq<TcColumn>, order: seq<TcRow>, res: TcResult)
    requires Accepted(cols, rows, nid, sortedCols, order, res) && |cols| < 0x100 && SchemaOk(cols, cebOff)
    requires multiset(sortedCols) == multiset(cols) && Ascending(sortedCols, ByTag)
    ensures SchemaStored(res.hn, cols, cebOff)
  {
    hide Laid, Ready, RegionsFollow, ReadColumns, ReadRegions, DisjointColumns, CellsInRow, RegionEnd;
    ColumnsReadBack(cols, rows, nid, sortedCols, order, res);
    var rg := Regions(cols);
    assert rg.endBm as int == (rg.end1b + (|cols| + 7) / 8) % 0x1_0000;
  }

  lemma {:induction false} NamedColumn(stored: seq<TcColumn>, c: TcColumn)
    requires c in stored && forall x | x in stored && TagOf(x) == TagOf(c) :: x == c
    ensures ColumnNamed(stored, TagOf(c)) == Some(c)
  {
    hide TagOf;
    if TagOf(stored[0]) == TagOf(c) {
      assert stored[0] in stored;
    } else {
      assert forall x | x in stored[1..] :: x in stored;
      NamedColumn(stored[1..], c);
    }
  }

  lemma {:induction false} NoSuchColumn(stored: seq<TcColumn>, tag: nat)
    requires forall x | x in stored :: TagOf(x) != tag
    ensures ColumnNamed(stored, tag) == None
  {
    hide TagOf;
    if stored != [] {
      assert stored[0] in stored;
      assert forall x | x in stored[1..] :: x in stored;
      NoSuchColumn(stored[1..], tag);
    }
  }

  lemma StoredColumn(hn: seq<Byte>, cols: seq<TcColumn>, cebOff: nat, i: nat)
    requires SchemaStored(hn, cols, cebOff) && TagsAscend(cols) && i < |cols|
    ensures ColumnNamed(ReadColumns(hn), TagOf(cols[i])) == Some(cols[i])
  {
    hide TagOf, ReadColumns;
    var stored := ReadColumns(hn);
    SameElements(stored, cols);
    forall x | x in stored && TagOf(x) == TagOf(cols[i]) ensures x == cols[i] {
      var j :| 0 <= j < |cols| && cols[j] == x;
      var ti, tj := TagOf(cols[i]), TagOf(cols[j]);
    }
    assert cols[i] in stored;
    NamedColumn(stored, cols[i]);
  }

  // ---- What a property of a finished row reads as ----

  /** What column `i` was given: a payload if it is of variable size, else the bytes of the row as built. */
  function Given(cols: seq<TcColumn>, built: seq<Byte>, payloads: seq<seq<Byte>>, i: nat): seq<Byte>
    requires i < |cols| == |payloads| && cols[i].ibData + cols[i].cbData <= |built|
  {
    if IsVariable(cols[i]) then payloads[i] else built[cols[i].ibData..cols[i].ibData + cols[i].cbData]
  }

  lemma FieldReads(res: TcResult, rowId: UInt32, cols: seq<TcColumn>, cebOff: nat, built: seq<Byte>,
                   payloads: seq<seq<Byte>>, bits: set<nat>, i: nat)
    requires SchemaStored(res.hn, cols, cebOff) && TagsAscend(cols) && SchemaOk(cols, cebOff)
    requires RowFound(res, rowId, cols, cebOff, built, payloads) && cebOff <= |built| && CebShows(built[cebOff..], bits)
    requires i < |cols| && |payloads| == |cols| && cols[i].ibData + cols[i].cbData <= |built|
    ensures ReadField(res, rowId, TagOf(cols[i]))
            == Some(Field(cols[i].ibData, cols[i].iBit, cols[i].iBit as nat in bits, Given(cols, built, payloads, i)))
  {
    hide TagOf, ReadColumns, ReadRegions, ReadRow, ReadCell, ReadU32, DisjointColumns, CellsInRow, RowSize, Bit,
         CebShows, ColumnNamed;
    StoredColumn(res.hn, cols, cebOff, i);
    var row, c := ReadRow(res.hn, res.subnodes, rowId).value.value, cols[i];
    BitShown(row, cebOff, bits, c.iBit);
    assert ReadRegions(res.hn).value.end1b as nat == cebOff;
  }

  lemma BitShown(row: seq<Byte>, cebOff: nat, bits: set<nat>, iBit: nat)
    requires cebOff + iBit / 8 < |row| && CebShows(row[cebOff..], bits)
    ensures Bit(row[cebOff + iBit / 8], 7 - iBit % 8) == 1 <==> iBit in bits
  {
    hide Bit;
    assert CebBit(row[cebOff..], iBit) <==> iBit in bits;
    assert row[cebOff..][iBit / 8] == row[cebOff + iBit / 8];
  }

  /** The table answers for these tags and for no others. */
  lemma OtherTags(hn: seq<Byte>, cols: seq<TcColumn>, cebOff: nat, tag: nat)
    requires SchemaStored(hn, cols, cebOff) && forall i | 0 <= i < |cols| :: TagOf(cols[i]) != tag
    ensures ColumnNamed(ReadColumns(hn), tag) == None
  {
    hide TagOf, ReadColumns;
    SameElements(ReadColumns(hn), cols);
    NoSuchColumn(ReadColumns(hn), tag);
  }

  // ---- All that a row answers ----

  datatype Answer = Answer(tag: nat, field: Field)

  /** The row of `id` answers these tags so, and no others. */
  ghost predicate Answers(res: TcResult, id: UInt32, answers: seq<Answer>) {
    && (forall k | 0 <= k < |answers| :: ReadField(res, id, answers[k].tag) == Some(answers[k].field))
    && forall tag: nat | (forall k | 0 <= k < |answers| :: answers[k].tag != tag) :: ReadField(res, id, tag) == None
  }

  /** The schema and a built row give these answers. */
  ghost predicate AnswersOf(cols: seq<TcColumn>, row: seq<Byte>, payloads: seq<seq<Byte>>, bits: set<nat>,
                            answers: seq<Answer>)
    requires |payloads| == |cols|
  {
    && |answers| == |cols|
    && (forall i | 0 <= i < |cols| - 1 :: answers[i].tag < answers[i + 1].tag)
    && forall i | 0 <= i < |cols| ::
         && cols[i].ibData + cols[i].cbData <= |row|
         && answers[i] == Answer(TagOf(cols[i]), Field(cols[i].ibData, cols[i].iBit, cols[i].iBit as nat in bits,
                                                       Given(cols, row, payloads, i)))
  }

  lemma AnswersRead(res: TcResult, id: UInt32, cols: seq<TcColumn>, cebOff: nat, row: seq<Byte>,
                    payloads: seq<seq<Byte>>, bits: set<nat>, answers: seq<Answer>)
    requires SchemaStored(res.hn, cols, cebOff) && SchemaOk(cols, cebOff) && |payloads| == |cols|
    requires RowFound(res, id, cols, cebOff, row, payloads) && cebOff <= |row| && CebShows(row[cebOff..], bits)
    requires AnswersOf(cols, row, payloads, bits, answers)
    ensures Answers(res, id, answers)
  {
    hide SchemaStored, SchemaOk, CebShows, RowFound, TagOf, ReadField, Given;
    NeighboursAscend(cols);
    forall k | 0 <= k < |answers| ensures ReadField(res, id, answers[k].tag) == Some(answers[k].field) {
      FieldReads(res, id, cols, cebOff, row, payloads, bits, k);
    }
    forall tag: nat | forall k | 0 <= k < |answers| :: answers[k].tag != tag ensures ReadField(res, id, tag) == None {
      forall i | 0 <= i < |cols| ensures TagOf(cols[i]) != tag {
        assert answers[i].tag != tag;
      }
      OtherTags(res.hn, cols, cebOff, tag);
      NoField(res, id, tag);
    }
  }

  lemma NoField(res: TcResult, id: UInt32, tag: nat)
    requires ColumnNamed(ReadColumns(res.hn), tag) == None
    ensures ReadField(res, id, tag) == None
  {
  }
}
