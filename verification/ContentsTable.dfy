/** The Contents table of a folder, one row a message (src/messaging.cpp; section 2.4.4.5 of [MS-PST]). */
module ContentsTable {
  import opened Bytes
  import opened Messaging
  import opened PresenceBits
  import opened Sorting
  import opened TableBuilder
  import opened TableContext
  import opened TableFields
  import opened TableReader
  import opened TableSchema
  import opened TableSize
  import opened Wrappers

  const CONTENTS_CEB := 122
  const CONTENTS_ROW := 126

  function ContentsCols(): (cols: seq<TcColumn>)
    ensures |cols| == 28
  {
    [TcColumn(0x0017, PTYPE_INT32, 20, 4, 5),
     TcColumn(0x001A, PTYPE_UNICODE, 12, 4, 3),
     TcColumn(0x0036, PTYPE_INT32, 60, 4, 15),
     TcColumn(0x0037, PTYPE_UNICODE, 28, 4, 7),
     TcColumn(0x0039, PTYPE_SYSTIME, 40, 8, 9),
     TcColumn(0x0042, PTYPE_UNICODE, 24, 4, 6),
     TcColumn(0x0057, PTYPE_BOOLEAN, 120, 1, 13),
     TcColumn(0x0058, PTYPE_BOOLEAN, 121, 1, 14),
     TcColumn(0x0070, PTYPE_UNICODE, 68, 4, 17),
     TcColumn(0x0071, PTYPE_BINARY, 72, 4, 18),
     TcColumn(0x0E03, PTYPE_UNICODE, 56, 4, 12),
     TcColumn(0x0E04, PTYPE_UNICODE, 52, 4, 11),
     TcColumn(0x0E06, PTYPE_SYSTIME, 32, 8, 8),
     TcColumn(0x0E07, PTYPE_INT32, 16, 4, 4),
     TcColumn(0x0E08, PTYPE_INT32, 48, 4, 10),
     TcColumn(0x0E17, PTYPE_INT32, 8, 4, 2),
     TcColumn(0x0E30, PTYPE_BINARY, 88, 4, 21),
     TcColumn(0x0E33, PTYPE_INT64, 92, 8, 22),
     TcColumn(0x0E34, PTYPE_BINARY, 100, 4, 23),
     TcColumn(0x0E38, PTYPE_INT32, 112, 4, 26),
     TcColumn(0x0E3C, PTYPE_BINARY, 108, 4, 25),
     TcColumn(0x0E3D, PTYPE_BINARY, 104, 4, 24),
     TcColumn(0x1097, PTYPE_INT32, 64, 4, 16),
     TcColumn(0x3008, PTYPE_SYSTIME, 80, 8, 20),
     TcColumn(0x3013, PTYPE_BINARY, 116, 4, 27),
     TcColumn(0x65C6, PTYPE_INT32, 76, 4, 19),
     TcColumn(0x67F2, PTYPE_INT32, 0, 4, 0),
     TcColumn(0x67F3, PTYPE_INT32, 4, 4, 1)]
  }

  function ContentsOwner(p: nat): nat {
    if p < 4 then 26 else if p < 8 then 27 else if p < 12 then 15 else if p < 16 then 1 else if p < 20 then 13
    else if p < 24 then 0 else if p < 28 then 5 else if p < 32 then 3 else if p < 40 then 12 else if p < 48 then 4
    else if p < 52 then 14 else if p < 56 then 11 else if p < 60 then 10 else if p < 64 then 2 else if p < 68 then 22
    else if p < 72 then 8 else if p < 76 then 9 else if p < 80 then 25 else if p < 88 then 23 else if p < 92 then 16
    else if p < 100 then 17 else if p < 104 then 18 else if p < 108 then 21 else if p < 112 then 20
    else if p < 116 then 19 else if p < 120 then 24 else if p < 121 then 6 else 7
  }

  lemma WideRegion()
    ensures RegionEnd(ContentsCols(), {4, 8}) == Some(120)
  {
    hide RegionEnd;
    RegionEndsAt(ContentsCols(), {4, 8}, 24);
  }

  lemma ByteRegion()
    ensures RegionEnd(ContentsCols(), {2}) == None && RegionEnd(ContentsCols(), {1}) == Some(122)
  {
    hide RegionEnd;
    NoColumnThatWide(ContentsCols(), {2});
    RegionEndsAt(ContentsCols(), {1}, 7);
  }

  lemma ContentsRowSize()
    ensures RowSize(ContentsCols()) == CONTENTS_ROW
  {
    hide RegionEnd, ContentsCols;
    WideRegion();
    ByteRegion();
  }

  lemma ContentsOwned()
    ensures Owns(ContentsCols(), ContentsOwner)
  {
  }

  lemma ContentsColumnOk(i: nat)
    requires i < 28
    ensures var c := ContentsCols()[i];
            && c.ibData + c.cbData <= CONTENTS_CEB && c.iBit < 28 && c.cbData in {1, 2, 4, 8}
            && (IsVariable(c) ==> c.cbData == 4)
  {
  }

  lemma ContentsSchemaOk()
    ensures SchemaOk(ContentsCols(), CONTENTS_CEB)
    ensures forall i | 0 <= i < |ContentsCols()| :: ContentsCols()[i].cbData in {1, 2, 4, 8}
  {
    hide RowSize, DisjointColumns, Owns, ContentsOwner, ContentsCols, IsVariable;
    ContentsRowSize();
    ContentsOwned();
    forall i: nat | i < 28
      ensures var c := ContentsCols()[i];
              && c.ibData + c.cbData <= CONTENTS_CEB && c.iBit < 28 && c.cbData in {1, 2, 4, 8}
              && (IsVariable(c) ==> c.cbData == 4)
    {
      ContentsColumnOk(i);
    }
    OwnedIsDisjoint(ContentsCols(), ContentsOwner);
  }

  /** The signed fields are modelled by the 32 bits they are stored as. */
  datatype ContentsRow = ContentsRow(
    rowId: UInt32,
    rowVer: UInt32,
    importance: UInt32,
    sensitivity: UInt32,
    messageStatus: UInt32,
    messageFlags: UInt32,
    messageSize: UInt32,
    messageToMe: bool,
    messageCcMe: bool,
    clientSubmitTime: UInt64,
    messageDeliveryTime: UInt64,
    lastModificationTime: UInt64,
    messageClass: seq<Byte>,
    subject: seq<Byte>,
    sentRepresentingName: seq<Byte>,
    conversationTopic: seq<Byte>,
    displayCc: seq<Byte>,
    displayTo: seq<Byte>,
    conversationIndex: seq<Byte>,
    changeKey: seq<Byte>)

  function Flag(b: bool): Byte {
    if b then 1 else 0
  }

  /** The cells up to the message size. */
  function FrontStart(src: ContentsRow): (s: seq<Byte>)
    ensures |s| == 48
  {
    Le32(src.rowId) + Le32(src.rowVer) + Le32(src.messageStatus) + Zeros(4) + Le32(src.messageFlags)
    + Le32(src.importance) + Zeros(8) + Le64(src.messageDeliveryTime) + Le64(src.clientSubmitTime)
  }

  function ContentsFront(src: ContentsRow): (s: seq<Byte>)
    ensures |s| == CONTENTS_CEB
  {
    FrontStart(src) + Le32(src.messageSize) + Zeros(8) + Le32(src.sensitivity) + Zeros(16)
    + Le64(src.lastModificationTime) + Zeros(32) + [Flag(src.messageToMe)] + [Flag(src.messageCcMe)]
  }

  function StartBits(src: ContentsRow): set<nat> {
    {} + {0} + {1} + When(src.messageStatus != 0, 2) + {4} + {5} + When(src.messageDeliveryTime != 0, 8)
    + When(src.clientSubmitTime != 0, 9)
  }

  /** The bits of the fixed cells: five always, the others when the value is not the default. */
  function FixedBits(src: ContentsRow): set<nat> {
    StartBits(src) + {10} + When(src.sensitivity != 0, 15) + When(src.lastModificationTime != 0, 20)
    + When(src.messageToMe, 13) + When(src.messageCcMe, 14)
  }

  /** With the bits of the first four variable cells pushed. */
  function FirstCellBits(src: ContentsRow): set<nat> {
    FixedBits(src) + When(src.messageClass != [], 3) + When(src.sentRepresentingName != [], 6)
    + When(src.subject != [], 7) + When(src.displayTo != [], 11)
  }

  function ContentsBits(src: ContentsRow): set<nat> {
    FirstCellBits(src) + When(src.displayCc != [], 12) + When(src.conversationTopic != [], 17)
    + When(src.conversationIndex != [], 18) + When(src.changeKey != [], 27)
  }

  function ContentsPayloads(src: ContentsRow): (p: seq<seq<Byte>>)
    ensures |p| == 28
  {
    [[], src.messageClass, [], src.subject, [], src.sentRepresentingName, [], [], src.conversationTopic,
     src.conversationIndex, src.displayCc, src.displayTo, [], [], [], [], [], [], [], [], [], [], [], [],
     src.changeKey, [], [], []]
  }

  /** The order in which the row builder pushes its cells. */
  const CONTENTS_ORDER: seq<nat> := [1, 5, 3, 11, 10, 8, 9, 24]

  method WriteFirstCells(dst: array<Byte>, src: ContentsRow)
    requires dst.Length == CONTENTS_ROW && forall i | 0 <= i < dst.Length :: dst[i] == 0
    modifies dst
    ensures RowState(dst[..], CONTENTS_CEB, FrontStart(src), StartBits(src))
  {
    hide RowState, Le32, Le64, When, Flag;
    var ceb := CONTENTS_CEB;
    EmptyRow(dst[..], ceb);
    ghost var done: seq<Byte>, bits: set<nat> := [], {};
    Put32(dst, 0, src.rowId, ceb, done, bits);
    assert [] + Le32(src.rowId) == Le32(src.rowId);
    done := Le32(src.rowId);
    SetCebBit(dst, ceb, 0, done, bits);
    bits := bits + {0};
    Put32(dst, 4, src.rowVer, ceb, done, bits);
    done := done + Le32(src.rowVer);
    SetCebBit(dst, ceb, 1, done, bits);
    bits := bits + {1};
    Put32(dst, 8, src.messageStatus, ceb, done, bits);
    done := done + Le32(src.messageStatus);
    SetCebBitWhen(src.messageStatus != 0, dst, ceb, 2, done, bits);
    bits := bits + When(src.messageStatus != 0, 2);
    FieldSkipped(dst[..], ceb, done, bits, 4);
    done := done + Zeros(4);
    Put32(dst, 16, src.messageFlags, ceb, done, bits);
    done := done + Le32(src.messageFlags);
    SetCebBit(dst, ceb, 4, done, bits);
    bits := bits + {4};
    Put32(dst, 20, src.importance, ceb, done, bits);
    done := done + Le32(src.importance);
    SetCebBit(dst, ceb, 5, done, bits);
    bits := bits + {5};
    FieldSkipped(dst[..], ceb, done, bits, 8);
    done := done + Zeros(8);
    Put64(dst, 32, src.messageDeliveryTime, ceb, done, bits);
    done := done + Le64(src.messageDeliveryTime);
    SetCebBitWhen(src.messageDeliveryTime != 0, dst, ceb, 8, done, bits);
    bits := bits + When(src.messageDeliveryTime != 0, 8);
    Put64(dst, 40, src.clientSubmitTime, ceb, done, bits);
    done := done + Le64(src.clientSubmitTime);
    SetCebBitWhen(src.clientSubmitTime != 0, dst, ceb, 9, done, bits);
  }

  /** The fixed cells of a row and their bits. */
  method WriteFixedCells(dst: array<Byte>, src: ContentsRow)
    requires dst.Length == CONTENTS_ROW && forall i | 0 <= i < dst.Length :: dst[i] == 0
    modifies dst
    ensures RowState(dst[..], CONTENTS_CEB, ContentsFront(src), FixedBits(src))
  {
    hide RowState, Le32, Le64, When, Flag, FrontStart, StartBits;
    var ceb := CONTENTS_CEB;
    WriteFirstCells(dst, src);
    ghost var done, bits := FrontStart(src), StartBits(src);
    Put32(dst, 48, src.messageSize, ceb, done, bits);
    done := done + Le32(src.messageSize);
    SetCebBit(dst, ceb, 10, done, bits);
    bits := bits + {10};
    FieldSkipped(dst[..], ceb, done, bits, 8);
    done := done + Zeros(8);
    Put32(dst, 60, src.sensitivity, ceb, done, bits);
    done := done + Le32(src.sensitivity);
    SetCebBitWhen(src.sensitivity != 0, dst, ceb, 15, done, bits);
    bits := bits + When(src.sensitivity != 0, 15);
    FieldSkipped(dst[..], ceb, done, bits, 16);
    done := done + Zeros(16);
    Put64(dst, 80, src.lastModificationTime, ceb, done, bits);
    done := done + Le64(src.lastModificationTime);
    SetCebBitWhen(src.lastModificationTime != 0, dst, ceb, 20, done, bits);
    bits := bits + When(src.lastModificationTime != 0, 20);
    FieldSkipped(dst[..], ceb, done, bits, 32);
    done := done + Zeros(32);
    Put8(dst, 120, Flag(src.messageToMe), ceb, done, bits);
    done := done + [Flag(src.messageToMe)];
    SetCebBitWhen(src.messageToMe, dst, ceb, 13, done, bits);
    bits := bits + When(src.messageToMe, 13);
    Put8(dst, 121, Flag(src.messageCcMe), ceb, done, bits);
    done := done + [Flag(src.messageCcMe)];
    SetCebBitWhen(src.messageCcMe, dst, ceb, 14, done, bits);
  }

  method PushFirstCells(dst: array<Byte>, src: ContentsRow) returns (cells: seq<VarlenCell>)
    requires dst.Length == CONTENTS_ROW && RowState(dst[..], CONTENTS_CEB, ContentsFront(src), FixedBits(src))
    modifies dst
    ensures RowState(dst[..], CONTENTS_CEB, ContentsFront(src), FirstCellBits(src))
    ensures cells == [] + Cell(1, src.messageClass) + Cell(5, src.sentRepresentingName) + Cell(3, src.subject)
                     + Cell(11, src.displayTo)
  {
    hide RowState, When, Cell, ContentsFront, FixedBits;
    ghost var done, bits := ContentsFront(src), FixedBits(src);
    var ceb := CONTENTS_CEB;
    cells := PushVarlen([], 1, 3, src.messageClass, dst, ceb, done, bits);
    bits := bits + When(src.messageClass != [], 3);
    cells := PushVarlen(cells, 5, 6, src.sentRepresentingName, dst, ceb, done, bits);
    bits := bits + When(src.sentRepresentingName != [], 6);
    cells := PushVarlen(cells, 3, 7, src.subject, dst, ceb, done, bits);
    bits := bits + When(src.subject != [], 7);
    cells := PushVarlen(cells, 11, 11, src.displayTo, dst, ceb, done, bits);
  }

  method PushLastCells(before: seq<VarlenCell>, dst: array<Byte>, src: ContentsRow) returns (cells: seq<VarlenCell>)
    requires dst.Length == CONTENTS_ROW && RowState(dst[..], CONTENTS_CEB, ContentsFront(src), FirstCellBits(src))
    modifies dst
    ensures RowState(dst[..], CONTENTS_CEB, ContentsFront(src), ContentsBits(src))
    ensures cells == before + Cell(10, src.displayCc) + Cell(8, src.conversationTopic)
                     + Cell(9, src.conversationIndex) + Cell(24, src.changeKey)
  {
    hide RowState, When, Cell, ContentsFront, FirstCellBits;
    ghost var done, bits := ContentsFront(src), FirstCellBits(src);
    var ceb := CONTENTS_CEB;
    cells := PushVarlen(before, 10, 12, src.displayCc, dst, ceb, done, bits);
    bits := bits + When(src.displayCc != [], 12);
    cells := PushVarlen(cells, 8, 17, src.conversationTopic, dst, ceb, done, bits);
    bits := bits + When(src.conversationTopic != [], 17);
    cells := PushVarlen(cells, 9, 18, src.conversationIndex, dst, ceb, done, bits);
    bits := bits + When(src.conversationIndex != [], 18);
    cells := PushVarlen(cells, 24, 27, src.changeKey, dst, ceb, done, bits);
  }

  method BuildContentsRow(src: ContentsRow) returns (row: TcRow)
    ensures row.rowId == src.rowId && |row.bytes| == CONTENTS_ROW
    ensures row.bytes[..CONTENTS_CEB] == ContentsFront(src)
    ensures CebShows(row.bytes[CONTENTS_CEB..], ContentsBits(src))
    ensures row.cells == CellsOf(CONTENTS_ORDER, ContentsPayloads(src))
  {
    hide RowState, CebShows, CellsOf, Cell, ContentsFront, FixedBits, ContentsBits, FirstCellBits;
    var dst := new Byte[CONTENTS_ROW](_ => 0);
    var ceb := CONTENTS_CEB;
    WriteFixedCells(dst, src);
    var cells := PushFirstCells(dst, src);
    cells := PushLastCells(cells, dst, src);
    RowFinished(dst[..], ceb, ContentsFront(src), ContentsBits(src));
    ContentsCells(src);
    row := TcRow(src.rowId, dst[..], cells);
  }

  lemma ContentsCells(src: ContentsRow)
    ensures CellsOf(CONTENTS_ORDER, ContentsPayloads(src))
            == [] + Cell(1, src.messageClass) + Cell(5, src.sentRepresentingName) + Cell(3, src.subject)
               + Cell(11, src.displayTo) + Cell(10, src.displayCc) + Cell(8, src.conversationTopic)
               + Cell(9, src.conversationIndex) + Cell(24, src.changeKey)
  {
    hide CellsOf, Cell;
    var order, payloads := CONTENTS_ORDER, ContentsPayloads(src);
    NoCells(order, payloads);
    CellsStep(order, 0, payloads);
    CellsStep(order, 1, payloads);
    CellsStep(order, 2, payloads);
    CellsStep(order, 3, payloads);
    CellsStep(order, 4, payloads);
    CellsStep(order, 5, payloads);
    CellsStep(order, 6, payloads);
    CellsStep(order, 7, payloads);
    assert order[..8] == order;
  }

  lemma NoCells(order: seq<nat>, payloads: seq<seq<Byte>>)
    ensures CellsOf(order[..0], payloads) == []
  {
  }

  ghost const ContentsCellCount: ContentsRow -> nat := (src: ContentsRow) =>
    One(src.messageClass) + One(src.sentRepresentingName) + One(src.subject) + One(src.displayTo) + One(src.displayCc)
    + One(src.conversationTopic) + One(src.conversationIndex) + One(src.changeKey)
  ghost const ContentsCellBytes: ContentsRow -> nat := (src: ContentsRow) =>
    |src.messageClass| + |src.sentRepresentingName| + |src.subject| + |src.displayTo| + |src.displayCc|
    + |src.conversationTopic| + |src.conversationIndex| + |src.changeKey|

  lemma ContentsRowCells(src: ContentsRow)
    ensures var cells := CellsOf(CONTENTS_ORDER, ContentsPayloads(src));
            |cells| == ContentsCellCount(src) && BytesOf(cells) == ContentsCellBytes(src)
  {
    hide CellsOf, Cell, BytesOf, One, ContentsPayloads;
    ContentsCells(src);
    NoPayloadBytes();
    var cells: seq<VarlenCell> := [];
    NextCellSize(cells, 1, src.messageClass);
    cells := cells + Cell(1, src.messageClass);
    NextCellSize(cells, 5, src.sentRepresentingName);
    cells := cells + Cell(5, src.sentRepresentingName);
    NextCellSize(cells, 3, src.subject);
    cells := cells + Cell(3, src.subject);
    NextCellSize(cells, 11, src.displayTo);
    cells := cells + Cell(11, src.displayTo);
    NextCellSize(cells, 10, src.displayCc);
    cells := cells + Cell(10, src.displayCc);
    NextCellSize(cells, 8, src.conversationTopic);
    cells := cells + Cell(8, src.conversationTopic);
    NextCellSize(cells, 9, src.conversationIndex);
    cells := cells + Cell(9, src.conversationIndex);
    NextCellSize(cells, 24, src.changeKey);
  }

  /** The size of the heap that holds the Contents table of these messages, with its row matrix or without. */
  ghost function ContentsSize(srcs: seq<ContentsRow>, promoted: bool): nat {
    EstimatedSize(28, |srcs|, CONTENTS_ROW, Total(srcs, ContentsCellCount), Total(srcs, ContentsCellBytes), promoted)
  }

  /** What buildFolderContentsTc refuses, and why. */
  ghost function ContentsError(srcs: seq<ContentsRow>, nid: UInt32): Option<TcError> {
    if srcs == [] then None
    else if nid != 0 && nid % 0x20 == 0 then Some(SubnodeNidIsHid)
    else if ContentsSize(srcs, false) <= 8176 then None
    else if nid == 0 then Some(BodyTooLarge)
    else if ContentsSize(srcs, true) <= 8176 then None
    else Some(PromotedBodyTooLarge)
  }

  /** The columns that hold heap ids, and that their slots are zero before the table writer runs. */
  lemma ContentsSlotsZero(src: ContentsRow, i: nat)
    requires i < 28 && IsVariable(ContentsCols()[i])
    ensures var ib := ContentsCols()[i].ibData;
            ib + 4 <= CONTENTS_CEB && ContentsFront(src)[ib..ib + 4] == Zeros(4)
  {
    hide Le32, Le64, ContentsFront;
    var ib: nat := ContentsCols()[i].ibData;
    assert ib in {12, 24, 28, 52, 56, 68, 72, 88, 100, 104, 108, 116};
    ZeroRuns(src);
    var f := ContentsFront(src);
    assert forall p | ib <= p < ib + 4 :: f[p] == 0;
  }

  lemma ZeroRuns(src: ContentsRow)
    ensures forall p | 0 <= p < CONTENTS_CEB
            && (12 <= p < 16 || 24 <= p < 32 || 52 <= p < 60 || 64 <= p < 80 || 88 <= p < 120) ::
              ContentsFront(src)[p] == 0
  {
    hide Le32, Le64;
  }

  /** The columns that hold heap ids. */
  const VARIABLE_COLUMNS: set<nat> := {1, 3, 5, 8, 9, 10, 11, 16, 18, 20, 21, 24}

  function VariableBit(i: nat): nat {
    if i == 1 then 3 else if i == 3 then 7 else if i == 5 then 6 else if i == 8 then 17 else if i == 9 then 18
    else if i == 10 then 12 else if i == 11 then 11 else if i == 16 then 21 else if i == 18 then 23
    else if i == 20 then 25 else if i == 21 then 24 else 27
  }

  lemma VariableColumns(i: nat)
    requires i < 28
    ensures IsVariable(ContentsCols()[i]) <==> i in VARIABLE_COLUMNS
    ensures i in VARIABLE_COLUMNS ==> ContentsCols()[i].iBit as nat == VariableBit(i)
  {
  }

  lemma FixedBitsAre(src: ContentsRow, b: nat)
    requires b in FixedBits(src)
    ensures b in {0, 1, 2, 4, 5, 8, 9, 10, 13, 14, 15, 20}
  {
    hide FixedBits;
    FixedBit(src, b);
  }

  lemma InWhen(b: nat, c: bool, iBit: nat)
    ensures b in When(c, iBit) <==> c && b == iBit
  {
  }

  /** Which bits stand for payloads. */
  lemma PayloadBit(src: ContentsRow, b: nat)
    requires b !in FixedBits(src)
    ensures b in ContentsBits(src) <==>
              || (b == 3 && src.messageClass != []) || (b == 6 && src.sentRepresentingName != [])
              || (b == 7 && src.subject != []) || (b == 11 && src.displayTo != [])
              || (b == 12 && src.displayCc != []) || (b == 17 && src.conversationTopic != [])
              || (b == 18 && src.conversationIndex != []) || (b == 27 && src.changeKey != [])
  {
    hide FixedBits, When;
    InWhen(b, src.messageClass != [], 3);
    InWhen(b, src.sentRepresentingName != [], 6);
    InWhen(b, src.subject != [], 7);
    InWhen(b, src.displayTo != [], 11);
    InWhen(b, src.displayCc != [], 12);
    InWhen(b, src.conversationTopic != [], 17);
    InWhen(b, src.conversationIndex != [], 18);
    InWhen(b, src.changeKey != [], 27);
  }

  lemma VariableBitSet(src: ContentsRow, i: nat)
    requires i in VARIABLE_COLUMNS
    ensures VariableBit(i) in ContentsBits(src) <==> ContentsPayloads(src)[i] != []
  {
    hide FixedBits, ContentsBits;
    if VariableBit(i) in FixedBits(src) {
      FixedBitsAre(src, VariableBit(i));
    }
    PayloadBit(src, VariableBit(i));
  }

  lemma ContentsBitsMatch(src: ContentsRow, i: nat)
    requires i < 28 && IsVariable(ContentsCols()[i])
    ensures ContentsCols()[i].iBit as nat in ContentsBits(src) <==> ContentsPayloads(src)[i] != []
  {
    hide ContentsBits, ContentsPayloads, ContentsCols, IsVariable, VariableBit;
    VariableColumns(i);
    VariableBitSet(src, i);
  }

  lemma OrderEntry(k: nat)
    requires k < 8
    ensures CONTENTS_ORDER[k] in VARIABLE_COLUMNS
    ensures forall l | k < l < 8 :: CONTENTS_ORDER[k] != CONTENTS_ORDER[l]
  {
  }

  lemma PayloadColumn(src: ContentsRow, i: nat)
    requires i < 28 && ContentsPayloads(src)[i] != []
    ensures i in CONTENTS_ORDER
  {
    var o := CONTENTS_ORDER;
    assert o[0] == 1 && o[1] == 5 && o[2] == 3 && o[3] == 11 && o[4] == 10 && o[5] == 8 && o[6] == 9 && o[7] == 24;
  }

  lemma ContentsInOrder(src: ContentsRow)
    ensures InSomeOrder(CONTENTS_ORDER, ContentsCols(), ContentsPayloads(src))
  {
    hide ContentsCols, ContentsPayloads, IsVariable;
    var o := CONTENTS_ORDER;
    forall k: nat | k < |o|
      ensures o[k] < 28 && IsVariable(ContentsCols()[o[k]])
      ensures forall l | k < l < |o| :: o[k] != o[l]
    {
      OrderEntry(k);
      VariableColumns(o[k]);
    }
    forall i: nat | i < 28 && ContentsPayloads(src)[i] != []
      ensures i in o
    {
      PayloadColumn(src, i);
    }
  }

  lemma ContentsRowIsMarked(src: ContentsRow, r: TcRow)
    requires |r.bytes| == CONTENTS_ROW && r.bytes[..CONTENTS_CEB] == ContentsFront(src)
    requires CebShows(r.bytes[CONTENTS_CEB..], ContentsBits(src))
    requires r.cells == CellsOf(CONTENTS_ORDER, ContentsPayloads(src))
    ensures Marked(ContentsCols(), CONTENTS_CEB, r, ContentsPayloads(src), ContentsBits(src)) && |r.cells| <= 8
  {
    hide RowSize, CebShows, CellsOf, ContentsFront, ContentsCols, ContentsBits, ContentsPayloads, Marked, InSomeOrder;
    ContentsRowSize();
    ContentsInOrder(src);
    forall i: nat | i < 28 && IsVariable(ContentsCols()[i])
      ensures ContentsCols()[i].iBit as nat in ContentsBits(src) <==> ContentsPayloads(src)[i] != []
      ensures ContentsCols()[i].ibData + 4 <= CONTENTS_CEB
      ensures ContentsFront(src)[ContentsCols()[i].ibData..ContentsCols()[i].ibData + 4] == Zeros(4)
    {
      ContentsBitsMatch(src, i);
      ContentsSlotsZero(src, i);
    }
    BuiltRowIsMarked(ContentsCols(), CONTENTS_CEB, r, CONTENTS_ORDER, ContentsPayloads(src), ContentsBits(src));
  }

  /** The row of `src` in a finished table: its fixed cells, its existence bits, and slots that agree with them. */
  ghost predicate ContentsRowReads(res: TcResult, src: ContentsRow) {
    var got := ReadRow(res.hn, res.subnodes, src.rowId);
    && got.Success? && got.value.Some? && |got.value.value| == CONTENTS_ROW
    && CebShows(got.value.value[CONTENTS_CEB..], ContentsBits(src))
    && Agrees(res.hn, got.value.value, ContentsCols(), CONTENTS_CEB,
              ContentsFront(src) + got.value.value[CONTENTS_CEB..], ContentsPayloads(src))
  }

  lemma ContentsRowFound(res: TcResult, src: ContentsRow, r: TcRow)
    requires |r.bytes| == CONTENTS_ROW && r.bytes[..CONTENTS_CEB] == ContentsFront(src)
    requires CebShows(r.bytes[CONTENTS_CEB..], ContentsBits(src))
    requires RowFound(res, src.rowId, ContentsCols(), CONTENTS_CEB, r.bytes, ContentsPayloads(src))
    ensures ContentsRowReads(res, src)
  {
    hide ReadRow, CebShows, ContentsFront, ContentsBits, ContentsPayloads, ContentsCols, ReadCell, ReadU32, IsVariable,
         ShowsColumn;
    var row := ReadRow(res.hn, res.subnodes, src.rowId).value.value;
    assert r.bytes == ContentsFront(src) + row[CONTENTS_CEB..];
  }

  lemma EmptyContentsFits()
    ensures SizeError(ContentsCols(), [], 0).None?
  {
    hide ContentsCols;
    ContentsRowSize();
    NoPayloadBytes();
    assert CellList([]) == [];
  }

  lemma ContentsSizeError(rows: seq<TcRow>, srcs: seq<ContentsRow>, nid: UInt32)
    requires |rows| == |srcs| > 0
    requires forall i | 0 <= i < |rows| ::
               |rows[i].cells| == ContentsCellCount(srcs[i]) && BytesOf(rows[i].cells) == ContentsCellBytes(srcs[i])
    ensures nid == 0 || nid % 0x20 != 0 ==> SizeError(ContentsCols(), rows, nid) == ContentsError(srcs, nid)
  {
    hide BytesOf, EstimatedSize, ContentsCols, CellList, PayloadBytes, RowSize, ContentsCellCount, ContentsCellBytes,
         Estimate;
    ContentsRowSize();
    EstimateBySource(ContentsCols(), rows, srcs, ContentsCellCount, ContentsCellBytes, false);
    EstimateBySource(ContentsCols(), rows, srcs, ContentsCellCount, ContentsCellBytes, true);
  }

  // ---- What a client reads of a message ----

  /** What the Contents table of a folder says of a message in column `i`: tag, place, existence bit and value. */
  function ContentsAnswer(src: ContentsRow, i: nat): Answer {
    match i
    case 0 => Answer(0x0017_0003, Field(20, 5, true, Le32(src.importance)))
    case 1 => Answer(0x001A_001F, Field(12, 3, src.messageClass != [], src.messageClass))
    case 2 => Answer(0x0036_0003, Field(60, 15, src.sensitivity != 0, Le32(src.sensitivity)))
    case 3 => Answer(0x0037_001F, Field(28, 7, src.subject != [], src.subject))
    case 4 => Answer(0x0039_0040, Field(40, 9, src.clientSubmitTime != 0, Le64(src.clientSubmitTime)))
    case 5 => Answer(0x0042_001F, Field(24, 6, src.sentRepresentingName != [], src.sentRepresentingName))
    case 6 => Answer(0x0057_000B, Field(120, 13, src.messageToMe, [if src.messageToMe then 1 else 0]))
    case 7 => Answer(0x0058_000B, Field(121, 14, src.messageCcMe, [if src.messageCcMe then 1 else 0]))
    case 8 => Answer(0x0070_001F, Field(68, 17, src.conversationTopic != [], src.conversationTopic))
    case 9 => Answer(0x0071_0102, Field(72, 18, src.conversationIndex != [], src.conversationIndex))
    case 10 => Answer(0x0E03_001F, Field(56, 12, src.displayCc != [], src.displayCc))
    case 11 => Answer(0x0E04_001F, Field(52, 11, src.displayTo != [], src.displayTo))
    case 12 => Answer(0x0E06_0040, Field(32, 8, src.messageDeliveryTime != 0, Le64(src.messageDeliveryTime)))
    case 13 => Answer(0x0E07_0003, Field(16, 4, true, Le32(src.messageFlags)))
    case 14 => Answer(0x0E08_0003, Field(48, 10, true, Le32(src.messageSize)))
    case 15 => Answer(0x0E17_0003, Field(8, 2, src.messageStatus != 0, Le32(src.messageStatus)))
    case 16 => Answer(0x0E30_0102, Field(88, 21, false, []))
    case 17 => Answer(0x0E33_0014, Field(92, 22, false, Zeros(8)))
    case 18 => Answer(0x0E34_0102, Field(100, 23, false, []))
    case 19 => Answer(0x0E38_0003, Field(112, 26, false, Zeros(4)))
    case 20 => Answer(0x0E3C_0102, Field(108, 25, false, []))
    case 21 => Answer(0x0E3D_0102, Field(104, 24, false, []))
    case 22 => Answer(0x1097_0003, Field(64, 16, false, Zeros(4)))
    case 23 => Answer(0x3008_0040, Field(80, 20, src.lastModificationTime != 0, Le64(src.lastModificationTime)))
    case 24 => Answer(0x3013_0102, Field(116, 27, src.changeKey != [], src.changeKey))
    case 25 => Answer(0x65C6_0003, Field(76, 19, false, Zeros(4)))
    case 26 => Answer(0x67F2_0003, Field(0, 0, true, Le32(src.rowId)))
    case _ => Answer(0x67F3_0003, Field(4, 1, true, Le32(src.rowVer)))
  }

  function ContentsAnswers(src: ContentsRow): (answers: seq<Answer>)
    ensures |answers| == 28 && forall i | 0 <= i < 28 :: answers[i] == ContentsAnswer(src, i)
  {
    seq(28, i requires 0 <= i => ContentsAnswer(src, i))
  }

  lemma CellOf(row: seq<Byte>, front: seq<Byte>, a: nat, b: nat)
    requires a <= b <= |front| <= |row| && row[..|front|] == front
    ensures row[a..b] == front[a..b]
  {
    assert row[0..|front|] == front;
    SubSlice(row, 0, |front|, a, b);
  }

  /** The fixed cells of a row by their places. */
  lemma ContentsFixedCells(src: ContentsRow, row: seq<Byte>)
    requires |row| == CONTENTS_ROW && row[..CONTENTS_CEB] == ContentsFront(src)
    ensures row[0..4] == Le32(src.rowId) && row[4..8] == Le32(src.rowVer) && row[8..12] == Le32(src.messageStatus)
    ensures row[16..20] == Le32(src.messageFlags) && row[20..24] == Le32(src.importance)
    ensures row[32..40] == Le64(src.messageDeliveryTime) && row[40..48] == Le64(src.clientSubmitTime)
    ensures row[48..52] == Le32(src.messageSize) && row[60..64] == Le32(src.sensitivity)
    ensures row[80..88] == Le64(src.lastModificationTime)
    ensures row[120..121] == [Flag(src.messageToMe)] && row[121..122] == [Flag(src.messageCcMe)]
    ensures row[92..100] == Zeros(8) && row[112..116] == Zeros(4) && row[64..68] == Zeros(4) && row[76..80] == Zeros(4)
  {
    hide Le32, Le64, Flag;
    var f := ContentsFront(src);
    CellOf(row, f, 0, 4);
    CellOf(row, f, 4, 8);
    CellOf(row, f, 8, 12);
    CellOf(row, f, 16, 20);
    CellOf(row, f, 20, 24);
    CellOf(row, f, 32, 40);
    CellOf(row, f, 40, 48);
    CellOf(row, f, 48, 52);
    CellOf(row, f, 60, 64);
    CellOf(row, f, 64, 68);
    CellOf(row, f, 76, 80);
    CellOf(row, f, 80, 88);
    CellOf(row, f, 92, 100);
    CellOf(row, f, 112, 116);
    CellOf(row, f, 120, 121);
    CellOf(row, f, 121, 122);
  }

  lemma FixedBit(src: ContentsRow, b: nat)
    ensures b in FixedBits(src) <==>
              || b in {0, 1, 4, 5, 10} || (b == 2 && src.messageStatus != 0) || (b == 8 && src.messageDeliveryTime != 0)
              || (b == 9 && src.clientSubmitTime != 0) || (b == 13 && src.messageToMe) || (b == 14 && src.messageCcMe)
              || (b == 15 && src.sensitivity != 0) || (b == 20 && src.lastModificationTime != 0)
  {
    hide When;
    InWhen(b, src.messageStatus != 0, 2);
    InWhen(b, src.messageDeliveryTime != 0, 8);
    InWhen(b, src.clientSubmitTime != 0, 9);
    InWhen(b, src.sensitivity != 0, 15);
    InWhen(b, src.lastModificationTime != 0, 20);
    InWhen(b, src.messageToMe, 13);
    InWhen(b, src.messageCcMe, 14);
  }

  lemma AnswerPlaces(src: ContentsRow, i: nat)
    requires i < 28
    ensures var c, a := ContentsCols()[i], ContentsAnswer(src, i);
            && c.ibData + c.cbData <= CONTENTS_ROW
            && a.tag == TagOf(c) && a.field.at == c.ibData as nat && a.field.bit == c.iBit as nat
            && (i !in VARIABLE_COLUMNS ==> |a.field.value| == c.cbData as nat)
  {
    hide Le32, Le64;
  }

  lemma AnswerTags(src: ContentsRow, i: nat)
    requires i < 27
    ensures ContentsAnswer(src, i).tag < ContentsAnswer(src, i + 1).tag
  {
    hide Le32, Le64;
  }

  lemma AnswerPresence(src: ContentsRow, i: nat)
    requires i < 28
    ensures var f := ContentsAnswer(src, i).field;
            f.present <==> f.bit in ContentsBits(src)
  {
    hide ContentsBits, ContentsAnswer, ContentsPayloads;
    if i in VARIABLE_COLUMNS {
      VariableAnswer(src, i);
      VariableBitSet(src, i);
    } else {
      FixedPresence(src, i);
    }
  }

  lemma FixedPresence(src: ContentsRow, i: nat)
    requires i < 28 && i !in VARIABLE_COLUMNS
    ensures var f := ContentsAnswer(src, i).field;
            f.present <==> f.bit in ContentsBits(src)
  {
    hide FixedBits, ContentsBits, Le32, Le64;
    var bit := ContentsAnswer(src, i).field.bit;
    FixedBit(src, bit);
    InContentsBits(src, bit);
  }

  lemma InContentsBits(src: ContentsRow, b: nat)
    ensures b in FixedBits(src) ==> b in ContentsBits(src)
    ensures b !in FixedBits(src) ==> (b in ContentsBits(src) <==>
              || (b == 3 && src.messageClass != []) || (b == 6 && src.sentRepresentingName != [])
              || (b == 7 && src.subject != []) || (b == 11 && src.displayTo != [])
              || (b == 12 && src.displayCc != []) || (b == 17 && src.conversationTopic != [])
              || (b == 18 && src.conversationIndex != []) || (b == 27 && src.changeKey != []))
  {
    hide FixedBits, When;
    if b !in FixedBits(src) {
      PayloadBit(src, b);
    }
  }

  lemma VariableAnswer(src: ContentsRow, i: nat)
    requires i in VARIABLE_COLUMNS
    ensures var f, payload := ContentsAnswer(src, i).field, ContentsPayloads(src)[i];
            f.bit == VariableBit(i) && (f.present <==> payload != []) && f.value == payload
  {
    hide ContentsPayloads, ContentsAnswer;
    VariableValue(src, i);
    VariablePresent(src, i);
  }

  lemma VariablePresent(src: ContentsRow, i: nat)
    requires i in VARIABLE_COLUMNS
    ensures var f := ContentsAnswer(src, i).field;
            f.bit == VariableBit(i) && (f.present <==> f.value != [])
  {
    hide Le32, Le64;
  }

  lemma VariableValue(src: ContentsRow, i: nat)
    requires i in VARIABLE_COLUMNS
    ensures ContentsAnswer(src, i).field.value == ContentsPayloads(src)[i]
  {
    hide Le32, Le64;
  }

  lemma FixedAnswer(src: ContentsRow, row: seq<Byte>, i: nat)
    requires |row| == CONTENTS_ROW && row[..CONTENTS_CEB] == ContentsFront(src) && i < 28 && i !in VARIABLE_COLUMNS
    ensures var f := ContentsAnswer(src, i).field;
            f.at + |f.value| <= |row| && row[f.at..f.at + |f.value|] == f.value
  {
    hide ContentsFront, Le32, Le64;
    ContentsFixedCells(src, row);
  }

  lemma ContentsAnswersAre(src: ContentsRow, row: seq<Byte>)
    requires |row| == CONTENTS_ROW && row[..CONTENTS_CEB] == ContentsFront(src)
    ensures AnswersOf(ContentsCols(), row, ContentsPayloads(src), ContentsBits(src), ContentsAnswers(src))
  {
    hide ContentsFront, ContentsCols, ContentsBits, ContentsPayloads, ContentsAnswers, ContentsAnswer, TagOf,
         IsVariable;
    var cols, answers, bits := ContentsCols(), ContentsAnswers(src), ContentsBits(src);
    forall i: nat | i < 28
      ensures cols[i].ibData + cols[i].cbData <= |row|
      ensures answers[i] == Answer(TagOf(cols[i]), Field(cols[i].ibData, cols[i].iBit, cols[i].iBit as nat in bits,
                                                         Given(cols, row, ContentsPayloads(src), i)))
      ensures i < 27 ==> answers[i].tag < answers[i + 1].tag
    {
      AnswerPlaces(src, i);
      AnswerPresence(src, i);
      VariableColumns(i);
      if i in VARIABLE_COLUMNS {
        VariableAnswer(src, i);
      } else {
        FixedAnswer(src, row, i);
      }
      if i < 27 {
        AnswerTags(src, i);
      }
    }
  }

  lemma ContentsRowAnswers(res: TcResult, src: ContentsRow)
    requires SchemaStored(res.hn, ContentsCols(), CONTENTS_CEB) && ContentsRowReads(res, src)
    ensures Answers(res, src.rowId, ContentsAnswers(src))
  {
    hide SchemaStored, ContentsFront, CebShows, SchemaOk, Answers, AnswersOf, ContentsCols, ContentsPayloads,
         ContentsBits, ContentsAnswers, ReadRow, Agrees;
    var row := ContentsFront(src) + ReadRow(res.hn, res.subnodes, src.rowId).value.value[CONTENTS_CEB..];
    assert row[CONTENTS_CEB..] == ReadRow(res.hn, res.subnodes, src.rowId).value.value[CONTENTS_CEB..];
    ContentsSchemaOk();
    ContentsAnswersAre(src, row);
    AnswersRead(res, src.rowId, ContentsCols(), CONTENTS_CEB, row, ContentsPayloads(src), ContentsBits(src),
                ContentsAnswers(src));
  }

  /** Every message's row and all its answers; no row for any other id. */
  ghost predicate ContentsRead(res: TcResult, srcs: seq<ContentsRow>) {
    && (forall i | 0 <= i < |srcs| ::
          ContentsRowReads(res, srcs[i]) && Answers(res, srcs[i].rowId, ContentsAnswers(srcs[i])))
    && forall id: UInt32 | (forall i | 0 <= i < |srcs| :: srcs[i].rowId != id) ::
         ReadRow(res.hn, res.subnodes, id) == Success(None)
  }

  /** buildFolderContentsTc; without rows the subnode id is not looked at. */
  method BuildFolderContentsTc(srcs: seq<ContentsRow>, firstSubnodeNid: UInt32) returns (r: Result<TcResult, TcError>)
    ensures match ContentsError(srcs, firstSubnodeNid)
            case None => r.Success?
            case Some(e) => r == Failure(e)
    ensures r.Success? ==> SchemaStored(r.value.hn, ContentsCols(), CONTENTS_CEB)
    ensures r.Success? && DistinctIds(srcs, (s: ContentsRow) => s.rowId) ==> ContentsRead(r.value, srcs)
  {
    hide ContentsFront, ContentsBits, ContentsPayloads, ContentsCols, CellsOf, CebShows, Marked, RowFound,
         ContentsRowReads, ContentsAnswers, Answers, SchemaStored, SchemaOk, BytesOf, EstimatedSize, SizeError;
    ContentsSchemaOk();
    ContentsRowSize();
    if srcs == [] {
      EmptyContentsFits();
      r := BuildMarkedTable(ContentsCols(), CONTENTS_CEB, [], 0, [], []);
      return;
    }
    var rows: seq<TcRow> := [];
    ghost var payloads: seq<seq<seq<Byte>>>, bits: seq<set<nat>> := [], [];
    for i := 0 to |srcs|
      invariant |rows| == |payloads| == |bits| == i
      invariant forall k | 0 <= k < i ::
        && payloads[k] == ContentsPayloads(srcs[k]) && bits[k] == ContentsBits(srcs[k])
        && rows[k].rowId == srcs[k].rowId
        && |rows[k].bytes| == CONTENTS_ROW && rows[k].bytes[..CONTENTS_CEB] == ContentsFront(srcs[k])
        && CebShows(rows[k].bytes[CONTENTS_CEB..], ContentsBits(srcs[k]))
        && Marked(ContentsCols(), CONTENTS_CEB, rows[k], payloads[k], bits[k]) && |rows[k].cells| <= 8
        && |rows[k].cells| == ContentsCellCount(srcs[k]) && BytesOf(rows[k].cells) == ContentsCellBytes(srcs[k])
    {
      var row := BuildContentsRow(srcs[i]);
      ContentsRowIsMarked(srcs[i], row);
      ContentsRowCells(srcs[i]);
      rows := rows + [row];
      payloads, bits := payloads + [ContentsPayloads(srcs[i])], bits + [ContentsBits(srcs[i])];
    }
    ContentsSizeError(rows, srcs, firstSubnodeNid);
    r := BuildMarkedTable(ContentsCols(), CONTENTS_CEB, rows, firstSubnodeNid, payloads, bits);
    if r.Success? && DistinctIds(srcs, (s: ContentsRow) => s.rowId) {
      assert DistinctKeys(rows, ByRowId);
      forall i | 0 <= i < |srcs|
        ensures ContentsRowReads(r.value, srcs[i]) && Answers(r.value, srcs[i].rowId, ContentsAnswers(srcs[i]))
      {
        assert RowFound(r.value, rows[i].rowId, ContentsCols(), CONTENTS_CEB, rows[i].bytes, payloads[i]);
        ContentsRowFound(r.value, srcs[i], rows[i]);
        ContentsRowAnswers(r.value, srcs[i]);
      }
      forall id: UInt32 | forall i | 0 <= i < |srcs| :: srcs[i].rowId != id
        ensures ReadRow(r.value.hn, r.value.subnodes, id) == Success(None)
      {
        assert NoRow(rows, id);
      }
    }
  }
}
