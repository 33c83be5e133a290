/** The 564-byte file header (src/ndb.cpp; section 2.2.2.6 of [MS-PST]). */
module Header {
  import opened Bytes
  import opened Ndb
  import Crc

  const HEADER_SIZE: nat := 564
  const MAGIC: UInt32 := 0x4E444221
  const MAGIC_CLIENT: UInt16 := 0x4D53
  const CRC_START: nat := 8
  const CRC_PARTIAL_LENGTH: nat := 471
  const CRC_FULL_LENGTH: nat := 516

  datatype Root = Root(
    ibFileEof: Ib,
    ibAMapLast: Ib,
    cbAMapFree: UInt64,
    cbPMapFree: UInt64,
    brefNbt: Bref,
    brefBbt: Bref,
    fAMapValid: Byte)

  datatype WriterState = WriterState(
    root: Root,
    bidNextP: Bid,
    bidNextB: Bid,
    dwUnique: UInt32,
    rgnid: seq<Nid>,
    dwReserved1: UInt32,
    dwReserved2: UInt32,
    bidUnused: UInt64)

  // ---- The image, region by region ----

  /** Offsets 0x008 to 0x02C. */
  function Preamble(s: WriterState): (p: seq<Byte>)
    ensures |p| == 0x24
  {
    Le16(MAGIC_CLIENT) + Le16(23) + Le16(19) + [0x01] + [0x01] + Le32(s.dwReserved1) + Le32(s.dwReserved2)
    + Le64(s.bidUnused) + Le64(s.bidNextP) + Le32(s.dwUnique)
  }

  /** Offsets 0x02C to 0x0AC: one starting index per node type. */
  function NidImages(rgnid: seq<Nid>): (parts: seq<seq<Byte>>)
    ensures |parts| == |rgnid| && forall i | 0 <= i < |parts| :: parts[i] == Le32(rgnid[i])
    ensures |Flatten(parts)| == |rgnid| * 4
  {
    var parts := seq(|rgnid|, i requires 0 <= i < |rgnid| => Le32(rgnid[i]));
    FlattenUniformLength(parts, 4);
    parts
  }

  /** Offsets 0x0B4 to 0x0FC. */
  function RootImage(r: Root): (p: seq<Byte>)
    ensures |p| == 0x48
  {
    Le32(0) + Le64(r.ibFileEof) + Le64(r.ibAMapLast) + Le64(r.cbAMapFree) + Le64(r.cbPMapFree)
    + Le64(r.brefNbt.bid) + Le64(r.brefNbt.ib) + Le64(r.brefBbt.bid) + Le64(r.brefBbt.ib)
    + [r.fAMapValid] + [0] + Le16(0)
  }

  function AllOnes(n: nat): (s: seq<Byte>)
    ensures |s| == n && forall i | 0 <= i < n :: s[i] == 0xFF
  {
    seq(n, _ => 0xFF)
  }

  /** The 516 bytes from 0x008 to 0x20C that both checksums cover. */
  function Protected(s: WriterState): (p: seq<Byte>)
    requires |s.rgnid| == 32
    ensures |p| == CRC_FULL_LENGTH
  {
    Preamble(s) + Flatten(NidImages(s.rgnid)) + Le64(0) + RootImage(s.root) + Le32(0) + AllOnes(256)
    + [0x80] + [0x01] + Le16(0) + Le64(s.bidNextB)
  }

  function HeaderImage(s: WriterState): (p: seq<Byte>)
    requires |s.rgnid| == 32
    ensures |p| == HEADER_SIZE
  {
    Le32(MAGIC) + Le32(Crc.Checksum(Protected(s)[..CRC_PARTIAL_LENGTH])) + Protected(s)
    + Le32(Crc.Checksum(Protected(s))) + Zeros(36)
  }

  // ---- Serialization into a zeroed buffer ----

  method SerializeHeader(s: WriterState) returns (header: seq<Byte>)
    requires |s.rgnid| == 32
    ensures header == HeaderImage(s)
  {
    hide Preamble, NidImages, RootImage, Filled, Le32, Le64, Le16, Flatten, Crc.Checksum, Patch;
    var buf := new Byte[HEADER_SIZE](_ => 0);
    ZeroBuffer(buf[..]);
    Append32(buf, 0, MAGIC, []);
    assert [] + Le32(MAGIC) == Le32(MAGIC);
    FillZeros(buf[..], Le32(MAGIC), 4);
    WritePreamble(buf, s, Le32(MAGIC) + Zeros(4));
    ghost var d := Le32(MAGIC) + Zeros(4) + Preamble(s);
    WriteNids(buf, s.rgnid, d);
    ghost var d2 := d + Flatten(NidImages(s.rgnid));
    Append64(buf, 0xAC, 0, d2);
    WriteRoot(buf, s.root, d2 + Le64(0));
    ghost var d3 := d2 + Le64(0) + RootImage(s.root);
    WriteTail(buf, s.bidNextB, d3);
    ghost var done := d3 + Le32(0) + AllOnes(256) + [0x80] + [0x01] + Le16(0) + Le64(s.bidNextB);
    assert done == Le32(MAGIC) + Zeros(4) + Protected(s);
    WriteChecksums(buf, s);
    header := buf[..];
  }

  method WritePreamble(buf: array<Byte>, s: WriterState, ghost done: seq<Byte>)
    requires |done| == 8 && buf.Length == HEADER_SIZE && Filled(buf[..], done)
    modifies buf
    ensures Filled(buf[..], done + Preamble(s))
  {
    hide Filled, Le16, Le32, Le64;
    Append16(buf, 0x008, MAGIC_CLIENT, done);
    ghost var d := done + Le16(MAGIC_CLIENT);
    Append16(buf, 0x00A, 23, d);
    d := d + Le16(23);
    Append16(buf, 0x00C, 19, d);
    d := d + Le16(19);
    Append8(buf, 0x00E, 0x01, d);
    d := d + [0x01];
    Append8(buf, 0x00F, 0x01, d);
    d := d + [0x01];
    Append32(buf, 0x010, s.dwReserved1, d);
    d := d + Le32(s.dwReserved1);
    Append32(buf, 0x014, s.dwReserved2, d);
    d := d + Le32(s.dwReserved2);
    Append64(buf, 0x018, s.bidUnused, d);
    d := d + Le64(s.bidUnused);
    Append64(buf, 0x020, s.bidNextP, d);
    d := d + Le64(s.bidNextP);
    Append32(buf, 0x028, s.dwUnique, d);
    d := d + Le32(s.dwUnique);
    assert d == done + Preamble(s);
  }

  method WriteNids(buf: array<Byte>, rgnid: seq<Nid>, ghost done: seq<Byte>)
    requires |rgnid| == 32 && |done| == 0x2C && buf.Length == HEADER_SIZE && Filled(buf[..], done)
    modifies buf
    ensures Filled(buf[..], done + Flatten(NidImages(rgnid)))
  {
    hide Filled, Le32, Flatten;
    assert Flatten(NidImages(rgnid[..0])) == [];
    assert done + [] == done;
    for i := 0 to 32
      invariant Filled(buf[..], done + Flatten(NidImages(rgnid[..i])))
    {
      NidImagesStep(rgnid, i);
      Append32(buf, 0x2C + i * 4, rgnid[i], done + Flatten(NidImages(rgnid[..i])));
      assert done + Flatten(NidImages(rgnid[..i])) + Le32(rgnid[i]) == done + Flatten(NidImages(rgnid[..i + 1]));
    }
    assert rgnid[..32] == rgnid;
  }

  lemma NidImagesStep(rgnid: seq<Nid>, i: nat)
    requires i < |rgnid|
    ensures Flatten(NidImages(rgnid[..i + 1])) == Flatten(NidImages(rgnid[..i])) + Le32(rgnid[i])
  {
    assert NidImages(rgnid[..i + 1]) == NidImages(rgnid[..i]) + [Le32(rgnid[i])];
    FlattenSnoc(NidImages(rgnid[..i]), Le32(rgnid[i]));
  }

  method WriteRoot(buf: array<Byte>, r: Root, ghost done: seq<Byte>)
    requires |done| == 0xB4 && buf.Length == HEADER_SIZE && Filled(buf[..], done)
    modifies buf
    ensures Filled(buf[..], done + RootImage(r))
  {
    hide Filled, Le16, Le32, Le64;
    Append32(buf, 0x0B4, 0, done);
    ghost var part := Le32(0);
    Append64(buf, 0x0B8, r.ibFileEof, done + part);
    Regroup(done, part, Le64(r.ibFileEof));
    part := part + Le64(r.ibFileEof);
    Append64(buf, 0x0C0, r.ibAMapLast, done + part);
    Regroup(done, part, Le64(r.ibAMapLast));
    part := part + Le64(r.ibAMapLast);
    Append64(buf, 0x0C8, r.cbAMapFree, done + part);
    Regroup(done, part, Le64(r.cbAMapFree));
    part := part + Le64(r.cbAMapFree);
    Append64(buf, 0x0D0, r.cbPMapFree, done + part);
    Regroup(done, part, Le64(r.cbPMapFree));
    part := part + Le64(r.cbPMapFree);
    Append64(buf, 0x0D8, r.brefNbt.bid, done + part);
    Regroup(done, part, Le64(r.brefNbt.bid));
    part := part + Le64(r.brefNbt.bid);
    Append64(buf, 0x0E0, r.brefNbt.ib, done + part);
    Regroup(done, part, Le64(r.brefNbt.ib));
    part := part + Le64(r.brefNbt.ib);
    Append64(buf, 0x0E8, r.brefBbt.bid, done + part);
    Regroup(done, part, Le64(r.brefBbt.bid));
    part := part + Le64(r.brefBbt.bid);
    Append64(buf, 0x0F0, r.brefBbt.ib, done + part);
    Regroup(done, part, Le64(r.brefBbt.ib));
    part := part + Le64(r.brefBbt.ib);
    Append8(buf, 0x0F8, r.fAMapValid, done + part);
    Regroup(done, part, [r.fAMapValid]);
    part := part + [r.fAMapValid];
    Append8(buf, 0x0F9, 0, done + part);
    Regroup(done, part, [0]);
    part := part + [0];
    Append16(buf, 0x0FA, 0, done + part);
    Regroup(done, part, Le16(0));
    part := part + Le16(0);
  }

  method WriteTail(buf: array<Byte>, bidNextB: Bid, ghost done: seq<Byte>)
    requires |done| == 0xFC && buf.Length == HEADER_SIZE && Filled(buf[..], done)
    modifies buf
    ensures Filled(buf[..], done + Le32(0) + AllOnes(256) + [0x80] + [0x01] + Le16(0) + Le64(bidNextB))
  {
    hide Filled, Le16, Le32, Le64;
    Append32(buf, 0x0FC, 0, done);
    ghost var d := done + Le32(0);
    FillNext(buf[..], d, AllOnes(256));
    Copy(buf, 0x100, AllOnes(256));
    d := d + AllOnes(256);
    Append8(buf, 0x200, 0x80, d);
    d := d + [0x80];
    Append8(buf, 0x201, 0x01, d);
    d := d + [0x01];
    Append16(buf, 0x202, 0, d);
    d := d + Le16(0);
    Append64(buf, 0x204, bidNextB, d);
  }

  /** Both checksums are taken over bytes that neither of them overwrites. */
  method WriteChecksums(buf: array<Byte>, ghost s: WriterState)
    requires |s.rgnid| == 32 && buf.Length == HEADER_SIZE
    requires Filled(buf[..], Le32(MAGIC) + Zeros(4) + Protected(s))
    modifies buf
    ensures buf[..] == HeaderImage(s)
  {
    hide Protected, Le32, Crc.Checksum;
    ghost var p := Protected(s);
    assert buf[CRC_START..CRC_START + CRC_FULL_LENGTH] == p;
    assert buf[CRC_START..CRC_START + CRC_PARTIAL_LENGTH] == p[..CRC_PARTIAL_LENGTH];
    var dwCRCPartial := Crc.ComputeChecksum(buf[CRC_START..CRC_START + CRC_PARTIAL_LENGTH]);
    WriteU32(buf, 4, dwCRCPartial);
    assert buf[..] == Le32(MAGIC) + Le32(dwCRCPartial) + p + Zeros(40);
    assert buf[CRC_START..CRC_START + CRC_FULL_LENGTH] == p;
    var dwCRCFull := Crc.ComputeChecksum(buf[CRC_START..CRC_START + CRC_FULL_LENGTH]);
    WriteU32(buf, 0x20C, dwCRCFull);
  }

  // ---- Reading the header back ----

  /** What a reader finds: the root fields and two checksums that match the bytes they cover. */
  lemma HeaderReadsBack(s: WriterState)
    requires |s.rgnid| == 32
    ensures var h, r := HeaderImage(s), s.root;
            && ReadU32(h, 0) == MAGIC
            && ReadU64(h, 0xB8) == r.ibFileEof && ReadU64(h, 0xC0) == r.ibAMapLast && ReadU64(h, 0xC8) == r.cbAMapFree
            && Bref(ReadU64(h, 0xD8), ReadU64(h, 0xE0)) == r.brefNbt
            && Bref(ReadU64(h, 0xE8), ReadU64(h, 0xF0)) == r.brefBbt
            && ReadU64(h, 0x20) == s.bidNextP && ReadU64(h, 0x204) == s.bidNextB
            && ReadU32(h, 4) == Crc.Checksum(h[CRC_START..CRC_START + CRC_PARTIAL_LENGTH])
            && ReadU32(h, 0x20C) == Crc.Checksum(h[CRC_START..CRC_START + CRC_FULL_LENGTH])
  {
    hide Protected, Le32, Le64, ReadU32, ReadU64, Crc.Checksum, RootImage;
    var h, p := HeaderImage(s), Protected(s);
    assert h[0..4] == Le32(MAGIC);
    ReadsBack32(h, 0, MAGIC);
    assert h[CRC_START..CRC_START + CRC_FULL_LENGTH] == p;
    assert h[CRC_START..CRC_START + CRC_PARTIAL_LENGTH] == p[..CRC_PARTIAL_LENGTH];
    assert h[4..8] == Le32(Crc.Checksum(p[..CRC_PARTIAL_LENGTH]));
    ReadsBack32(h, 4, Crc.Checksum(p[..CRC_PARTIAL_LENGTH]));
    assert h[0x20C..0x210] == Le32(Crc.Checksum(p));
    ReadsBack32(h, 0x20C, Crc.Checksum(p));
    RootPosition(s);
    assert h[0xB4..0xFC] == RootImage(s.root);
    RootFields(h, s.root);
    CounterPositions(s);
    assert h[0x20..0x28] == Le64(s.bidNextP) && h[0x204..0x20C] == Le64(s.bidNextB);
    ReadsBack64(h, 0x20, s.bidNextP);
    ReadsBack64(h, 0x204, s.bidNextB);
  }

  lemma CounterPositions(s: WriterState)
    requires |s.rgnid| == 32
    ensures Protected(s)[0x18..0x20] == Le64(s.bidNextP) && Protected(s)[0x1FC..0x204] == Le64(s.bidNextB)
  {
    hide NidImages, RootImage, Flatten, Le16, Le32, Le64;
    assert Preamble(s)[0x18..0x20] == Le64(s.bidNextP);
  }

  lemma RootPosition(s: WriterState)
    requires |s.rgnid| == 32
    ensures Protected(s)[0xAC..0xF4] == RootImage(s.root)
  {
    hide Preamble, NidImages, RootImage, Flatten, Le16, Le32, Le64;
    var before := Preamble(s) + Flatten(NidImages(s.rgnid)) + Le64(0);
    var after := Le32(0) + AllOnes(256) + [0x80] + [0x01] + Le16(0) + Le64(s.bidNextB);
    assert Protected(s) == before + RootImage(s.root) + after;
  }

  lemma RootFields(h: seq<Byte>, r: Root)
    requires |h| == HEADER_SIZE && h[0xB4..0xFC] == RootImage(r)
    ensures ReadU64(h, 0xB8) == r.ibFileEof && ReadU64(h, 0xC0) == r.ibAMapLast && ReadU64(h, 0xC8) == r.cbAMapFree
    ensures Bref(ReadU64(h, 0xD8), ReadU64(h, 0xE0)) == r.brefNbt
    ensures Bref(ReadU64(h, 0xE8), ReadU64(h, 0xF0)) == r.brefBbt
  {
    hide ReadU64, RootImage, Le64;
    RootParts(r);
    RootField(h, r, 4, r.ibFileEof);
    RootField(h, r, 12, r.ibAMapLast);
    RootField(h, r, 20, r.cbAMapFree);
    RootField(h, r, 36, r.brefNbt.bid);
    RootField(h, r, 44, r.brefNbt.ib);
    RootField(h, r, 52, r.brefBbt.bid);
    RootField(h, r, 60, r.brefBbt.ib);
  }

  lemma RootField(h: seq<Byte>, r: Root, a: nat, v: UInt64)
    requires |h| == HEADER_SIZE && h[0xB4..0xFC] == RootImage(r) && a + 8 <= 0x48
    requires RootImage(r)[a..a + 8] == Le64(v)
    ensures ReadU64(h, 0xB4 + a) == v
  {
    hide ReadU64, RootImage, Le64;
    SubSlice(h, 0xB4, 0xFC, a, a + 8);
    ReadsBack64(h, 0xB4 + a, v);
  }

  lemma RootParts(r: Root)
    ensures var i := RootImage(r);
            && i[4..12] == Le64(r.ibFileEof) && i[12..20] == Le64(r.ibAMapLast) && i[20..28] == Le64(r.cbAMapFree)
            && i[36..44] == Le64(r.brefNbt.bid) && i[44..52] == Le64(r.brefNbt.ib)
            && i[52..60] == Le64(r.brefBbt.bid) && i[60..68] == Le64(r.brefBbt.ib)
  {
    hide Le16, Le32, Le64;
  }

  /** The fields in front of the node id table. */
  lemma PreambleReadsBack(s: WriterState)
    requires |s.rgnid| == 32
    ensures var h := HeaderImage(s);
            && ReadU16(h, 0x08) == 0x4D53 && ReadU16(h, 0x0A) == 23 && ReadU16(h, 0x0C) == 19
            && h[0x0E] == 1 && h[0x0F] == 1
            && ReadU32(h, 0x10) == s.dwReserved1 && ReadU32(h, 0x14) == s.dwReserved2
            && ReadU64(h, 0x18) == s.bidUnused && ReadU32(h, 0x28) == s.dwUnique
  {
    hide Protected, ReadU16, ReadU32, ReadU64, Le16, Le32, Le64, Crc.Checksum;
    var h, p := HeaderImage(s), Preamble(s);
    PreamblePosition(s);
    assert h[0x08..0x2C] == p;
    SubSlice(h, 0x08, 0x2C, 0, 2);
    SubSlice(h, 0x08, 0x2C, 2, 4);
    SubSlice(h, 0x08, 0x2C, 4, 6);
    SubSlice(h, 0x08, 0x2C, 8, 12);
    SubSlice(h, 0x08, 0x2C, 12, 16);
    SubSlice(h, 0x08, 0x2C, 16, 24);
    SubSlice(h, 0x08, 0x2C, 32, 36);
    PreambleParts(s);
    ReadsBack16(h, 0x08, MAGIC_CLIENT);
    ReadsBack16(h, 0x0A, 23);
    ReadsBack16(h, 0x0C, 19);
    assert h[0x0E] == p[6] && h[0x0F] == p[7];
    ReadsBack32(h, 0x10, s.dwReserved1);
    ReadsBack32(h, 0x14, s.dwReserved2);
    ReadsBack64(h, 0x18, s.bidUnused);
    ReadsBack32(h, 0x28, s.dwUnique);
  }

  lemma ReservedAreZero(s: WriterState)
    requires |s.rgnid| == 32 && s.dwReserved1 == 0 && s.dwReserved2 == 0 && s.bidUnused == 0
    ensures HeaderImage(s)[0x10..0x20] == Zeros(16)
  {
    hide Protected, Le16, Le32, Le64, Crc.Checksum;
    var h, p := HeaderImage(s), Preamble(s);
    ZeroFields();
    PreamblePosition(s);
    PreambleParts(s);
    assert h[0x08..0x2C] == p;
    SubSlice(h, 0x08, 0x2C, 8, 24);
    assert p[8..24] == p[8..12] + p[12..16] + p[16..24];
  }

  lemma PreamblePosition(s: WriterState)
    requires |s.rgnid| == 32
    ensures Protected(s)[..0x24] == Preamble(s)
  {
    hide Preamble, NidImages, RootImage, Flatten, Le16, Le32, Le64;
  }

  lemma PreambleParts(s: WriterState)
    ensures var p := Preamble(s);
            && p[0..2] == Le16(MAGIC_CLIENT) && p[2..4] == Le16(23) && p[4..6] == Le16(19) && p[6] == 1 && p[7] == 1
            && p[8..12] == Le32(s.dwReserved1) && p[12..16] == Le32(s.dwReserved2)
            && p[16..24] == Le64(s.bidUnused) && p[32..36] == Le32(s.dwUnique)
  {
    hide Le16, Le32, Le64;
  }

  /** The word for node type `t` lies at 0x2C + 4 * t. */
  lemma NidReadsBack(s: WriterState, t: nat)
    requires |s.rgnid| == 32 && t < 32
    ensures ReadU32(HeaderImage(s), 0x2C + 4 * t) == s.rgnid[t]
  {
    hide Protected, NidImages, ReadU32, Le32, Flatten, Crc.Checksum;
    var h, table := HeaderImage(s), Flatten(NidImages(s.rgnid));
    NidPosition(s);
    assert h[0x2C..0xAC] == table;
    FlattenUniformSlice(NidImages(s.rgnid), 4, t);
    SubSlice(h, 0x2C, 0xAC, t * 4, t * 4 + 4);
    ReadsBack32(h, 0x2C + 4 * t, s.rgnid[t]);
  }

  lemma NidPosition(s: WriterState)
    requires |s.rgnid| == 32
    ensures Protected(s)[0x24..0xA4] == Flatten(NidImages(s.rgnid))
  {
    hide Preamble, NidImages, RootImage, Flatten, Le16, Le32, Le64;
  }

  /** The rest: free-map bytes, sentinel, cipher, and zeros everywhere else. */
  lemma RestReadsBack(s: WriterState)
    requires |s.rgnid| == 32
    ensures var h := HeaderImage(s);
            && h[0xAC..0xB8] == Zeros(12) && ReadU64(h, 0xD0) == s.root.cbPMapFree
            && h[0xF8] == s.root.fAMapValid && h[0xF9..0x100] == Zeros(7)
            && (forall i | 0x100 <= i < 0x200 :: h[i] == 0xFF)
            && h[0x200] == 0x80 && h[0x201] == 0x01 && h[0x202..0x204] == Zeros(2) && h[0x210..0x234] == Zeros(36)
  {
    hide Preamble, NidImages, RootImage, Flatten, Le64, ReadU64, Crc.Checksum;
    var h, r := HeaderImage(s), RootImage(s.root);
    ZeroFields();
    RootPosition(s);
    RootTail(s.root);
    assert h[0xB4..0xFC] == r;
    SubSlice(h, 0xB4, 0xFC, 28, 36);
    ReadsBack64(h, 0xD0, s.root.cbPMapFree);
    assert h[0xB4..0xB8] == r[0..4] && h[0xF8] == r[0x44] && h[0xF9..0xFC] == r[0x45..0x48];
    assert h[0xAC..0xB4] == Le64(0);
    assert h[0xFC..0x100] == Le32(0);
    assert h[0xF9..0x100] == h[0xF9..0xFC] + h[0xFC..0x100];
  }

  lemma ZeroFields()
    ensures Le64(0) == Zeros(8) && Le32(0) == Zeros(4) && Le16(0) == Zeros(2)
  {
  }

  lemma RootTail(r: Root)
    ensures var i := RootImage(r);
            && i[0..4] == Zeros(4) && i[28..36] == Le64(r.cbPMapFree) && i[0x44] == r.fAMapValid
            && i[0x45..0x48] == Zeros(3)
  {
    hide Le64;
    ZeroFields();
  }
}
