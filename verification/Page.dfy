/**
 Fixed-size pages: trailer, allocation map and block B-tree pages (src/page.cpp, src/ndb.cpp; section 2.2.2.7 of
 [MS-PST]).
 */
module Page {
  import opened ByteBits
  import opened Bytes
  import opened Ndb
  import Crc

  const PAGE_BODY_SIZE: nat := 496
  const BT_ENTRIES_AREA: nat := 488

  const PTYPE_BBT: Byte := 0x80
  const PTYPE_NBT: Byte := 0x81
  const PTYPE_AMAP: Byte := 0x84
  const PTYPE_DLIST: Byte := 0x86

  // ---- The page trailer ----

  function PageSig(ptype: Byte, bid: Bid, ib: Ib): UInt16 {
    if ptype in {PTYPE_NBT, PTYPE_BBT, PTYPE_DLIST} then BlockSig(bid, ib) else 0
  }

  /** A finished page: its 496 body bytes and the trailer that belongs to them. */
  function SealedPage(body: seq<Byte>, ptype: Byte, bid: Bid, ib: Ib): (s: seq<Byte>)
    requires |body| == PAGE_BODY_SIZE
    ensures |s| == PAGE_SIZE
  {
    body + ([ptype, ptype] + Le16(PageSig(ptype, bid, ib)) + Le32(Crc.Checksum(body)) + Le64(bid))
  }

  method WritePageTrailer(page: array<Byte>, ptype: Byte, bid: Bid, ib: Ib)
    requires page.Length == PAGE_SIZE
    modifies page
    ensures page[..] == SealedPage(old(page[..PAGE_BODY_SIZE]), ptype, bid, ib)
  {
    hide Patch, Le16, Le32, Le64, BlockSig, Crc.Checksum;
    ghost var body := page[..PAGE_BODY_SIZE];
    WriteTypeAndSig(page, ptype, bid, ib);
    var dwCRC := Crc.ComputeChecksum(page[..PAGE_BODY_SIZE]);
    assert page[..PAGE_BODY_SIZE] == page[..PAGE_BODY_SIZE + 4][..PAGE_BODY_SIZE] == body;
    WriteU32(page, PAGE_BODY_SIZE + 4, dwCRC);
    WriteU64(page, PAGE_BODY_SIZE + 8, bid);
    assert page[..PAGE_BODY_SIZE + 16] == page[..];
  }

  method WriteTypeAndSig(page: array<Byte>, ptype: Byte, bid: Bid, ib: Ib)
    requires page.Length == PAGE_SIZE
    modifies page
    ensures page[..PAGE_BODY_SIZE + 4] == old(page[..PAGE_BODY_SIZE]) + ([ptype, ptype] + Le16(PageSig(ptype, bid, ib)))
  {
    hide Patch, Le16, BlockSig;
    WriteU8(page, PAGE_BODY_SIZE, ptype);
    WriteU8(page, PAGE_BODY_SIZE + 1, ptype);
    var wSig: UInt16 := 0;
    if ptype == PTYPE_NBT || ptype == PTYPE_BBT || ptype == PTYPE_DLIST {
      wSig := BlockSig(bid, ib);
    }
    WriteU16(page, PAGE_BODY_SIZE + 2, wSig);
  }

  // ---- Bits of a byte ----

  predicate BitOf(b: Byte, k: nat) {
    Bit(b, k) == 1
  }

  lemma SmallPowers()
    ensures Pow2(0) == 1 && Pow2(1) == 2 && Pow2(2) == 4 && Pow2(3) == 8 && Pow2(4) == 16
    ensures Pow2(5) == 32 && Pow2(6) == 64 && Pow2(7) == 128 && Pow2(8) == 256
  {
    assert Pow2(2) == 4;
    assert Pow2(4) == 16;
    assert Pow2(6) == 64;
  }

  /** The byte with the low `n` bits set. */
  function LowBits(n: nat): Byte
    requires n <= 8
  {
    SmallPowers();
    (match n
     case 0 => 0 case 1 => 1 case 2 => 3 case 3 => 7 case 4 => 15 case 5 => 31 case 6 => 63 case 7 => 127 case 8 => 255)
  }

  lemma LowBitsAreSet(n: nat, k: nat)
    requires n <= 8 && k < 8
    ensures BitOf(LowBits(n), k) <==> k < n
  {
    SmallPowers();
  }

  // ---- The allocation map ----

  const AMAP_BITMAP_BYTES: nat := 496
  const BYTES_PER_AMAP_BIT: nat := 64
  const AMAP_BITS: nat := 3968
  const AMAP_COVERAGE: nat := 253952
  const IB_AMAP: nat := 0x4400

  /** How many 64-byte units of the covered range begin before the end of the file. */
  function AllocatedUnits(ibAMap: nat, fileSize: nat): (n: nat)
    ensures n <= AMAP_BITS
  {
    var coverageEnd := ibAMap + AMAP_COVERAGE;
    var allocatedEnd := if fileSize < coverageEnd then fileSize else coverageEnd;
    var allocatedBytes := if allocatedEnd > ibAMap then allocatedEnd - ibAMap else 0;
    (allocatedBytes + BYTES_PER_AMAP_BIT - 1) / BYTES_PER_AMAP_BIT
  }

  function BitmapByte(units: nat, i: nat): Byte {
    if i < units / 8 then 0xFF else if i == units / 8 then LowBits(units % 8) else 0
  }

  function Bitmap(units: nat): (s: seq<Byte>)
    ensures |s| == AMAP_BITMAP_BYTES && forall i | 0 <= i < |s| :: s[i] == BitmapByte(units, i)
  {
    seq(AMAP_BITMAP_BYTES, i requires 0 <= i => BitmapByte(units, i))
  }

  method BuildAMap(ibAMap: Ib, fileSize: UInt64) returns (page: seq<Byte>)
    // The source's 64-bit sum does not wrap for any offset a file can have.
    requires ibAMap + AMAP_COVERAGE < 0x1_0000_0000_0000_0000
    ensures page == SealedPage(Bitmap(AllocatedUnits(ibAMap, fileSize)), PTYPE_AMAP, ibAMap, ibAMap)
  {
    hide SealedPage, LowBits;
    LowBitsOfNone();
    var buf := new Byte[PAGE_SIZE](_ => 0);
    var coverageEnd := ibAMap + AMAP_COVERAGE;
    var allocatedEnd := if fileSize < coverageEnd then fileSize else coverageEnd;
    var allocatedBytes := if allocatedEnd > ibAMap then allocatedEnd - ibAMap else 0;
    var totalBits := (allocatedBytes + BYTES_PER_AMAP_BIT - 1) / BYTES_PER_AMAP_BIT;
    var fullBytes, leftover := totalBits / 8, totalBits % 8;
    var cap := if fullBytes < AMAP_BITMAP_BYTES then fullBytes else AMAP_BITMAP_BYTES;
    for i := 0 to cap
      invariant forall k | 0 <= k < i :: buf[k] == 0xFF
      invariant forall k | i <= k < PAGE_SIZE :: buf[k] == 0
    {
      buf[i] := 0xFF;
    }
    if leftover != 0 && cap < AMAP_BITMAP_BYTES {
      buf[cap] := LowBits(leftover);
    }
    assert buf[..PAGE_BODY_SIZE] == Bitmap(totalBits);
    WritePageTrailer(buf, PTYPE_AMAP, ibAMap, ibAMap);
    page := buf[..];
  }

  lemma LowBitsOfNone()
    ensures LowBits(0) == 0
  {
  }

  /** Bit `i` of a bitmap, low bit of each byte first. */
  predicate UnitAllocated(bitmap: seq<Byte>, i: nat)
    requires i / 8 < |bitmap|
  {
    BitOf(bitmap[i / 8], i % 8)
  }

  lemma BitmapBit(units: nat, i: nat)
    requires i < AMAP_BITS
    ensures UnitAllocated(Bitmap(units), i) <==> i < units
  {
    hide BitOf, LowBits;
    LowBitsAreSet(8, i % 8);
    LowBitsAreSet(0, i % 8);
    LowBitsAreSet(units % 8, i % 8);
    LowBitsOfNone();
    LowBitsOfAll();
  }

  lemma LowBitsOfAll()
    ensures LowBits(8) == 0xFF
  {
  }

  /** The map marks exactly the units that begin before the end of the file. */
  lemma MapMatchesFile(ibAMap: nat, fileSize: nat, i: nat)
    requires i < AMAP_BITS
    ensures UnitAllocated(Bitmap(AllocatedUnits(ibAMap, fileSize)), i) <==> ibAMap + BYTES_PER_AMAP_BIT * i < fileSize
  {
    hide UnitAllocated, Bitmap;
    BitmapBit(AllocatedUnits(ibAMap, fileSize), i);
  }

  // ---- The free-space figure of the file header, computed on its own ----

  function CbAMapFreeFor(fileEof: nat): (free: nat)
    ensures free <= AMAP_COVERAGE
  {
    var coverageEnd := IB_AMAP + AMAP_COVERAGE;
    var allocatedEnd := if fileEof < coverageEnd then fileEof else coverageEnd;
    var allocatedBytes := if allocatedEnd > IB_AMAP then allocatedEnd - IB_AMAP else 0;
    var allocatedBits := (allocatedBytes + BYTES_PER_AMAP_BIT - 1) / BYTES_PER_AMAP_BIT;
    (AMAP_BITMAP_BYTES * 8 - allocatedBits) * BYTES_PER_AMAP_BIT
  }

  function ClearBits(bitmap: seq<Byte>, n: nat): (c: nat)
    requires n <= 8 * |bitmap|
  {
    if n == 0 then 0 else ClearBits(bitmap, n - 1) + if UnitAllocated(bitmap, n - 1) then 0 else 1
  }

  lemma {:induction false} ClearBitsCount(units: nat, n: nat)
    requires units <= AMAP_BITS && n <= AMAP_BITS
    ensures ClearBits(Bitmap(units), n) == if n <= units then 0 else n - units
  {
    hide UnitAllocated, Bitmap;
    if n == 0 {
    } else {
      ClearBitsCount(units, n - 1);
      BitmapBit(units, n - 1);
    }
  }

  /** What the header says is free is what the map leaves clear. */
  lemma FreeFigureMatchesMap(fileEof: nat)
    ensures CbAMapFreeFor(fileEof)
            == BYTES_PER_AMAP_BIT * ClearBits(Bitmap(AllocatedUnits(IB_AMAP, fileEof)), AMAP_BITS)
  {
    hide Bitmap;
    ClearBitsCount(AllocatedUnits(IB_AMAP, fileEof), AMAP_BITS);
  }

  // ---- B-tree pages ----

  datatype BtShape = BtShape(cEntMax: Byte, cbEnt: Byte, cLevel: Byte)

  function BtBody(entries: seq<seq<Byte>>, shape: BtShape): (s: seq<Byte>)
    requires |entries| < 0x100 && |Flatten(entries)| <= BT_ENTRIES_AREA
    ensures |s| == PAGE_BODY_SIZE
  {
    Flatten(entries) + Zeros(BT_ENTRIES_AREA - |Flatten(entries)|)
    + [|entries|, shape.cEntMax, shape.cbEnt, shape.cLevel] + Le32(0)
  }

  /** Writes the control bytes and the trailer of a B-tree page whose entries are in place. */
  method FinishBtPage(page: array<Byte>, ghost entries: seq<seq<Byte>>, cEnt: Byte, shape: BtShape,
                      ptype: Byte, bid: Bid, ib: Ib)
    requires page.Length == PAGE_SIZE && |entries| == cEnt
    requires |Flatten(entries)| <= BT_ENTRIES_AREA && Filled(page[..], Flatten(entries))
    modifies page
    ensures page[..] == SealedPage(BtBody(entries, shape), ptype, bid, ib)
  {
    hide Flatten, SealedPage, Patch;
    ghost var area := Flatten(entries) + Zeros(BT_ENTRIES_AREA - |Flatten(entries)|);
    assert page[..BT_ENTRIES_AREA] == area;
    WriteU8(page, 488, cEnt);
    WriteU8(page, 489, shape.cEntMax);
    WriteU8(page, 490, shape.cbEnt);
    WriteU8(page, 491, shape.cLevel);
    WriteU32(page, 492, 0);
    assert page[..PAGE_BODY_SIZE] == BtBody(entries, shape);
    WritePageTrailer(page, ptype, bid, ib);
  }

  // ---- Entries ----

  datatype BtEntry = BtEntry(btkey: UInt64, bref: Bref)

  function BtEntryImage(e: BtEntry): (s: seq<Byte>)
    ensures |s| == 24
  {
    Le64(e.btkey) + Le64(e.bref.bid) + Le64(e.bref.ib)
  }

  datatype BbtEntry = BbtEntry(bref: Bref, cb: UInt16, cRef: UInt16)

  function BbtEntryImage(e: BbtEntry): (s: seq<Byte>)
    ensures |s| == 24
  {
    Le64(e.bref.bid) + Le64(e.bref.ib) + Le16(e.cb) + Le16(e.cRef) + Le32(0)
  }

  const BBT_LEAF_MAX: nat := 20
  const BT_MAX: nat := 20
  const BBT_LEAF_SHAPE: BtShape := BtShape(20, 24, 0)

  function BtImages(es: seq<BtEntry>): (parts: seq<seq<Byte>>)
    ensures |parts| == |es| && forall i | 0 <= i < |es| :: parts[i] == BtEntryImage(es[i])
    ensures |Flatten(parts)| == |es| * 24
  {
    var parts := seq(|es|, i requires 0 <= i < |es| => BtEntryImage(es[i]));
    FlattenUniformLength(parts, 24);
    parts
  }

  function BbtImages(es: seq<BbtEntry>): (parts: seq<seq<Byte>>)
    ensures |parts| == |es| && forall i | 0 <= i < |es| :: parts[i] == BbtEntryImage(es[i])
    ensures |Flatten(parts)| == |es| * 24
  {
    var parts := seq(|es|, i requires 0 <= i < |es| => BbtEntryImage(es[i]));
    FlattenUniformLength(parts, 24);
    parts
  }

  method WriteBtEntry(page: array<Byte>, off: nat, e: BtEntry, ghost done: seq<Byte>)
    requires off + 24 <= page.Length && |done| == off && Filled(page[..], done)
    modifies page
    ensures Filled(page[..], done + BtEntryImage(e))
  {
    hide Le64, Filled;
    Append64(page, off, e.btkey, done);
    Append64(page, off + 8, e.bref.bid, done + Le64(e.btkey));
    Append64(page, off + 16, e.bref.ib, done + Le64(e.btkey) + Le64(e.bref.bid));
    assert done + Le64(e.btkey) + Le64(e.bref.bid) + Le64(e.bref.ib) == done + BtEntryImage(e);
  }

  method WriteBbtEntry(page: array<Byte>, off: nat, e: BbtEntry, ghost done: seq<Byte>)
    requires off + 24 <= page.Length && |done| == off && Filled(page[..], done)
    modifies page
    ensures Filled(page[..], done + BbtEntryImage(e))
  {
    hide Le64, Le16, Le32, Filled;
    Append64(page, off, e.bref.bid, done);
    Append64(page, off + 8, e.bref.ib, done + Le64(e.bref.bid));
    ghost var d := done + Le64(e.bref.bid) + Le64(e.bref.ib);
    Append16(page, off + 16, e.cb, d);
    Append16(page, off + 18, e.cRef, d + Le16(e.cb));
    Append32(page, off + 20, 0, d + Le16(e.cb) + Le16(e.cRef));
    assert d + Le16(e.cb) + Le16(e.cRef) + Le32(0) == done + BbtEntryImage(e);
  }

  lemma BtImagesStep(es: seq<BtEntry>, i: nat)
    requires i < |es|
    ensures Flatten(BtImages(es[..i + 1])) == Flatten(BtImages(es[..i])) + BtEntryImage(es[i])
  {
    assert BtImages(es[..i + 1]) == BtImages(es[..i]) + [BtEntryImage(es[i])];
    FlattenSnoc(BtImages(es[..i]), BtEntryImage(es[i]));
  }

  lemma BbtImagesStep(es: seq<BbtEntry>, i: nat)
    requires i < |es|
    ensures Flatten(BbtImages(es[..i + 1])) == Flatten(BbtImages(es[..i])) + BbtEntryImage(es[i])
  {
    assert BbtImages(es[..i + 1]) == BbtImages(es[..i]) + [BbtEntryImage(es[i])];
    FlattenSnoc(BbtImages(es[..i]), BbtEntryImage(es[i]));
  }

  /** Writes the entries of an intermediate page in the order given. */
  method WriteBtEntries(page: array<Byte>, es: seq<BtEntry>)
    requires page.Length == PAGE_SIZE && |es| <= BT_MAX && Filled(page[..], [])
    modifies page
    ensures Filled(page[..], Flatten(BtImages(es)))
  {
    hide Filled, BtEntryImage, Flatten;
    assert Flatten(BtImages(es[..0])) == [];
    for i := 0 to |es|
      invariant Filled(page[..], Flatten(BtImages(es[..i])))
    {
      BtImagesStep(es, i);
      WriteBtEntry(page, i * 24, es[i], Flatten(BtImages(es[..i])));
    }
    assert es[..|es|] == es;
  }

  method WriteBbtEntries(page: array<Byte>, es: seq<BbtEntry>)
    requires page.Length == PAGE_SIZE && |es| <= BBT_LEAF_MAX && Filled(page[..], [])
    modifies page
    ensures Filled(page[..], Flatten(BbtImages(es)))
  {
    hide Filled, BbtEntryImage, Flatten;
    assert Flatten(BbtImages(es[..0])) == [];
    for i := 0 to |es|
      invariant Filled(page[..], Flatten(BbtImages(es[..i])))
    {
      BbtImagesStep(es, i);
      WriteBbtEntry(page, i * 24, es[i], Flatten(BbtImages(es[..i])));
    }
    assert es[..|es|] == es;
  }

  /** At most the first twenty entries; a longer list is cut. */
  function Clamp<T>(es: seq<T>, cap: nat): seq<T> {
    if |es| > cap then es[..cap] else es
  }

  method BuildBbtLeaf(entries: seq<BbtEntry>, bid: Bid, ib: Ib) returns (page: seq<Byte>)
    ensures page == SealedPage(BtBody(BbtImages(Clamp(entries, BBT_LEAF_MAX)), BBT_LEAF_SHAPE), PTYPE_BBT, bid, ib)
  {
    hide SealedPage, BtBody, Flatten;
    var es := Clamp(entries, BBT_LEAF_MAX);
    var buf := new Byte[PAGE_SIZE](_ => 0);
    WriteBbtEntries(buf, es);
    FinishBtPage(buf, BbtImages(es), |es|, BBT_LEAF_SHAPE, PTYPE_BBT, bid, ib);
    page := buf[..];
  }

  method BuildBbtIntermediate(entries: seq<BtEntry>, cLevel: Byte, bid: Bid, ib: Ib) returns (page: seq<Byte>)
    ensures page == SealedPage(BtBody(BtImages(Clamp(entries, BT_MAX)), BtShape(20, 24, cLevel)), PTYPE_BBT, bid, ib)
  {
    hide SealedPage, BtBody, Flatten;
    var es := Clamp(entries, BT_MAX);
    var buf := new Byte[PAGE_SIZE](_ => 0);
    WriteBtEntries(buf, es);
    FinishBtPage(buf, BtImages(es), |es|, BtShape(20, 24, cLevel), PTYPE_BBT, bid, ib);
    page := buf[..];
  }
}
