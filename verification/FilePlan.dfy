/**
 Where everything lies in a written file, in plain numbers: the allocation map and its page, the gap, the blocks and
 their entries, the pages, and the end (src/writer.cpp, src/page.cpp; section 2.2.2.7.2 of [MS-PST]).
 */
module FilePlan {
  import opened Block
  import opened ByteBits
  import opened Bytes
  import opened Header
  import opened Image
  import opened ImageReader
  import opened ImageWriter
  import opened Nbt
  import opened Ndb
  import opened Page
  import Crc

  // ---- The allocation map ----

  /** A bit for every 64 bytes from 0x4400 on, set as far as the file reaches; then the page's own trailer. */
  ghost predicate MapIsTrue(file: seq<Byte>) {
    && |file| >= 0x4600
    && (forall i | 0 <= i < 3968 :: Bit(file[0x4400 + i / 8], i % 8) == 1 <==> 0x4400 + 64 * i < |file|)
    && file[0x45F0] == 0x84 && file[0x45F1] == 0x84 && ReadU16(file, 0x45F2) == 0
    && ReadU32(file, 0x45F4) == Crc.Checksum(file[0x4400..0x45F0]) && ReadU64(file, 0x45F8) == 0x4400
  }

  /** The units of the first map that the file does not reach, in bytes. */
  function FreeBytes(size: nat): nat
    requires size >= 0x4400
  {
    if size >= 0x4400 + 253952 then 0 else (253952 - (size - 0x4400)) / 64 * 64
  }

  lemma FreeIs(size: nat)
    requires size >= 0x4400
    ensures CbAMapFreeFor(size) == FreeBytes(size)
  {
  }

  lemma MapTrailer(file: seq<Byte>, eof: nat)
    requires StoredAt(file, IB_AMAP, AMapPage(eof))
    ensures |file| >= 0x4600 && file[0x4400..0x45F0] == Bitmap(AllocatedUnits(IB_AMAP, eof))
    ensures file[0x45F0] == 0x84 && file[0x45F1] == 0x84 && ReadU16(file, 0x45F2) == 0
    ensures ReadU32(file, 0x45F4) == Crc.Checksum(file[0x4400..0x45F0]) && ReadU64(file, 0x45F8) == 0x4400
  {
    hide Bitmap, Le16, Le32, Le64, ReadU16, ReadU32, ReadU64, Crc.Checksum;
    var body := Bitmap(AllocatedUnits(IB_AMAP, eof));
    var page := AMapPage(eof);
    assert file[0x4400..0x4600] == page;
    assert page[..496] == body && page[498..500] == Le16(0);
    assert page[500..504] == Le32(Crc.Checksum(body)) && page[504..512] == Le64(0x4400);
    SubSlice(file, 0x4400, 0x4600, 0, 496);
    SubSlice(file, 0x4400, 0x4600, 498, 500);
    SubSlice(file, 0x4400, 0x4600, 500, 504);
    SubSlice(file, 0x4400, 0x4600, 504, 512);
    assert file[0x45F0] == page[496] && file[0x45F1] == page[497];
    ReadsBack16(file, 0x45F2, 0);
    ReadsBack32(file, 0x45F4, Crc.Checksum(body));
    ReadsBack64(file, 0x45F8, 0x4400);
  }

  lemma MapBits(file: seq<Byte>, eof: nat, i: nat)
    requires |file| >= 0x4600 && file[0x4400..0x45F0] == Bitmap(AllocatedUnits(IB_AMAP, eof)) && i < 3968
    ensures Bit(file[0x4400 + i / 8], i % 8) == 1 <==> 0x4400 + 64 * i < eof
  {
    hide Bitmap, Bit, AllocatedUnits;
    MapMatchesFile(IB_AMAP, eof, i);
    assert file[0x4400 + i / 8] == file[0x4400..0x45F0][i / 8];
  }

  /** The map of a written file is true of that file, and the header's figure of free bytes is what it leaves. */
  lemma WrittenMapIsTrue(blocks: seq<BlockSpec>, nodeCount: nat, pages: seq<seq<Byte>>, file: seq<Byte>)
    requires Sized(blocks, nodeCount) && Holds(file, blocks, nodeCount, pages)
    ensures MapIsTrue(file) && ReadU64(file, 0xC8) as nat == FreeBytes(|file|)
  {
    hide HeaderImage, PagesStart, CbAMapFreeFor, Bitmap, SealedPage, NbtRoot, BbtRoot, NextPageBid, NextBlockBid,
         ReadU16, ReadU32, ReadU64, ClearBits, StoredAt, FreshHeader, Crc.Checksum, Bit, FreeBytes, AllocatedUnits,
         AMapPage;
    MapTrailer(file, |file|);
    forall i: nat | i < 3968 ensures Bit(file[0x4400 + i / 8], i % 8) == 1 <==> 0x4400 + 64 * i < |file| {
      MapBits(file, |file|, i);
    }
    HeaderIsTrue(blocks, nodeCount, pages, file);
    FreeFigureMatchesMap(|file|);
    FreeIs(|file|);
  }

  // ---- Blocks, pages, end ----

  /** The bytes of all blocks before block `i`. */
  function BytesBefore(blocks: seq<BlockSpec>, i: nat): nat
    requires i <= |blocks|
  {
    if i == 0 then 0 else BytesBefore(blocks, i - 1) + |blocks[i - 1].encodedBlock|
  }

  lemma {:induction false} BlocksFollow(blocks: seq<BlockSpec>, i: nat)
    requires i <= |blocks|
    ensures BlockIb(blocks, i) == 0x4600 + BytesBefore(blocks, i)
  {
    hide Flatten;
    var bs := BlockBytes(blocks);
    if i == 0 {
      assert bs[..0] == [];
      NothingFlat();
    } else {
      BlocksFollow(blocks, i - 1);
      assert bs[..i] == bs[..i - 1] + [bs[i - 1]];
      FlattenSnoc(bs[..i - 1], bs[i - 1]);
    }
  }

  lemma NothingFlat()
    ensures Flatten([]) == []
  {
  }

  /** How many parts of `cap` hold `n` entries, with one for none, and one more page above several. */
  function PageCount(n: nat, cap: nat): nat
    requires cap > 0
  {
    var leaves := if n == 0 then 1 else (n + cap - 1) / cap;
    if leaves == 1 then 1 else leaves + 1
  }

  /**
   Zeros behind the header and behind the blocks; blocks end to end from 0x4600; the pages at the next multiple of
   512, twenty blocks or fifteen nodes to a leaf; and nothing after them.
   */
  ghost predicate LaidOut(file: seq<Byte>, blocks: seq<BlockSpec>, nodeCount: nat) {
    var end := 0x4600 + BytesBefore(blocks, |blocks|);
    var start := (end + 511) / 512 * 512;
    && |file| == start + 512 * (PageCount(|blocks|, 20) + PageCount(nodeCount, 15))
    && file[564..0x4400] == Zeros(0x4400 - 564) && file[end..start] == Zeros(start - end)
    && forall i | 0 <= i < |blocks| ::
         var at := 0x4600 + BytesBefore(blocks, i);
         at + |blocks[i].encodedBlock| <= end && file[at..at + |blocks[i].encodedBlock|] == blocks[i].encodedBlock
  }

  lemma {:induction false} BeforeGrows(blocks: seq<BlockSpec>, i: nat, j: nat)
    requires i < j <= |blocks|
    ensures BytesBefore(blocks, i) + |blocks[i].encodedBlock| <= BytesBefore(blocks, j)
    decreases j
  {
    if i + 1 < j {
      BeforeGrows(blocks, i, j - 1);
    } else {
    }
  }

  lemma AlignedIs(v: nat)
    ensures AlignToPage(v) == (v + 511) / 512 * 512
  {
  }

  lemma EndIs(blocks: seq<BlockSpec>, nodeCount: nat)
    ensures FileEnd(blocks, nodeCount)
            == PagesStart(blocks) + 512 * (PageCount(|blocks|, 20) + PageCount(nodeCount, 15))
  {
  }

  lemma Gaps(front: seq<Byte>, header: seq<Byte>, amap: seq<Byte>, blocks: seq<BlockSpec>, pages: seq<seq<Byte>>)
    requires |header| == HEADER_SIZE && |amap| == PAGE_SIZE && front == Front(header, amap)
    requires forall k | 0 <= k < |pages| :: |pages[k]| == PAGE_SIZE
    ensures var file, end, start := Assembled(front, blocks, pages), BlockIb(blocks, |blocks|), PagesStart(blocks);
            && 0x4600 <= end <= start <= |file|
            && file[564..0x4400] == Zeros(0x4400 - 564) && file[end..start] == Zeros(start - end)
  {
    hide Flatten;
    var file, end, start := Assembled(front, blocks, pages), BlockIb(blocks, |blocks|), PagesStart(blocks);
    AllBlocks(blocks);
    assert front[564..0x4400] == Zeros(0x4400 - 564);
    assert file[0..0x4600] == front;
    SubSlice(file, 0, 0x4600, 564, 0x4400);
    var body := Flatten(BlockBytes(blocks));
    assert file[0..start] == front + body + Zeros(start - end);
    SubSlice(file, 0, start, end, start);
    assert (front + body + Zeros(start - end))[end..start] == Zeros(start - end);
  }

  /** The block tree's entry of block `i`: its id, its place, its logical size, and a count of two. */
  lemma EntryIs(blocks: seq<BlockSpec>, i: nat)
    requires i < |blocks| && BlockIb(blocks, |blocks|) < 0x1_0000_0000_0000_0000
    ensures var e := BbtEntryFor(blocks, i);
            && e.bref.bid == blocks[i].bid && e.bref.ib as nat == 0x4600 + BytesBefore(blocks, i)
            && e.cb == blocks[i].cb && e.cRef == 2
  {
    hide BlockIb;
    BlocksFollow(blocks, i);
  }

  lemma HeldIsLaidOut(blocks: seq<BlockSpec>, nodeCount: nat, pages: seq<seq<Byte>>, file: seq<Byte>)
    requires Sized(blocks, nodeCount) && Holds(file, blocks, nodeCount, pages)
    requires var end, start := BlockIb(blocks, |blocks|), PagesStart(blocks);
             && 0x4600 <= end <= start <= |file|
             && file[564..0x4400] == Zeros(0x4400 - 564) && file[end..start] == Zeros(start - end)
    ensures LaidOut(file, blocks, nodeCount)
  {
    hide HeaderImage, AMapPage, StateOf, BlockIb, PageCount, BytesBefore, FileEnd;
    BlocksFollow(blocks, |blocks|);
    AlignedIs(BlockIb(blocks, |blocks|));
    EndIs(blocks, nodeCount);
    forall i | 0 <= i < |blocks|
      ensures var at := 0x4600 + BytesBefore(blocks, i);
              && at + |blocks[i].encodedBlock| <= 0x4600 + BytesBefore(blocks, |blocks|)
              && file[at..at + |blocks[i].encodedBlock|] == blocks[i].encodedBlock
    {
      BlocksFollow(blocks, i);
      BeforeGrows(blocks, i, |blocks|);
    }
  }

  /** Every file the writer can produce is laid out so, and its map and its figure of free bytes are true. */
  lemma WrittenIsLaidOut(blocks: seq<BlockSpec>, bes: seq<BbtEntry>, order: seq<NbtEntry>, index: seq<BtEntry>,
                         file: seq<Byte>)
    requires Sized(blocks, |order|) && |bes| == |blocks| && |index| <= BT_MAX
    requires file == ImageWith(blocks, bes, order, index)
    ensures LaidOut(file, blocks, |order|) && MapIsTrue(file) && ReadU64(file, 0xC8) as nat == FreeBytes(|file|)
  {
    hide MapIsTrue, FreeBytes, Front, HeaderImage, AMapPage, Assembled, StateOf, BbtPages, NbtPagesWith, ReadU64,
         BlockIb, Holds, PagesStart, LaidOut;
    var pages := PagesWith(blocks, bes, order, index);
    PlanIsKept(blocks, bes, order, index);
    WrittenMapIsTrue(blocks, |order|, pages, file);
    var state := StateOf(|blocks|, |order|, PagesStart(blocks));
    var amap := AMapPage(state.root.ibFileEof);
    Gaps(Front(HeaderImage(state), amap), HeaderImage(state), amap, blocks, pages);
    HeldIsLaidOut(blocks, |order|, pages, file);
  }

  // ---- The fields of entries and trailers ----

  lemma NodeEntryPlaces(e: NbtEntry)
    ensures var i := NbtEntryImage(e);
            && |i| == 32 && i[0..4] == Le32(e.nid) && i[4..8] == Zeros(4) && i[8..16] == Le64(e.bidData)
            && i[16..24] == Le64(e.bidSub) && i[24..28] == Le32(e.nidParent) && i[28..32] == Zeros(4)
  {
    hide Le32;
    ZeroWord();
  }

  lemma ZeroWord()
    ensures Le32(0) == Zeros(4)
  {
  }

  lemma BlockEntryPlaces(e: BbtEntry)
    ensures var i := BbtEntryImage(e);
            && |i| == 24 && i[0..8] == Le64(e.bref.bid) && i[8..16] == Le64(e.bref.ib)
            && i[16..18] == Le16(e.cb) && i[18..20] == Le16(e.cRef) && i[20..24] == Zeros(4)
  {
    hide Le16, Le32, Le64;
    ZeroWord();
  }

  lemma SubnodeEntryPlaces(e: SlEntry)
    ensures var i := SlEntryImage(e);
            && |i| == 24 && i[0..4] == Le32(e.nid) && i[4..8] == Zeros(4) && i[8..16] == Le64(e.bidData)
            && i[16..24] == Le64(e.bidSub)
  {
    hide Le32;
    ZeroWord();
  }

  /** A block ends with its size, signature, checksum and id; an internal block begins with type, level and count. */
  lemma BlockPlaces(body: seq<Byte>, bid: Bid, ib: Ib)
    requires |body| < 0x1_0000
    ensures var b := BlockImage(body, bid, ib);
            var end := |b|;
            && end % 64 == 0 && |body| + 16 <= end < |body| + 80
            && b[..|body|] == body && b[|body|..end - 16] == Zeros(end - 16 - |body|)
            && b[end - 16..end - 14] == Le16(|body|) && SignedFor(ReadU16(b, end - 14), bid, ib)
            && b[end - 12..end - 8] == Le32(Crc.Checksum(body)) && b[end - 8..end] == Le64(bid)
  {
    hide Le16, Le32, Le64, ReadU16, BlockSig, SignedFor, Crc.Checksum, RoundBlockSize;
    var b, t := BlockImage(body, bid, ib), TrailerImage(TrailerFor(body, bid, ib));
    var end := |b|;
    SignatureBits(bid, ib);
    assert b[end - 16..end] == t;
    SubSlice(b, end - 16, end, 0, 2);
    SubSlice(b, end - 16, end, 2, 4);
    SubSlice(b, end - 16, end, 4, 8);
    SubSlice(b, end - 16, end, 8, 16);
    assert t[0..2] == Le16(|body|) && t[2..4] == Le16(BlockSig(bid, ib));
    assert t[4..8] == Le32(Crc.Checksum(body)) && t[8..16] == Le64(bid);
    ReadsBack16(b, end - 14, BlockSig(bid, ib));
  }

  lemma InternalPlaces(btype: Byte, cLevel: Byte, cEnt: UInt16, total: UInt32, entries: seq<Byte>)
    ensures var b := InternalBody(btype, cLevel, cEnt, total, entries);
            && b[0] == btype && b[1] == cLevel && b[2..4] == Le16(cEnt) && b[4..8] == Le32(total) && b[8..] == entries
  {
    hide Le16, Le32;
  }
}
