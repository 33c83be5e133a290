/** What a written file holds, where, and what its readers find in it. */
module ImageReader {
  import opened Bytes
  import opened Header
  import opened Image
  import opened ImageWriter
  import opened Ndb
  import opened Page
  import opened Nbt
  import opened NbtReader
  import opened NbtTree
  import opened BbtReader
  import opened Sorting
  import opened Wrappers
  import Crc

  ghost predicate Writable(blocks: seq<BlockSpec>, nodes: seq<NbtEntry>) {
    Sized(blocks, |nodes|) && DistinctKeys(blocks, SpecKey) && DistinctKeys(nodes, NidKey)
  }

  // ---- Every part lies where the plan put it ----

  lemma PartsPlaced(front: seq<Byte>, blocks: seq<BlockSpec>, pages: seq<seq<Byte>>)
    requires |front| == BLOCKS_START && forall k | 0 <= k < |pages| :: |pages[k]| == PAGE_SIZE
    ensures var file := Assembled(front, blocks, pages);
            && |file| == PageIb(PagesStart(blocks), |pages|)
            && StoredAt(file, 0, front)
            && StoredAt(file, BLOCKS_START, Flatten(BlockBytes(blocks)))
            && StoredAt(file, PagesStart(blocks), Flatten(pages))
  {
    hide Flatten, BlockBytes;
    AllBlocks(blocks);
    FlattenUniformLength(pages, PAGE_SIZE);
    var body, tail := Flatten(BlockBytes(blocks)), Flatten(pages);
    var file := Assembled(front, blocks, pages);
    assert file[0..|front|] == front;
    assert file[BLOCKS_START..BLOCKS_START + |body|] == body;
    assert file[PagesStart(blocks)..PagesStart(blocks) + |tail|] == tail;
  }

  lemma BlockPlaced(file: seq<Byte>, blocks: seq<BlockSpec>, i: nat)
    requires StoredAt(file, BLOCKS_START, Flatten(BlockBytes(blocks))) && i < |blocks|
    ensures StoredAt(file, BlockIb(blocks, i), blocks[i].encodedBlock)
  {
    var bs := BlockBytes(blocks);
    FlattenSlice(bs, i);
    var at := |Flatten(bs[..i])|;
    StoredPart(file, BLOCKS_START, Flatten(bs), at, at + |bs[i]|);
  }

  lemma PagePlaced(file: seq<Byte>, start: nat, pages: seq<seq<Byte>>, k: nat)
    requires StoredAt(file, start, Flatten(pages)) && k < |pages|
    requires forall i | 0 <= i < |pages| :: |pages[i]| == PAGE_SIZE
    ensures StoredAt(file, PageIb(start, k), pages[k])
  {
    hide Flatten;
    FlattenUniformSlice(pages, PAGE_SIZE, k);
    StoredPart(file, start, Flatten(pages), k * PAGE_SIZE, k * PAGE_SIZE + PAGE_SIZE);
  }

  /** Planned blocks follow one another without overlap, after the map and before the pages; `j` may be the end. */
  lemma BlocksInOrder(blocks: seq<BlockSpec>, i: nat, j: nat)
    requires i < j <= |blocks|
    ensures IB_AMAP + PAGE_SIZE == BLOCKS_START <= BlockIb(blocks, i)
    ensures BlockIb(blocks, i) + |blocks[i].encodedBlock| <= BlockIb(blocks, j) <= PagesStart(blocks)
  {
    hide BlockIb;
    BlockIbGrows(blocks, i, j);
    if j < |blocks| {
      BlockIbGrows(blocks, j, |blocks|);
    }
  }

  /** So do the planned pages, and the last one ends at the recorded end of file. */
  lemma PagesInOrder(blocks: seq<BlockSpec>, nodeCount: nat, k: nat)
    requires k < TreePages(BbtLeaves(|blocks|)) + TreePages(NbtLeaves(nodeCount))
    ensures HEADER_SIZE <= IB_AMAP && BLOCKS_START <= PagesStart(blocks) <= PageIb(PagesStart(blocks), k)
    ensures PageIb(PagesStart(blocks), k) + PAGE_SIZE == PageIb(PagesStart(blocks), k + 1) <= FileEnd(blocks, nodeCount)
    ensures k + 1 == TreePages(BbtLeaves(|blocks|)) + TreePages(NbtLeaves(nodeCount)) ==>
              PageIb(PagesStart(blocks), k + 1) == FileEnd(blocks, nodeCount)
  {
  }

  /** The pages of both trees for given arrangements of block entries, nodes and index entries. */
  ghost function PagesWith(blocks: seq<BlockSpec>, bes: seq<BbtEntry>, order: seq<NbtEntry>,
                           index: seq<BtEntry>): (pages: seq<seq<Byte>>)
    requires Sized(blocks, |order|) && |bes| == |blocks| && |index| <= BT_MAX
    ensures |pages| == TreePages(BbtLeaves(|blocks|)) + TreePages(NbtLeaves(|order|))
    ensures forall k | 0 <= k < |pages| :: |pages[k]| == PAGE_SIZE
  {
    BbtPages(bes, PagesStart(blocks))
    + NbtPagesWith(order, index, PagesStart(blocks), TreePages(BbtLeaves(|blocks|)))
  }

  /** The pages for distinct ids. */
  ghost function PagesOf(blocks: seq<BlockSpec>, nodes: seq<NbtEntry>): (pages: seq<seq<Byte>>)
    requires Sized(blocks, |nodes|)
    ensures |pages| == TreePages(BbtLeaves(|blocks|)) + TreePages(NbtLeaves(|nodes|))
    ensures forall k | 0 <= k < |pages| :: |pages[k]| == PAGE_SIZE
  {
    BbtPages(SortedCopy(BbtEntries(blocks), BbtKey), PagesStart(blocks))
    + NbtPages(SortedCopy(nodes, NidKey), PagesStart(blocks), TreePages(BbtLeaves(|blocks|)))
  }

  /** The parts of a written file, each at its planned offset. */
  ghost predicate Holds(file: seq<Byte>, blocks: seq<BlockSpec>, nodeCount: nat, pages: seq<seq<Byte>>)
    requires Sized(blocks, nodeCount)
  {
    var start := PagesStart(blocks);
    && |file| == FileEnd(blocks, nodeCount)
    && StoredAt(file, 0, HeaderImage(StateOf(|blocks|, nodeCount, start)))
    && StoredAt(file, IB_AMAP, AMapPage(|file|))
    && (forall i | 0 <= i < |blocks| :: StoredAt(file, BlockIb(blocks, i), blocks[i].encodedBlock))
    && (forall k | 0 <= k < |pages| :: StoredAt(file, PageIb(start, k), pages[k]))
  }

  lemma AssembledHolds(blocks: seq<BlockSpec>, nodeCount: nat, pages: seq<seq<Byte>>, file: seq<Byte>)
    requires Sized(blocks, nodeCount) && |pages| == TreePages(BbtLeaves(|blocks|)) + TreePages(NbtLeaves(nodeCount))
    requires forall k | 0 <= k < |pages| :: |pages[k]| == PAGE_SIZE
    requires var state := StateOf(|blocks|, nodeCount, PagesStart(blocks));
             file == Assembled(Front(HeaderImage(state), AMapPage(state.root.ibFileEof)), blocks, pages)
    ensures Holds(file, blocks, nodeCount, pages)
  {
    hide Flatten, BlockIb, PagesStart, HeaderImage, Assembled, AMapPage, StateOf, StoredAt;
    var start := PagesStart(blocks);
    var state := StateOf(|blocks|, nodeCount, start);
    PartsPlaced(Front(HeaderImage(state), AMapPage(state.root.ibFileEof)), blocks, pages);
    EndOfFile(blocks, nodeCount, start);
    FrontParts(file, HeaderImage(state), AMapPage(state.root.ibFileEof));
    forall i | 0 <= i < |blocks| ensures StoredAt(file, BlockIb(blocks, i), blocks[i].encodedBlock) {
      BlockPlaced(file, blocks, i);
    }
    forall k | 0 <= k < |pages| ensures StoredAt(file, PageIb(start, k), pages[k]) {
      PagePlaced(file, start, pages, k);
    }
  }

  /**
   The emission cursor reproduces the plan: every region of the written file is at its planned place, however the
   sorts arranged equal ids.
   */
  lemma PlanIsKept(blocks: seq<BlockSpec>, bes: seq<BbtEntry>, order: seq<NbtEntry>, index: seq<BtEntry>)
    requires Sized(blocks, |order|) && |bes| == |blocks| && |index| <= BT_MAX
    ensures Holds(ImageWith(blocks, bes, order, index), blocks, |order|, PagesWith(blocks, bes, order, index))
  {
    hide BbtPages, NbtPagesWith, Holds, PagesStart, HeaderImage, Assembled, AMapPage, StateOf, Front;
    AssembledHolds(blocks, |order|, PagesWith(blocks, bes, order, index), ImageWith(blocks, bes, order, index));
  }

  /** The same for distinct ids. */
  lemma SortedPlanIsKept(blocks: seq<BlockSpec>, nodes: seq<NbtEntry>)
    requires Sized(blocks, |nodes|)
    ensures Holds(ImageOf(blocks, nodes), blocks, |nodes|, PagesOf(blocks, nodes))
  {
    hide BbtPages, NbtPages, Holds, PagesStart, HeaderImage, Assembled, AMapPage, StateOf, Front, SortedCopy;
    BlocksFit(blocks, |nodes|);
    AssembledHolds(blocks, |nodes|, PagesOf(blocks, nodes), ImageOf(blocks, nodes));
  }

  lemma FrontParts(file: seq<Byte>, header: seq<Byte>, amap: seq<Byte>)
    requires |header| == HEADER_SIZE && |amap| == PAGE_SIZE && StoredAt(file, 0, Front(header, amap))
    ensures StoredAt(file, 0, header) && StoredAt(file, IB_AMAP, amap)
  {
    var front := Front(header, amap);
    StoredPart(file, 0, front, 0, HEADER_SIZE);
    StoredPart(file, 0, front, IB_AMAP, BLOCKS_START);
    assert front[0..HEADER_SIZE] == header && front[IB_AMAP..BLOCKS_START] == amap;
  }

  // ---- The header's roots ----

  function NbtRoot(file: seq<Byte>): Bref
    requires |file| >= HEADER_SIZE
  {
    Bref(ReadU64(file, 0xD8), ReadU64(file, 0xE0))
  }

  function BbtRoot(file: seq<Byte>): Bref
    requires |file| >= HEADER_SIZE
  {
    Bref(ReadU64(file, 0xE8), ReadU64(file, 0xF0))
  }

  function NextPageBid(file: seq<Byte>): Bid
    requires |file| >= HEADER_SIZE
  {
    ReadU64(file, 0x20)
  }

  function NextBlockBid(file: seq<Byte>): Bid
    requires |file| >= HEADER_SIZE
  {
    ReadU64(file, 0x204)
  }

  lemma HeaderAtFront(file: seq<Byte>, s: WriterState)
    requires |s.rgnid| == 32 && StoredAt(file, 0, HeaderImage(s))
    ensures |file| >= HEADER_SIZE
    ensures ReadU64(file, 0xB8) == s.root.ibFileEof && ReadU64(file, 0xC0) == s.root.ibAMapLast
    ensures ReadU64(file, 0xC8) == s.root.cbAMapFree
    ensures NbtRoot(file) == s.root.brefNbt && BbtRoot(file) == s.root.brefBbt
    ensures NextPageBid(file) == s.bidNextP && NextBlockBid(file) == s.bidNextB
  {
    hide HeaderImage, ReadU64, StoredAt;
    var h := HeaderImage(s);
    StoredLength(file, 0, h);
    HeaderReadsBack(s);
    SameField(file, h, 0xB8);
    SameField(file, h, 0xC0);
    SameField(file, h, 0xC8);
    SameField(file, h, 0xD8);
    SameField(file, h, 0xE0);
    SameField(file, h, 0xE8);
    SameField(file, h, 0xF0);
    SameField(file, h, 0x20);
    SameField(file, h, 0x204);
  }

  lemma FrontIsHeader(file: seq<Byte>, h: seq<Byte>)
    requires |h| == HEADER_SIZE && StoredAt(file, 0, h)
    ensures |file| >= HEADER_SIZE && file[..HEADER_SIZE] == h
  {
    assert file[0..HEADER_SIZE] == file[..HEADER_SIZE];
  }

  lemma SameField(file: seq<Byte>, part: seq<Byte>, off: nat)
    requires StoredAt(file, 0, part) && off + 8 <= |part|
    ensures off + 8 <= |file| && ReadU64(file, off) == ReadU64(part, off)
  {
    assert forall i | 0 <= i < |part| :: file[i] == file[0..|part|][i] == part[i];
  }

  /**
   The header records the true end of the file, its roots, the free space its allocation map shows, and the counters
   for the next page and the next block.
   */
  lemma HeaderIsTrue(blocks: seq<BlockSpec>, nodeCount: nat, pages: seq<seq<Byte>>, file: seq<Byte>)
    requires Sized(blocks, nodeCount) && Holds(file, blocks, nodeCount, pages)
    ensures |file| >= HEADER_SIZE && ReadU64(file, 0xB8) == |file|
    ensures ReadU64(file, 0xC8) == BYTES_PER_AMAP_BIT * ClearBits(Bitmap(AllocatedUnits(IB_AMAP, |file|)), AMAP_BITS)
    ensures StoredAt(file, IB_AMAP, Bitmap(AllocatedUnits(IB_AMAP, |file|)))
    ensures var start, b, n := PagesStart(blocks), BbtLeaves(|blocks|), NbtLeaves(nodeCount);
            && NbtRoot(file) == PageRef(start, RootPage(n, TreePages(b)))
            && BbtRoot(file) == PageRef(start, RootPage(b, 0))
            && NextPageBid(file) == PageBid(TreePages(b) + TreePages(n))
            && NextBlockBid(file) == MakeDataBid(|blocks| + 1)
    ensures FreshHeader(file[..HEADER_SIZE])
  {
    hide HeaderImage, PagesStart, CbAMapFreeFor, Bitmap, SealedPage, NbtRoot, BbtRoot, NextPageBid, NextBlockBid,
         ReadU64, ClearBits, StoredAt, FreshHeader;
    EndOfFile(blocks, nodeCount, PagesStart(blocks));
    HeaderAtFront(file, StateOf(|blocks|, nodeCount, PagesStart(blocks)));
    StateIsFresh(|blocks|, nodeCount, PagesStart(blocks));
    FrontIsHeader(file, HeaderImage(StateOf(|blocks|, nodeCount, PagesStart(blocks))));
    FreeFigureMatchesMap(|file|);
    MapInPage(file, |file|);
  }

  /**
   Everything a fresh file's header says besides its roots and counters, at its place: magic numbers, versions, the
   starting id of every node type, empty free maps, the cipher of the data blocks, and both checksums.
   */
  ghost predicate FreshHeader(h: seq<Byte>) {
    && |h| == 564
    && ReadU32(h, 0x00) == 0x4E444221 && ReadU16(h, 0x08) == 0x4D53 && ReadU16(h, 0x0A) == 23 && ReadU16(h, 0x0C) == 19
    && h[0x0E] == 1 && h[0x0F] == 1 && h[0x10..0x20] == Zeros(16) && ReadU32(h, 0x28) == 1
    && (forall t | 0 <= t < 32 ::
          && ReadU32(h, 0x2C + 4 * t) % 32 == t
          && ReadU32(h, 0x2C + 4 * t) / 32
             == if t == 3 then 0x4000 else if t == 4 then 0x10000 else if t == 8 then 0x8000 else 0x400)
    && h[0xAC..0xB8] == Zeros(12) && ReadU64(h, 0xC0) == 0x4400 && ReadU64(h, 0xD0) == 0
    && h[0xF8] == 2 && h[0xF9..0x100] == Zeros(7) && (forall i | 0x100 <= i < 0x200 :: h[i] == 0xFF)
    && h[0x200] == 0x80 && h[0x201] == 1 && h[0x202..0x204] == Zeros(2) && h[0x210..0x234] == Zeros(36)
    && ReadU32(h, 0x04) == Crc.Checksum(h[8..8 + 471]) && ReadU32(h, 0x20C) == Crc.Checksum(h[8..8 + 516])
  }

  lemma FreshWord(t: nat)
    requires t < 32
    ensures FreshRgnid()[t] % 32 == t
    ensures FreshRgnid()[t] / 32
            == if t == 3 then 0x4000 else if t == 4 then 0x10000 else if t == 8 then 0x8000 else 0x400
  {
  }

  lemma StateIsFresh(blockCount: nat, nodeCount: nat, start: nat)
    requires blockCount <= 400 && nodeCount <= 300 && start + PAGE_SIZE * 42 < 0x1_0000_0000_0000_0000
    ensures FreshHeader(HeaderImage(StateOf(blockCount, nodeCount, start)))
  {
    hide HeaderImage, FreshRgnid, ReadU16, ReadU32, ReadU64, CbAMapFreeFor, Crc.Checksum;
    var s := StateOf(blockCount, nodeCount, start);
    var h := HeaderImage(s);
    HeaderReadsBack(s);
    PreambleReadsBack(s);
    ReservedAreZero(s);
    RestReadsBack(s);
    forall t | 0 <= t < 32
      ensures ReadU32(h, 0x2C + 4 * t) % 32 == t
      ensures ReadU32(h, 0x2C + 4 * t) / 32
              == if t == 3 then 0x4000 else if t == 4 then 0x10000 else if t == 8 then 0x8000 else 0x400
    {
      NidReadsBack(s, t);
      FreshWord(t);
    }
  }

  lemma MapInPage(file: seq<Byte>, eof: nat)
    requires StoredAt(file, IB_AMAP, AMapPage(eof))
    ensures StoredAt(file, IB_AMAP, Bitmap(AllocatedUnits(IB_AMAP, eof)))
  {
    hide Bitmap;
    var bitmap := Bitmap(AllocatedUnits(IB_AMAP, eof));
    StoredPart(file, IB_AMAP, AMapPage(eof), 0, PAGE_BODY_SIZE);
    assert AMapPage(eof)[0..PAGE_BODY_SIZE] == bitmap;
  }

  // ---- The node B-tree ----

  lemma CutIsChunk(es: seq<NbtEntry>, i: nat)
    requires i < LeafCount(|es|)
    ensures Cut(es, i * 15, i * 15 + 15) == Chunk(es, i)
  {
  }

  /** The reference of the node B-tree's index page, when it has one. */
  function NbtIndexRef(leaves: nat, start: nat, first: nat): Bref
    requires first <= 21 && leaves <= 20 && start + PAGE_SIZE * 42 < 0x1_0000_0000_0000_0000
  {
    PageRef(start, if leaves > 1 then first + leaves else first)
  }

  ghost predicate NbtPagesStored(file: seq<Byte>, es: seq<NbtEntry>, start: nat, first: nat)
    requires |es| <= 300 && first <= 21 && start + PAGE_SIZE * 42 < 0x1_0000_0000_0000_0000
  {
    forall k | 0 <= k < TreePages(NbtLeaves(|es|)) ::
      StoredAt(file, PageIb(start, first + k), NbtPages(es, start, first)[k])
  }

  /** Pages of a node B-tree that lie at consecutive places are a stored tree. */
  lemma PagesAreTree(file: seq<Byte>, es: seq<NbtEntry>, start: nat, first: nat)
    requires |es| <= 300 && first <= 21 && BLOCKS_START <= start && start + PAGE_SIZE * 42 < 0x1_0000_0000_0000_0000
    requires NbtPagesStored(file, es, start, first)
    ensures var n := NbtLeaves(|es|); TreeStored(file, es, NbtBrefs(n, start, first), NbtIndexRef(n, start, first))
  {
    hide LeafPage, IndexPage, StoredAt, Chunk, Cut, TreeStored;
    var n := NbtLeaves(|es|);
    var refs, index, pages := NbtBrefs(n, start, first), NbtIndexRef(n, start, first), NbtPages(es, start, first);
    forall i | 0 <= i < LeafCount(|es|)
      ensures StoredAt(file, refs[i].ib, LeafPage(Chunk(es, i), refs[i])) && refs[i] != NO_CHILD
    {
      assert pages[i] == NbtLeafAt(es, start, first, i);
      CutIsChunk(es, i);
    }
    if es == [] {
      assert pages[0] == NbtLeafAt(es, start, first, 0);
      NothingCutFrom(es);
    }
    if n > 1 {
      assert pages[n] == NbtIndexPage(es, start, first);
    }
    IsTreeStored(file, es, refs, index);
  }

  lemma NothingCutFrom(es: seq<NbtEntry>)
    requires es == []
    ensures Cut(es, 0, 15) == []
  {
  }

  lemma IsTreeStored(file: seq<Byte>, es: seq<NbtEntry>, brefs: seq<Bref>, index: Bref)
    requires |brefs| >= 1 && |brefs| >= LeafCount(|es|) && LeafCount(|es|) <= BT_MAX
    requires es == [] ==> StoredAt(file, brefs[0].ib, LeafPage([], brefs[0]))
    requires forall i | 0 <= i < LeafCount(|es|) ::
               StoredAt(file, brefs[i].ib, LeafPage(Chunk(es, i), brefs[i])) && brefs[i] != NO_CHILD
    requires LeafCount(|es|) > 1 ==> StoredAt(file, index.ib, IndexPage(IndexEntries(es, brefs), 1, PTYPE_NBT, index))
    ensures TreeStored(file, es, brefs, index)
  {
    hide LeafPage, IndexPage, StoredAt, Chunk;
  }

  /** Node B-tree pages that follow `front` in the file are stored from page number `|front|` on. */
  lemma TailStored(file: seq<Byte>, front: seq<seq<Byte>>, es: seq<NbtEntry>, start: nat)
    requires |es| <= 300 && |front| <= 21 && start + PAGE_SIZE * 42 < 0x1_0000_0000_0000_0000
    requires var pages := front + NbtPages(es, start, |front|);
             forall j | 0 <= j < |pages| :: StoredAt(file, PageIb(start, j), pages[j])
    ensures NbtPagesStored(file, es, start, |front|)
  {
    hide StoredAt, PageIb, NbtPages;
    var tail := NbtPages(es, start, |front|);
    forall k | 0 <= k < |tail| ensures StoredAt(file, PageIb(start, |front| + k), tail[k]) {
      assert (front + tail)[|front| + k] == tail[k];
    }
  }

  lemma NbtIsStored(blocks: seq<BlockSpec>, nodes: seq<NbtEntry>, file: seq<Byte>)
    requires Sized(blocks, |nodes|) && Holds(file, blocks, |nodes|, PagesOf(blocks, nodes))
    ensures var start, first, n := PagesStart(blocks), TreePages(BbtLeaves(|blocks|)), NbtLeaves(|nodes|);
            TreeStored(file, SortedCopy(nodes, NidKey), NbtBrefs(n, start, first), NbtIndexRef(n, start, first))
  {
    hide StoredAt, PagesStart, Holds, PagesOf, BbtLeaves, NbtLeaves, TreeStored, SortedCopy, BlockIb, NbtPagesStored;
    StartIsHigh(blocks);
    NbtPagesAreStored(blocks, nodes, file);
    PagesAreTree(file, SortedCopy(nodes, NidKey), PagesStart(blocks), TreePages(BbtLeaves(|blocks|)));
  }

  lemma NbtPagesAreStored(blocks: seq<BlockSpec>, nodes: seq<NbtEntry>, file: seq<Byte>)
    requires Sized(blocks, |nodes|) && Holds(file, blocks, |nodes|, PagesOf(blocks, nodes))
    ensures NbtPagesStored(file, SortedCopy(nodes, NidKey), PagesStart(blocks), TreePages(BbtLeaves(|blocks|)))
  {
    hide NbtPages, BbtPages, StoredAt, PagesStart, BbtLeaves, NbtLeaves, SortedCopy, Ascending, PageIb, BlockIb,
         BbtEntries, HeaderImage, StateOf, AMapPage, FileEnd, NbtPagesStored;
    BlocksFit(blocks, |nodes|);
    TailStored(file, BbtPages(SortedCopy(BbtEntries(blocks), BbtKey), PagesStart(blocks)), SortedCopy(nodes, NidKey),
               PagesStart(blocks));
  }

  lemma RootIs(es: seq<NbtEntry>, start: nat, first: nat)
    requires |es| <= 300 && first <= 21 && start + PAGE_SIZE * 42 < 0x1_0000_0000_0000_0000
    ensures var n := NbtLeaves(|es|);
            RootOf(es, NbtBrefs(n, start, first), NbtIndexRef(n, start, first)) == PageRef(start, RootPage(n, first))
  {
  }

  lemma StartIsHigh(blocks: seq<BlockSpec>)
    ensures PagesStart(blocks) >= BLOCKS_START
  {
  }

  /**
   Following the node B-tree root of the header of a written file: the listing is the NID-sorted node list, and
   looking any NID up gives exactly the node with that NID, or nothing.
   */
  lemma NodesAreFound(blocks: seq<BlockSpec>, nodes: seq<NbtEntry>, file: seq<Byte>, strictCrc: bool, target: Nid)
    requires Writable(blocks, nodes) && file == ImageOf(blocks, nodes)
    ensures |file| >= HEADER_SIZE
    ensures Listed(file, NbtRoot(file), strictCrc) == Success(SortedCopy(nodes, NidKey))
    ensures var found := Find(file, NbtRoot(file), target, strictCrc);
            && found.Success?
            && (found.value.Some? ==> found.value.value in nodes && found.value.value.nid == target)
            && (found.value.None? ==> forall e | e in nodes :: e.nid != target)
  {
    hide ImageOf, TreeStored, Find, Listed, ValidTree, NbtRoot, Holds, StrictlyAscending, PagesStart, RootOf;
    SortedPlanIsKept(blocks, nodes);
    HeaderIsTrue(blocks, |nodes|, PagesOf(blocks, nodes), file);
    NbtIsStored(blocks, nodes, file);
    var start, first, n := PagesStart(blocks), TreePages(BbtLeaves(|blocks|)), NbtLeaves(|nodes|);
    var refs, index := NbtBrefs(n, start, first), NbtIndexRef(n, start, first);
    RootIs(SortedCopy(nodes, NidKey), start, first);
    BuiltTreeFinds(file, nodes, refs, index, strictCrc, target);
    SortedIsUnique(nodes, SortedCopy(nodes, NidKey), NidKey);
    TreeIsValid(file, SortedCopy(nodes, NidKey), refs, index, strictCrc);
  }

  // ---- The block B-tree ----

  lemma BbtIsStored(blocks: seq<BlockSpec>, nodeCount: nat, bes: seq<BbtEntry>, rest: seq<seq<Byte>>, file: seq<Byte>)
    requires Sized(blocks, nodeCount) && |bes| == |blocks|
    requires Holds(file, blocks, nodeCount, BbtPages(bes, PagesStart(blocks)) + rest)
    ensures BbtStored(file, bes, PagesStart(blocks))
  {
    hide BbtLeafPage, IndexPage, HeaderImage, StoredAt, PagesStart, StateOf, AMapPage, BlockIb, FileEnd, PageIb;
    var start := PagesStart(blocks);
    var pages := BbtPages(bes, start) + rest;
    forall i | 0 <= i < BbtLeaves(|bes|) ensures StoredAt(file, PageIb(start, i), BbtLeafAt(bes, start, i)) {
      assert pages[i] == BbtLeafAt(bes, start, i);
      assert StoredAt(file, PageIb(start, i), pages[i]);
    }
    if BbtLeaves(|bes|) > 1 {
      assert pages[BbtLeaves(|bes|)] == BbtIndexPage(bes, start);
      assert StoredAt(file, PageIb(start, BbtLeaves(|bes|)), pages[BbtLeaves(|bes|)]);
    }
  }

  lemma EntryIb(blocks: seq<BlockSpec>, i: nat)
    requires i < |blocks| && BlockIb(blocks, |blocks|) < 0x1_0000_0000_0000_0000
    ensures BbtEntryFor(blocks, i).bref.ib == BlockIb(blocks, i)
  {
    hide BlockIb;
  }

  /** Every block has its entry among those the walk from the header lists, and lies at the offset it names. */
  ghost predicate ListsBlocks(file: seq<Byte>, blocks: seq<BlockSpec>, bes: seq<BbtEntry>)
    requires BlockIb(blocks, |blocks|) < 0x1_0000_0000_0000_0000
  {
    && |file| >= HEADER_SIZE && Walk(file, BbtRoot(file).ib) == Success(bes)
    && forall i | 0 <= i < |blocks| ::
         && BbtEntryFor(blocks, i) in bes
         && StoredAt(file, BbtEntryFor(blocks, i).bref.ib, blocks[i].encodedBlock)
  }

  lemma HeldBlocksAreListed(blocks: seq<BlockSpec>, nodeCount: nat, bes: seq<BbtEntry>, rest: seq<seq<Byte>>,
                            file: seq<Byte>)
    requires Sized(blocks, nodeCount) && BlockIb(blocks, |blocks|) < 0x1_0000_0000_0000_0000
    requires |bes| == |blocks| && multiset(bes) == multiset(BbtEntries(blocks))
    requires Holds(file, blocks, nodeCount, BbtPages(bes, PagesStart(blocks)) + rest)
    ensures ListsBlocks(file, blocks, bes)
  {
    hide Walk, BbtRoot, PagesStart, StoredAt, BlockIb, BbtStored, HeaderImage, BbtPages, BbtEntryFor, FileEnd,
         AMapPage, StateOf;
    HeaderIsTrue(blocks, nodeCount, BbtPages(bes, PagesStart(blocks)) + rest, file);
    BbtIsStored(blocks, nodeCount, bes, rest, file);
    StoredTreeWalks(file, bes, PagesStart(blocks));
    SameElements(BbtEntries(blocks), bes);
    forall i | 0 <= i < |blocks|
      ensures BbtEntryFor(blocks, i) in bes && StoredAt(file, BbtEntryFor(blocks, i).bref.ib, blocks[i].encodedBlock)
    {
      assert BbtEntries(blocks)[i] == BbtEntryFor(blocks, i);
      EntryIb(blocks, i);
    }
  }

  /**
   Walking the block B-tree from the header of a written file lists every block once, in the order of the sort, at
   the offset where it lies -- blocks that share an id included.
   */
  lemma BlocksAreListed(blocks: seq<BlockSpec>, bes: seq<BbtEntry>, order: seq<NbtEntry>, index: seq<BtEntry>,
                        file: seq<Byte>)
    requires Sized(blocks, |order|) && BlockIb(blocks, |blocks|) < 0x1_0000_0000_0000_0000
    requires |bes| == |blocks| && multiset(bes) == multiset(BbtEntries(blocks)) && |index| <= BT_MAX
    requires file == ImageWith(blocks, bes, order, index)
    ensures ListsBlocks(file, blocks, bes)
  {
    hide ImageWith, Holds, ListsBlocks, BbtPages, NbtPagesWith, PagesStart, BlockIb, BbtEntries;
    PlanIsKept(blocks, bes, order, index);
    HeldBlocksAreListed(blocks, |order|, bes,
                        NbtPagesWith(order, index, PagesStart(blocks), TreePages(BbtLeaves(|blocks|))), file);
  }

  /** The same for distinct ids. */
  lemma SortedBlocksAreListed(blocks: seq<BlockSpec>, nodes: seq<NbtEntry>, file: seq<Byte>)
    requires Writable(blocks, nodes) && BlockIb(blocks, |blocks|) < 0x1_0000_0000_0000_0000
    requires file == ImageOf(blocks, nodes)
    ensures ListsBlocks(file, blocks, SortedCopy(BbtEntries(blocks), BbtKey))
  {
    hide ImageOf, Holds, ListsBlocks, BbtPages, NbtPages, PagesStart, BlockIb, BbtEntries, SortedCopy;
    SortedPlanIsKept(blocks, nodes);
    HeldBlocksAreListed(blocks, |nodes|, SortedCopy(BbtEntries(blocks), BbtKey),
                        NbtPages(SortedCopy(nodes, NidKey), PagesStart(blocks), TreePages(BbtLeaves(|blocks|))), file);
  }
}
