/**
 The whole file: writeM5Pst plans an offset for every page and block with one cursor, builds the pages, and then
 writes everything through a second cursor (src/writer.cpp).
 */
module Image {
  import opened Bytes
  import opened Header
  import opened Ndb
  import opened Page
  import opened Nbt
  import opened Sorting

  const BLOCKS_START: nat := 0x4600

  /** A finished block and the logical size its B-tree entry records. */
  datatype BlockSpec = BlockSpec(bid: Bid, encodedBlock: seq<Byte>, cb: UInt16)

  datatype ImageError = TooManyBlocks | TooManyNodes

  ghost const BbtKey: BbtEntry -> int := (e: BbtEntry) => e.bref.bid
  ghost const SpecKey: BlockSpec -> int := (b: BlockSpec) => b.bid

  // ---- The plan ----

  function BlockBytes(blocks: seq<BlockSpec>): (bs: seq<seq<Byte>>)
    ensures |bs| == |blocks| && forall i | 0 <= i < |bs| :: bs[i] == blocks[i].encodedBlock
  {
    seq(|blocks|, i requires 0 <= i < |blocks| => blocks[i].encodedBlock)
  }

  function BlockIb(blocks: seq<BlockSpec>, i: nat): nat
    requires i <= |blocks|
  {
    BLOCKS_START + |Flatten(BlockBytes(blocks)[..i])|
  }

  function AlignToPage(v: nat): (r: nat)
    ensures r % PAGE_SIZE == 0 && v <= r < v + PAGE_SIZE
  {
    var units, rest := (v + (PAGE_SIZE - 1)) / PAGE_SIZE, (v + (PAGE_SIZE - 1)) % PAGE_SIZE;
    assert v + (PAGE_SIZE - 1) == units * PAGE_SIZE + rest;
    units * PAGE_SIZE
  }

  /** Where the B-tree pages begin. */
  function PagesStart(blocks: seq<BlockSpec>): nat {
    AlignToPage(BlockIb(blocks, |blocks|))
  }

  /** How many leaves of `cap` entries; an empty tree still has one. */
  function BbtLeaves(n: nat): (leaves: nat)
    ensures leaves >= 1 && (n <= 400 ==> leaves <= 20)
  {
    if n == 0 then 1 else (n + 19) / 20
  }

  function NbtLeaves(n: nat): (leaves: nat)
    ensures leaves >= 1 && (n <= 300 ==> leaves <= 20)
  {
    if n == 0 then 1 else (n + 14) / 15
  }

  /** Leaves, and an index page above them when there are several. */
  function TreePages(leaves: nat): nat {
    leaves + if leaves > 1 then 1 else 0
  }

  function PageIb(start: nat, k: nat): nat {
    start + PAGE_SIZE * k
  }

  /** Page ids continue from the one reserved for the allocation map, in the order the pages are laid out. */
  function PageBid(k: nat): Bid
    requires k < 0x1000
  {
    0x0A + 4 * k
  }

  function FileEnd(blocks: seq<BlockSpec>, nodeCount: nat): nat {
    PageIb(PagesStart(blocks), TreePages(BbtLeaves(|blocks|)) + TreePages(NbtLeaves(nodeCount)))
  }

  /** Within the caps, and every offset (of at most 42 pages) fits the 64-bit fields. */
  ghost predicate Sized(blocks: seq<BlockSpec>, nodeCount: nat) {
    |blocks| <= 400 && nodeCount <= 300 && PagesStart(blocks) + PAGE_SIZE * 42 < 0x1_0000_0000_0000_0000
  }

  /** The reference of page number `k`. */
  function PageRef(start: nat, k: nat): Bref
    requires k <= 42 && PageIb(start, k) < 0x1_0000_0000_0000_0000
  {
    Bref(PageBid(k), PageIb(start, k))
  }

  // ---- The pages ----

  /** Entries `lo` to `hi`, as far as they exist. */
  function Cut<T>(es: seq<T>, lo: nat, hi: nat): (c: seq<T>)
    requires lo <= hi
    ensures |c| <= hi - lo
  {
    var a := if lo < |es| then lo else |es|;
    var b := if hi < |es| then hi else |es|;
    es[a..b]
  }

  /** The B-tree entry of block `i`; every block is counted twice, as the source does. */
  function BbtEntryFor(blocks: seq<BlockSpec>, i: nat): BbtEntry
    requires i < |blocks| && BlockIb(blocks, |blocks|) < 0x1_0000_0000_0000_0000
  {
    BlockIbGrows(blocks, i, |blocks|);
    BbtEntry(Bref(blocks[i].bid, BlockIb(blocks, i)), blocks[i].cb, 2)
  }

  function BbtEntries(blocks: seq<BlockSpec>): (es: seq<BbtEntry>)
    requires BlockIb(blocks, |blocks|) < 0x1_0000_0000_0000_0000
    ensures |es| == |blocks| && forall i | 0 <= i < |es| :: es[i] == BbtEntryFor(blocks, i)
  {
    seq(|blocks|, i requires 0 <= i < |blocks| => BbtEntryFor(blocks, i))
  }

  lemma BlockIbGrows(blocks: seq<BlockSpec>, i: nat, j: nat)
    requires i <= j <= |blocks|
    ensures BLOCKS_START <= BlockIb(blocks, i) <= BlockIb(blocks, j)
    ensures i < j ==> BlockIb(blocks, i) + |blocks[i].encodedBlock| <= BlockIb(blocks, j)
  {
    var bs := BlockBytes(blocks);
    assert bs[..j] == bs[..i] + bs[i..j];
    FlattenAppend(bs[..i], bs[i..j]);
    if i < j {
      assert bs[i..j] == [bs[i]] + bs[i + 1..j];
      FlattenAppend([bs[i]], bs[i + 1..j]);
      FlattenOne(bs[i]);
    }
  }

  function BbtLeafPage(es: seq<BbtEntry>, at: Bref): (s: seq<Byte>)
    requires |es| <= BBT_LEAF_MAX
    ensures |s| == PAGE_SIZE
  {
    SealedPage(BtBody(BbtImages(es), BBT_LEAF_SHAPE), PTYPE_BBT, at.bid, at.ib)
  }

  function BbtLeafAt(es: seq<BbtEntry>, start: nat, i: nat): (s: seq<Byte>)
    requires i < 20 && start + PAGE_SIZE * 42 < 0x1_0000_0000_0000_0000
    ensures |s| == PAGE_SIZE
  {
    BbtLeafPage(Cut(es, i * 20, i * 20 + 20), PageRef(start, i))
  }

  /** The leaf pages of the block B-tree; its pages are numbered from 0. */
  function BbtLeafPages(es: seq<BbtEntry>, start: nat): (ps: seq<seq<Byte>>)
    requires |es| <= 400 && start + PAGE_SIZE * 42 < 0x1_0000_0000_0000_0000
    ensures |ps| == BbtLeaves(|es|) && forall i | 0 <= i < |ps| :: ps[i] == BbtLeafAt(es, start, i)
  {
    seq(BbtLeaves(|es|), i requires 0 <= i < BbtLeaves(|es|) => BbtLeafAt(es, start, i))
  }

  function BbtIndexEntries(es: seq<BbtEntry>, start: nat): (ies: seq<BtEntry>)
    requires 0 < |es| <= 400 && start + PAGE_SIZE * 42 < 0x1_0000_0000_0000_0000
    ensures |ies| == BbtLeaves(|es|)
    ensures forall i | 0 <= i < |ies| :: ies[i] == BtEntry(es[i * 20].bref.bid, PageRef(start, i))
  {
    seq(BbtLeaves(|es|), i requires 0 <= i < BbtLeaves(|es|) => BtEntry(es[i * 20].bref.bid, PageRef(start, i)))
  }

  function BbtIndexPage(es: seq<BbtEntry>, start: nat): (s: seq<Byte>)
    requires 0 < |es| <= 400 && start + PAGE_SIZE * 42 < 0x1_0000_0000_0000_0000
    ensures |s| == PAGE_SIZE
  {
    IndexPage(BbtIndexEntries(es, start), 1, PTYPE_BBT, PageRef(start, BbtLeaves(|es|)))
  }

  function BbtPages(es: seq<BbtEntry>, start: nat): (ps: seq<seq<Byte>>)
    requires |es| <= 400 && start + PAGE_SIZE * 42 < 0x1_0000_0000_0000_0000
    ensures |ps| == TreePages(BbtLeaves(|es|)) <= 21
    ensures forall i | 0 <= i < |ps| :: |ps[i]| == PAGE_SIZE
  {
    BbtLeafPages(es, start) + if BbtLeaves(|es|) > 1 then [BbtIndexPage(es, start)] else []
  }

  /** The references of the node B-tree's leaves; its pages are numbered from `first`. */
  function NbtBrefs(leaves: nat, start: nat, first: nat): (refs: seq<Bref>)
    requires first <= 21 && leaves <= 20 && start + PAGE_SIZE * 42 < 0x1_0000_0000_0000_0000
    ensures |refs| == leaves && forall i | 0 <= i < leaves :: refs[i] == PageRef(start, first + i)
  {
    seq(leaves, i requires 0 <= i < leaves => PageRef(start, first + i))
  }

  function NbtLeafAt(es: seq<NbtEntry>, start: nat, first: nat, i: nat): (s: seq<Byte>)
    requires i < 20 && first <= 21 && start + PAGE_SIZE * 42 < 0x1_0000_0000_0000_0000
    ensures |s| == PAGE_SIZE
  {
    LeafPage(Cut(es, i * 15, i * 15 + 15), PageRef(start, first + i))
  }

  function NbtLeafPages(es: seq<NbtEntry>, start: nat, first: nat): (ps: seq<seq<Byte>>)
    requires |es| <= 300 && first <= 21 && start + PAGE_SIZE * 42 < 0x1_0000_0000_0000_0000
    ensures |ps| == NbtLeaves(|es|) && forall i | 0 <= i < |ps| :: ps[i] == NbtLeafAt(es, start, first, i)
  {
    seq(NbtLeaves(|es|), i requires 0 <= i < NbtLeaves(|es|) => NbtLeafAt(es, start, first, i))
  }

  function NbtIndexPage(es: seq<NbtEntry>, start: nat, first: nat): (s: seq<Byte>)
    requires 0 < |es| <= 300 && first <= 21 && start + PAGE_SIZE * 42 < 0x1_0000_0000_0000_0000
    ensures |s| == PAGE_SIZE
  {
    IndexPage(IndexEntries(es, NbtBrefs(NbtLeaves(|es|), start, first)), 1, PTYPE_NBT,
              PageRef(start, first + NbtLeaves(|es|)))
  }

  function NbtPages(es: seq<NbtEntry>, start: nat, first: nat): (ps: seq<seq<Byte>>)
    requires |es| <= 300 && first <= 21 && start + PAGE_SIZE * 42 < 0x1_0000_0000_0000_0000
    ensures |ps| == TreePages(NbtLeaves(|es|)) <= 21
    ensures forall i | 0 <= i < |ps| :: |ps[i]| == PAGE_SIZE
  {
    NbtLeafPages(es, start, first) + if NbtLeaves(|es|) > 1 then [NbtIndexPage(es, start, first)] else []
  }

  /** The pages for one arrangement of the entries and one of the index entries. */
  function NbtPagesWith(es: seq<NbtEntry>, index: seq<BtEntry>, start: nat, first: nat): (ps: seq<seq<Byte>>)
    requires |es| <= 300 && |index| <= BT_MAX && first <= 21 && start + PAGE_SIZE * 42 < 0x1_0000_0000_0000_0000
  {
    NbtLeafPages(es, start, first)
    + if NbtLeaves(|es|) > 1 then [IndexPage(index, 1, PTYPE_NBT, PageRef(start, first + NbtLeaves(|es|)))] else []
  }

  // ---- The header ----

  /** The first free index of every node type in a fresh store. */
  function FreshRgnid(): (r: seq<Nid>)
    ensures |r| == 32
  {
    seq(32, t requires 0 <= t < 32 =>
          (if t == 0x03 then 0x4000 else if t == 0x04 then 0x10000 else if t == 0x08 then 0x8000 else 0x400) * 0x20 + t)
  }

  /** Number of the root page of a tree whose pages are numbered from `first`. */
  function RootPage(leaves: nat, first: nat): nat {
    if leaves > 1 then first + leaves else first
  }

  function StateOf(blockCount: nat, nodeCount: nat, start: nat): (s: WriterState)
    requires blockCount <= 400 && nodeCount <= 300 && start + PAGE_SIZE * 42 < 0x1_0000_0000_0000_0000
    ensures |s.rgnid| == 32
  {
    var b, n := BbtLeaves(blockCount), NbtLeaves(nodeCount);
    var pages := TreePages(b) + TreePages(n);
    var eof := PageIb(start, pages);
    WriterState(
      Root(eof, IB_AMAP, CbAMapFreeFor(eof), 0, PageRef(start, RootPage(n, TreePages(b))),
      PageRef(start, RootPage(b, 0)), 0x02), PageBid(pages), MakeDataBid(blockCount + 1), 1, FreshRgnid(), 0, 0, 0)
  }

  function AMapPage(eof: nat): (s: seq<Byte>)
    ensures |s| == PAGE_SIZE
  {
    SealedPage(Bitmap(AllocatedUnits(IB_AMAP, eof)), PTYPE_AMAP, IB_AMAP, IB_AMAP)
  }

  // ---- The file ----

  /** Header, gap, allocation map. */
  function Front(header: seq<Byte>, amap: seq<Byte>): (s: seq<Byte>)
    requires |header| == HEADER_SIZE && |amap| == PAGE_SIZE
    ensures |s| == BLOCKS_START
  {
    header + Zeros(IB_AMAP - HEADER_SIZE) + amap
  }

  function Assembled(front: seq<Byte>, blocks: seq<BlockSpec>, pages: seq<seq<Byte>>): seq<Byte> {
    front + Flatten(BlockBytes(blocks)) + Zeros(PagesStart(blocks) - BlockIb(blocks, |blocks|)) + Flatten(pages)
  }

  /** The file for given arrangements of the block entries, the nodes and the index entries. */
  ghost function ImageWith(blocks: seq<BlockSpec>, bes: seq<BbtEntry>, nodes: seq<NbtEntry>,
                           index: seq<BtEntry>): seq<Byte>
    requires Sized(blocks, |nodes|) && |bes| == |blocks| && |index| <= BT_MAX
  {
    var start := PagesStart(blocks);
    var state := StateOf(|blocks|, |nodes|, start);
    Assembled(Front(HeaderImage(state), AMapPage(state.root.ibFileEof)), blocks,
              BbtPages(bes, start) + NbtPagesWith(nodes, index, start, TreePages(BbtLeaves(|blocks|))))
  }

  /** The file for distinct ids, which leave no choice. */
  ghost function ImageOf(blocks: seq<BlockSpec>, nodes: seq<NbtEntry>): seq<Byte>
    requires Sized(blocks, |nodes|)
  {
    var start := PagesStart(blocks);
    var state := StateOf(|blocks|, |nodes|, start);
    Assembled(Front(HeaderImage(state), AMapPage(state.root.ibFileEof)), blocks,
              BbtPages(SortedCopy(BbtEntries(blocks), BbtKey), start)
              + NbtPages(SortedCopy(nodes, NidKey), start, TreePages(BbtLeaves(|blocks|))))
  }
}
