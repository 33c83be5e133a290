/**
 The pages of both trees in a written file, field by field: control bytes, trailer, and index entries that name the
 pages they lead to (src/page.cpp, src/nbt.cpp, src/writer.cpp; section 2.2.2.7.7 of [MS-PST]).
 */
module TreePages {
  import opened Bytes
  import opened Header
  import opened Image
  import opened ImageReader
  import opened ImageWriter
  import opened Nbt
  import opened NbtTree
  import opened Ndb
  import opened Page
  import opened Sorting
  import BbtReader
  import Crc

  // ---- One page ----

  /** A B-tree page of the given type, shape and level, sealed for its own place under its own id. */
  ghost predicate PageForm(page: seq<Byte>, ptype: Byte, shape: BtShape, at: Bref) {
    && |page| == 512
    && page[488] <= page[489] == shape.cEntMax && page[490] == shape.cbEnt && page[491] == shape.cLevel
    && page[492..496] == Zeros(4)
    && page[496] == page[497] == ptype && SignedFor(ReadU16(page, 498), at.bid, at.ib)
    && ReadU32(page, 500) == Crc.Checksum(page[..496]) && ReadU64(page, 504) == at.bid
  }

  lemma SealedForm(entries: seq<seq<Byte>>, shape: BtShape, ptype: Byte, at: Bref)
    requires |entries| <= shape.cEntMax && |Flatten(entries)| <= BT_ENTRIES_AREA && ptype in {0x80, 0x81}
    ensures PageForm(SealedPage(BtBody(entries, shape), ptype, at.bid, at.ib), ptype, shape, at)
  {
    hide Flatten, BtBody, Le16, Le32, Le64, ReadU16, ReadU32, ReadU64, Crc.Checksum, SignedFor, BlockSig;
    var body := BtBody(entries, shape);
    var page := SealedPage(body, ptype, at.bid, at.ib);
    BodyEnds(entries, shape);
    SignatureBits(at.bid, at.ib);
    assert page[..496] == body;
    assert forall i | 488 <= i < 496 :: page[i] == body[i];
    assert page[492..496] == body[492..496];
    assert page[498..500] == Le16(BlockSig(at.bid, at.ib));
    assert page[500..504] == Le32(Crc.Checksum(body)) && page[504..512] == Le64(at.bid);
    ReadsBack16(page, 498, BlockSig(at.bid, at.ib));
    ReadsBack32(page, 500, Crc.Checksum(body));
    ReadsBack64(page, 504, at.bid);
  }

  lemma BodyEnds(entries: seq<seq<Byte>>, shape: BtShape)
    requires |entries| < 0x100 && |Flatten(entries)| <= BT_ENTRIES_AREA
    ensures var body := BtBody(entries, shape);
            && body[488] == |entries| && body[489] == shape.cEntMax && body[490] == shape.cbEnt
            && body[491] == shape.cLevel && body[492..496] == Zeros(4)
  {
    hide Flatten;
    BodyControl(entries, shape);
  }

  // ---- Every page of a file ----

  /** The type of page `k` in a file of `b` block leaves. */
  function TypeOfPage(b: nat, k: nat): Byte {
    if k < TreePages(b) then 0x80 else 0x81
  }

  /** Entry maximum, entry size and level of page `k`: block leaves, block index, node leaves, node index. */
  function ShapeOfPage(b: nat, n: nat, k: nat): BtShape {
    if k < b then BtShape(20, 24, 0)
    else if k < TreePages(b) then BtShape(20, 24, 1)
    else if k < TreePages(b) + n then BtShape(15, 32, 0)
    else BtShape(20, 24, 1)
  }

  lemma BbtPageForm(bes: seq<BbtEntry>, start: nat, n: nat, k: nat)
    requires |bes| <= 400 && start + PAGE_SIZE * 42 < 0x1_0000_0000_0000_0000 && k < |BbtPages(bes, start)|
    ensures var b := BbtLeaves(|bes|);
            PageForm(BbtPages(bes, start)[k], TypeOfPage(b, k), ShapeOfPage(b, n, k), PageRef(start, k))
  {
    hide PageForm, SealedPage, BtBody, Flatten, PageRef, BbtImages, BtImages;
    var b := BbtLeaves(|bes|);
    if k < b {
      var cut := Cut(bes, k * 20, k * 20 + 20);
      assert BbtPages(bes, start)[k] == BbtLeafAt(bes, start, k) == BbtLeafPage(cut, PageRef(start, k));
      SealedForm(BbtImages(cut), BBT_LEAF_SHAPE, PTYPE_BBT, PageRef(start, k));
    } else {
      var index := BbtIndexEntries(bes, start);
      assert BbtPages(bes, start)[k] == BbtIndexPage(bes, start) == IndexPage(index, 1, PTYPE_BBT, PageRef(start, b));
      SealedForm(BtImages(index), BtShape(20, 24, 1), PTYPE_BBT, PageRef(start, k));
    }
  }

  lemma NbtPageForm(order: seq<NbtEntry>, index: seq<BtEntry>, start: nat, b: nat, k: nat)
    requires |order| <= 300 && |index| <= BT_MAX && start + PAGE_SIZE * 42 < 0x1_0000_0000_0000_0000
    requires 1 <= b <= 20 && k < |NbtPagesWith(order, index, start, TreePages(b))|
    ensures var n, first := NbtLeaves(|order|), TreePages(b);
            && first + k <= 42
            && PageForm(NbtPagesWith(order, index, start, first)[k], TypeOfPage(b, first + k),
                        ShapeOfPage(b, n, first + k), PageRef(start, first + k))
  {
    hide PageForm, SealedPage, BtBody, Flatten, PageRef, NbtImages, BtImages;
    var n, first := NbtLeaves(|order|), TreePages(b);
    var pages := NbtPagesWith(order, index, start, first);
    if k < n {
      var cut := Cut(order, k * 15, k * 15 + 15);
      assert pages[k] == NbtLeafAt(order, start, first, k) == LeafPage(cut, PageRef(start, first + k));
      SealedForm(NbtImages(cut), NBT_LEAF_SHAPE, PTYPE_NBT, PageRef(start, first + k));
    } else {
      assert pages[k] == IndexPage(index, 1, PTYPE_NBT, PageRef(start, first + n));
      SealedForm(BtImages(index), BtShape(20, 24, 1), PTYPE_NBT, PageRef(start, first + k));
    }
  }

  lemma PagesHaveForm(blocks: seq<BlockSpec>, bes: seq<BbtEntry>, order: seq<NbtEntry>, index: seq<BtEntry>, k: nat)
    requires Sized(blocks, |order|) && |bes| == |blocks| && |index| <= BT_MAX
    requires k < |PagesWith(blocks, bes, order, index)|
    ensures var start, b, n := PagesStart(blocks), BbtLeaves(|blocks|), NbtLeaves(|order|);
            && k <= 42
            && PageForm(PagesWith(blocks, bes, order, index)[k], TypeOfPage(b, k), ShapeOfPage(b, n, k),
                        PageRef(start, k))
  {
    hide PageForm, BbtPages, NbtPagesWith, PagesStart, TypeOfPage, ShapeOfPage, PageRef;
    var start, front, b := PagesStart(blocks), BbtPages(bes, PagesStart(blocks)), BbtLeaves(|blocks|);
    var tail := NbtPagesWith(order, index, start, |front|);
    assert PagesWith(blocks, bes, order, index) == front + tail;
    if k < |front| {
      BbtPageForm(bes, start, NbtLeaves(|order|), k);
    } else {
      NbtPageForm(order, index, start, b, k - |front|);
    }
  }

  lemma StoredSlice(file: seq<Byte>, ib: nat, page: seq<Byte>)
    requires StoredAt(file, ib, page) && |page| == PAGE_SIZE
    ensures ib + PAGE_SIZE <= |file| && file[ib..ib + PAGE_SIZE] == page
  {
  }

  /**
   Every tree page of a written file has the type, the shape and the level of its place, is sealed for that place
   under the next id of 0x0A, 0x0E, 0x12, ..., and the header's page counter lies beyond all of these.
   */
  lemma TreePagesAreTrue(blocks: seq<BlockSpec>, bes: seq<BbtEntry>, order: seq<NbtEntry>, index: seq<BtEntry>,
                         file: seq<Byte>, k: nat)
    requires Sized(blocks, |order|) && |bes| == |blocks| && |index| <= BT_MAX
    requires file == ImageWith(blocks, bes, order, index)
    requires k < TreePages(BbtLeaves(|blocks|)) + TreePages(NbtLeaves(|order|))
    ensures var ib, b, n := PageIb(PagesStart(blocks), k), BbtLeaves(|blocks|), NbtLeaves(|order|);
            && |file| >= HEADER_SIZE && ib + 512 <= |file| && ib < 0x1_0000_0000_0000_0000
            && PageForm(file[ib..ib + 512], TypeOfPage(b, k), ShapeOfPage(b, n, k), Bref(0x0A + 4 * k, ib))
            && 0x0A + 4 * k < NextPageBid(file)
  {
    hide ImageWith, PagesStart, PagesWith, StoredAt, PageForm, NextPageBid, TypeOfPage, ShapeOfPage;
    var pages := PagesWith(blocks, bes, order, index);
    PlanIsKept(blocks, bes, order, index);
    HeaderIsTrue(blocks, |order|, pages, file);
    PagesHaveForm(blocks, bes, order, index, k);
    StoredSlice(file, PageIb(PagesStart(blocks), k), pages[k]);
  }

  // ---- Index entries name the pages below them ----

  /**
   Index entry `i` of the page at `at`: the id it gives is the one in the trailer of the page it leads to, and its
   key is the first key there.
   */
  ghost predicate NamesChild(file: seq<Byte>, at: nat, i: nat) {
    && at + i * 24 + 24 <= |file|
    && var child := ReadU64(file, at + i * 24 + 16);
       && child + 512 <= |file|
       && ReadU64(file, at + i * 24 + 8) == ReadU64(file, child + 504)
       && ReadU64(file, at + i * 24) == ReadU64(file, child)
  }

  lemma FirstKeyStored(file: seq<Byte>, entries: seq<seq<Byte>>, size: nat, shape: BtShape, ptype: Byte, at: Bref,
                       key: UInt64)
    requires 0 < |entries| < 0x100 && |Flatten(entries)| <= BT_ENTRIES_AREA && size >= 8
    requires forall k | 0 <= k < |entries| :: |entries[k]| == size
    requires entries[0][..8] == Le64(key)
    requires StoredAt(file, at.ib, SealedPage(BtBody(entries, shape), ptype, at.bid, at.ib))
    ensures at.ib + 512 <= |file| && ReadU64(file, at.ib) == key && ReadU64(file, at.ib + 504) == at.bid
  {
    hide Flatten, BtBody, StoredAt, Le64, ReadU64, Le16, Le32, Crc.Checksum, PageSig;
    var page := SealedPage(BtBody(entries, shape), ptype, at.bid, at.ib);
    EntryStored(file, entries, size, shape, ptype, at, 0);
    FieldReads64(file, at.ib, entries[0], 0, key);
    assert page[504..512] == Le64(at.bid);
    FieldReads64(file, at.ib, page, 504, at.bid);
  }

  lemma EntryNamesChild(file: seq<Byte>, ies: seq<BtEntry>, ptype: Byte, at: Bref, i: nat)
    requires i < |ies| <= BT_MAX && StoredAt(file, at.ib, IndexPage(ies, 1, ptype, at))
    requires ies[i].bref.ib + 512 <= |file| && ReadU64(file, ies[i].bref.ib) == ies[i].btkey
    requires ReadU64(file, ies[i].bref.ib + 504) == ies[i].bref.bid
    ensures NamesChild(file, at.ib, i)
  {
    hide Flatten, SealedPage, BtBody, StoredAt, ReadU64, BtEntryImage;
    IndexFits(ies);
    EntryStored(file, BtImages(ies), 24, BtShape(20, 24, 1), ptype, at, i);
    BtFieldsRead(file, at.ib + i * 24, ies[i]);
  }

  lemma BtFieldsRead(file: seq<Byte>, off: nat, e: BtEntry)
    requires StoredAt(file, off, BtEntryImage(e))
    ensures off + 24 <= |file| && ReadU64(file, off) == e.btkey && ReadU64(file, off + 8) == e.bref.bid
    ensures ReadU64(file, off + 16) == e.bref.ib
  {
    hide Le64, ReadU64, StoredAt;
    var image := BtEntryImage(e);
    StoredLength(file, off, image);
    assert image[0..8] == Le64(e.btkey) && image[8..16] == Le64(e.bref.bid) && image[16..24] == Le64(e.bref.ib);
    FieldReads64(file, off, image, 0, e.btkey);
    FieldReads64(file, off, image, 8, e.bref.bid);
    FieldReads64(file, off, image, 16, e.bref.ib);
  }

  lemma BbtLeafStart(file: seq<Byte>, es: seq<BbtEntry>, at: Bref)
    requires 0 < |es| <= BBT_LEAF_MAX && StoredAt(file, at.ib, BbtLeafPage(es, at))
    ensures at.ib + 512 <= |file| && ReadU64(file, at.ib) == es[0].bref.bid && ReadU64(file, at.ib + 504) == at.bid
  {
    hide Flatten, SealedPage, BtBody, StoredAt, ReadU64, Le64, Le16, Le32;
    BbtReader.BbtLeafFits(es);
    assert BbtEntryImage(es[0])[..8] == Le64(es[0].bref.bid);
    FirstKeyStored(file, BbtImages(es), 24, BBT_LEAF_SHAPE, PTYPE_BBT, at, es[0].bref.bid);
  }

  lemma NbtLeafStart(file: seq<Byte>, es: seq<NbtEntry>, at: Bref)
    requires 0 < |es| <= NBT_LEAF_MAX && StoredAt(file, at.ib, LeafPage(es, at))
    ensures at.ib + 512 <= |file| && ReadU64(file, at.ib) == es[0].nid && ReadU64(file, at.ib + 504) == at.bid
  {
    hide Flatten, SealedPage, BtBody, StoredAt, ReadU64;
    LeafFits(es);
    NidImageStart(es[0]);
    FirstKeyStored(file, NbtImages(es), 32, NBT_LEAF_SHAPE, PTYPE_NBT, at, es[0].nid);
  }

  lemma NidImageStart(e: NbtEntry)
    ensures NbtEntryImage(e)[..8] == Le64(e.nid)
  {
  }

  lemma PageAt(blocks: seq<BlockSpec>, bes: seq<BbtEntry>, order: seq<NbtEntry>, index: seq<BtEntry>,
               file: seq<Byte>, k: nat)
    requires Sized(blocks, |order|) && |bes| == |blocks| && |index| <= BT_MAX
    requires file == ImageWith(blocks, bes, order, index) && k < |PagesWith(blocks, bes, order, index)|
    ensures StoredAt(file, PageIb(PagesStart(blocks), k), PagesWith(blocks, bes, order, index)[k])
  {
    hide ImageWith, PagesStart, PagesWith, StoredAt, HeaderImage, StateOf, AMapPage, BlockIb, FileEnd;
    PlanIsKept(blocks, bes, order, index);
  }

  /** An index page of `n` entries that name the pages below them, under keys in ascending order. */
  ghost predicate IndexIsTrue(file: seq<Byte>, at: nat, n: nat) {
    && n <= 20 && at + 512 <= |file| && file[at + 488] == n
    && (forall i | 0 <= i < n :: NamesChild(file, at, i))
    && forall i, j | 0 <= i < j < n :: ReadU64(file, at + i * 24) <= ReadU64(file, at + j * 24)
  }

  /** A stored index page is true if its references lead to pages with their ids and their keys. */
  lemma StoredIndexIsTrue(file: seq<Byte>, ies: seq<BtEntry>, ptype: Byte, at: Bref)
    requires |ies| <= BT_MAX && StoredAt(file, at.ib, IndexPage(ies, 1, ptype, at)) && Ascending(ies, BtKey)
    requires forall i | 0 <= i < |ies| :: LeadsTo(file, ies[i])
    ensures IndexIsTrue(file, at.ib, |ies|)
  {
    hide IndexPage, StoredAt, ReadU64, NamesChild, Ascending;
    IndexCount(file, ies, ptype, at);
    forall i | 0 <= i < |ies| ensures NamesChild(file, at.ib, i) && ReadU64(file, at.ib + i * 24) == ies[i].btkey {
      assert LeadsTo(file, ies[i]);
      EntryNamesChild(file, ies, ptype, at, i);
      IndexKeyIs(file, ies, ptype, at, i);
    }
    forall i, j | 0 <= i < j < |ies| ensures ReadU64(file, at.ib + i * 24) <= ReadU64(file, at.ib + j * 24) {
      IndexKeysFollow(ies, i, j);
    }
  }

  /** The page an index entry leads to carries its id and starts with its key. */
  ghost predicate LeadsTo(file: seq<Byte>, e: BtEntry) {
    && e.bref.ib + 512 <= |file|
    && ReadU64(file, e.bref.ib) == e.btkey && ReadU64(file, e.bref.ib + 504) == e.bref.bid
  }

  lemma IndexKeysFollow(index: seq<BtEntry>, i: nat, j: nat)
    requires Ascending(index, BtKey) && i < j < |index|
    ensures index[i].btkey <= index[j].btkey
  {
    assert BtKey(index[i]) <= BtKey(index[j]);
  }

  lemma IndexCount(file: seq<Byte>, index: seq<BtEntry>, ptype: Byte, at: Bref)
    requires |index| <= BT_MAX && StoredAt(file, at.ib, IndexPage(index, 1, ptype, at))
    ensures at.ib + 512 <= |file| && file[at.ib + 488] == |index|
  {
    hide Flatten, SealedPage, BtBody, StoredAt, ReadU32, Crc.Checksum, BtEntryImage;
    IndexFits(index);
    PageFields(file, BtImages(index), BtShape(20, 24, 1), ptype, at);
  }

  lemma IndexKeyIs(file: seq<Byte>, ies: seq<BtEntry>, ptype: Byte, at: Bref, i: nat)
    requires i < |ies| <= BT_MAX && StoredAt(file, at.ib, IndexPage(ies, 1, ptype, at))
    ensures at.ib + i * 24 + 24 <= |file| && ReadU64(file, at.ib + i * 24) == ies[i].btkey
  {
    hide Flatten, SealedPage, BtBody, StoredAt, ReadU64, BtEntryImage;
    IndexFits(ies);
    EntryStored(file, BtImages(ies), 24, BtShape(20, 24, 1), ptype, at, i);
    BtFieldsRead(file, at.ib + i * 24, ies[i]);
  }

  // ---- The two index pages of a file ----

  lemma BlockLeafLeads(file: seq<Byte>, bes: seq<BbtEntry>, start: nat, i: nat)
    requires 0 < |bes| <= 400 && start + PAGE_SIZE * 42 < 0x1_0000_0000_0000_0000 && i < BbtLeaves(|bes|)
    requires StoredAt(file, PageIb(start, i), BbtLeafAt(bes, start, i))
    ensures LeadsTo(file, BbtIndexEntries(bes, start)[i])
  {
    hide StoredAt, ReadU64, BbtLeafPage;
    BbtLeafStart(file, Cut(bes, i * 20, i * 20 + 20), PageRef(start, i));
  }

  lemma BlockKeysAscend(bes: seq<BbtEntry>, start: nat)
    requires 0 < |bes| <= 400 && start + PAGE_SIZE * 42 < 0x1_0000_0000_0000_0000 && Ascending(bes, BbtKey)
    ensures Ascending(BbtIndexEntries(bes, start), BtKey)
  {
    var ies := BbtIndexEntries(bes, start);
    forall i, j | 0 <= i < j < |ies| ensures BtKey(ies[i]) <= BtKey(ies[j]) {
      assert BbtKey(bes[i * 20]) <= BbtKey(bes[j * 20]);
    }
  }

  /** The index page of the block B-tree names its leaves, under keys in the order of the sort. */
  lemma BlockIndexIsTrue(blocks: seq<BlockSpec>, bes: seq<BbtEntry>, order: seq<NbtEntry>, index: seq<BtEntry>,
                         file: seq<Byte>)
    requires Sized(blocks, |order|) && |bes| == |blocks| > 20 && |index| <= BT_MAX && Ascending(bes, BbtKey)
    requires file == ImageWith(blocks, bes, order, index)
    ensures IndexIsTrue(file, PageIb(PagesStart(blocks), BbtLeaves(|blocks|)), BbtLeaves(|blocks|))
  {
    hide ImageWith, PagesStart, StoredAt, ReadU64, IndexPage, NbtPagesWith, BbtLeafAt, Ascending, LeadsTo, IndexIsTrue;
    var start, b := PagesStart(blocks), BbtLeaves(|blocks|);
    var ies, pages := BbtIndexEntries(bes, start), PagesWith(blocks, bes, order, index);
    forall i | 0 <= i < b ensures LeadsTo(file, ies[i]) {
      PageAt(blocks, bes, order, index, file, i);
      assert pages[i] == BbtLeafAt(bes, start, i);
      BlockLeafLeads(file, bes, start, i);
    }
    BlockKeysAscend(bes, start);
    PageAt(blocks, bes, order, index, file, b);
    assert pages[b] == BbtIndexPage(bes, start) == IndexPage(ies, 1, PTYPE_BBT, PageRef(start, b));
    StoredIndexIsTrue(file, ies, PTYPE_BBT, PageRef(start, b));
  }

  lemma NodeLeafLeads(file: seq<Byte>, order: seq<NbtEntry>, start: nat, first: nat, i: nat)
    requires 0 < |order| <= 300 && first <= 21 && start + PAGE_SIZE * 42 < 0x1_0000_0000_0000_0000
    requires i < NbtLeaves(|order|) && StoredAt(file, PageIb(start, first + i), NbtLeafAt(order, start, first, i))
    ensures LeadsTo(file, IndexEntries(order, NbtBrefs(NbtLeaves(|order|), start, first))[i])
  {
    hide StoredAt, ReadU64, LeafPage;
    NbtLeafStart(file, Cut(order, i * 15, i * 15 + 15), PageRef(start, first + i));
  }

  lemma NodeIndexLeads(file: seq<Byte>, order: seq<NbtEntry>, index: seq<BtEntry>, start: nat, first: nat)
    requires 0 < |order| <= 300 && first <= 21 && start + PAGE_SIZE * 42 < 0x1_0000_0000_0000_0000
    requires IndexArranged(index, IndexEntries(order, NbtBrefs(NbtLeaves(|order|), start, first)))
    requires forall i | 0 <= i < NbtLeaves(|order|) ::
               StoredAt(file, PageIb(start, first + i), NbtLeafAt(order, start, first, i))
    ensures |index| == NbtLeaves(|order|) && forall i | 0 <= i < |index| :: LeadsTo(file, index[i])
  {
    hide StoredAt, NbtLeafAt, LeadsTo, Ascending, PageIb;
    var ies := IndexEntries(order, NbtBrefs(NbtLeaves(|order|), start, first));
    SameElements(index, ies);
    forall i | 0 <= i < |ies| ensures LeadsTo(file, ies[i]) {
      NodeLeafLeads(file, order, start, first, i);
    }
    forall i | 0 <= i < |index| ensures LeadsTo(file, index[i]) {
      assert index[i] in ies;
    }
  }

  /** The index page of the node B-tree names its leaves, under keys in the order of the sort. */
  lemma NodeIndexIsTrue(blocks: seq<BlockSpec>, nodes: seq<NbtEntry>, bes: seq<BbtEntry>, order: seq<NbtEntry>,
                        index: seq<BtEntry>, file: seq<Byte>)
    requires Sized(blocks, |nodes|) && Arrangement(blocks, nodes, bes, order, index) && |nodes| > 15
    requires |bes| == |blocks| && |order| == |nodes| && |index| <= BT_MAX
    requires file == ImageWith(blocks, bes, order, index)
    ensures var n, first := NbtLeaves(|nodes|), TreePages(BbtLeaves(|blocks|));
            IndexIsTrue(file, PageIb(PagesStart(blocks), first + n), n)
  {
    hide ImageWith, PagesStart, StoredAt, IndexPage, BbtPages, NbtLeafAt, Ascending, LeadsTo, IndexIsTrue, BbtEntries,
         IndexEntries, PageIb;
    var start, n, first := PagesStart(blocks), NbtLeaves(|nodes|), TreePages(BbtLeaves(|blocks|));
    var pages := PagesWith(blocks, bes, order, index);
    forall i | 0 <= i < n ensures StoredAt(file, PageIb(start, first + i), NbtLeafAt(order, start, first, i)) {
      PageAt(blocks, bes, order, index, file, first + i);
      assert pages[first + i] == NbtLeafAt(order, start, first, i);
    }
    NodeIndexLeads(file, order, index, start, first);
    PageAt(blocks, bes, order, index, file, first + n);
    assert pages[first + n] == IndexPage(index, 1, PTYPE_NBT, PageRef(start, first + n));
    StoredIndexIsTrue(file, index, PTYPE_NBT, PageRef(start, first + n));
  }
}
