/** Listing the block B-tree, as tools/pst_info.cpp walks it. */
module BbtReader {
  import opened Bytes
  import opened Ndb
  import opened Page
  import opened Nbt
  import opened NbtTree
  import opened Image
  import opened Wrappers
  import Crc

  datatype WalkError = PageBeyondFile | EntryBeyondFile

  function DecodeBbtEntry(file: seq<Byte>, off: nat): BbtEntry
    requires off + 24 <= |file|
  {
    BbtEntry(Bref(ReadU64(file, off), ReadU64(file, off + 8)), ReadU16(file, off + 16), ReadU16(file, off + 18))
  }

  /** The entries of a leaf from number `i` on. */
  function LeafWalk(file: seq<Byte>, at: nat, i: nat, n: nat): Result<seq<BbtEntry>, WalkError>
    requires i <= n
    decreases n - i
  {
    if i == n then Success([])
    else if at + i * 24 + 24 > |file| then Failure(EntryBeyondFile)
    else
      var rest :- LeafWalk(file, at, i + 1, n);
      Success([DecodeBbtEntry(file, at + i * 24)] + rest)
  }

  function ChildIb(file: seq<Byte>, at: nat, i: nat): Ib
    requires at + i * 24 + 24 <= |file|
  {
    ReadU64(file, at + i * 24 + 16)
  }

  /** The entries of the leaves below index entries `i` and on. */
  function ChildrenWalk(file: seq<Byte>, at: nat, i: nat, n: nat): Result<seq<BbtEntry>, WalkError>
    requires i <= n
    decreases n - i
  {
    if i == n then Success([])
    else if at + i * 24 + 24 > |file| then Failure(EntryBeyondFile)
    else
      var ib := ChildIb(file, at, i);
      if ib + PAGE_SIZE > |file| then Failure(PageBeyondFile)
      else
        var here :- LeafWalk(file, ib, 0, file[ib + 488]);
        var rest :- ChildrenWalk(file, at, i + 1, n);
        Success(here + rest)
  }

  function Walk(file: seq<Byte>, rootIb: Ib): Result<seq<BbtEntry>, WalkError> {
    if rootIb + PAGE_SIZE > |file| then Failure(PageBeyondFile)
    else if file[rootIb + 491] == 0 then LeafWalk(file, rootIb, 0, file[rootIb + 488])
    else ChildrenWalk(file, rootIb, 0, file[rootIb + 488])
  }

  // ---- A stored tree walks to its entries ----

  lemma BbtEntryReadsBack(file: seq<Byte>, off: nat, e: BbtEntry)
    requires StoredAt(file, off, BbtEntryImage(e))
    ensures off + 24 <= |file| && DecodeBbtEntry(file, off) == e
  {
    hide Le16, Le32, Le64, ReadU16, ReadU32, ReadU64, StoredAt;
    var image := BbtEntryImage(e);
    StoredLength(file, off, image);
    assert image[0..8] == Le64(e.bref.bid) && image[8..16] == Le64(e.bref.ib);
    assert image[16..18] == Le16(e.cb) && image[18..20] == Le16(e.cRef);
    FieldReads64(file, off, image, 0, e.bref.bid);
    FieldReads64(file, off, image, 8, e.bref.ib);
    FieldReads16(file, off, image, 16, e.cb);
    FieldReads16(file, off, image, 18, e.cRef);
  }

  lemma FieldReads16(file: seq<Byte>, off: nat, image: seq<Byte>, a: nat, v: UInt16)
    requires StoredAt(file, off, image) && a + 2 <= |image| && image[a..a + 2] == Le16(v)
    ensures off + a + 2 <= |file| && ReadU16(file, off + a) == v
  {
    hide Le16, ReadU16;
    StoredPart(file, off, image, a, a + 2);
    ReadsBack16(file, off + a, v);
  }

  lemma BbtLeafFits(es: seq<BbtEntry>)
    requires |es| <= BBT_LEAF_MAX
    ensures |BbtImages(es)| == |es| && |Flatten(BbtImages(es))| <= BT_ENTRIES_AREA
  {
  }

  lemma {:induction false} LeafWalked(file: seq<Byte>, es: seq<BbtEntry>, at: Bref, i: nat)
    requires i <= |es| <= BBT_LEAF_MAX && StoredAt(file, at.ib, BbtLeafPage(es, at))
    ensures LeafWalk(file, at.ib, i, |es|) == Success(es[i..])
    decreases |es| - i
  {
    hide Flatten, SealedPage, BtBody, StoredAt, DecodeBbtEntry, BbtEntryImage;
    if i >= |es| {
    } else {
      LeafWalked(file, es, at, i + 1);
      BbtLeafFits(es);
      EntryStored(file, BbtImages(es), 24, BBT_LEAF_SHAPE, PTYPE_BBT, at, i);
      BbtEntryReadsBack(file, at.ib + i * 24, es[i]);
      assert es[i..] == [es[i]] + es[i + 1..];
    }
  }

  lemma StoredBbtLeaf(file: seq<Byte>, es: seq<BbtEntry>, at: Bref)
    requires |es| <= BBT_LEAF_MAX && StoredAt(file, at.ib, BbtLeafPage(es, at))
    ensures at.ib + PAGE_SIZE <= |file| && file[at.ib + 491] == 0 && file[at.ib + 488] == |es|
    ensures LeafWalk(file, at.ib, 0, |es|) == Success(es)
  {
    hide Flatten, SealedPage, BtBody, StoredAt, ReadU32, Crc.Checksum, LeafWalk;
    BbtLeafFits(es);
    PageFields(file, BbtImages(es), BBT_LEAF_SHAPE, PTYPE_BBT, at);
    LeafWalked(file, es, at, 0);
    assert es[0..] == es;
  }

  lemma StoredBbtIndex(file: seq<Byte>, ies: seq<BtEntry>, at: Bref)
    requires 0 < |ies| <= BT_MAX && StoredAt(file, at.ib, IndexPage(ies, 1, PTYPE_BBT, at))
    ensures at.ib + PAGE_SIZE <= |file| && file[at.ib + 491] == 1 && file[at.ib + 488] == |ies|
    ensures forall i | 0 <= i < |ies| :: at.ib + i * 24 + 24 <= |file| && ChildIb(file, at.ib, i) == ies[i].bref.ib
  {
    hide Flatten, SealedPage, BtBody, StoredAt, ReadU32, Crc.Checksum, ChildIb, BtEntryImage;
    IndexFits(ies);
    PageFields(file, BtImages(ies), BtShape(20, 24, 1), PTYPE_BBT, at);
    forall i | 0 <= i < |ies|
      ensures at.ib + i * 24 + 24 <= |file| && ChildIb(file, at.ib, i) == ies[i].bref.ib
    {
      EntryStored(file, BtImages(ies), 24, BtShape(20, 24, 1), PTYPE_BBT, at, i);
      ChildReadsBack(file, at.ib, i, ies[i]);
    }
  }

  lemma ChildReadsBack(file: seq<Byte>, at: nat, i: nat, e: BtEntry)
    requires StoredAt(file, at + i * 24, BtEntryImage(e))
    ensures at + i * 24 + 24 <= |file| && ChildIb(file, at, i) == e.bref.ib
  {
    hide Le64, ReadU64, StoredAt;
    var image, off := BtEntryImage(e), at + i * 24;
    StoredLength(file, off, image);
    assert image[16..24] == Le64(e.bref.ib);
    FieldReads64(file, off, image, 16, e.bref.ib);
  }

  /** Every page of the block B-tree lies at its planned offset. */
  ghost predicate BbtStored(file: seq<Byte>, es: seq<BbtEntry>, start: nat) {
    && |es| <= 400 && start + PAGE_SIZE * 42 < 0x1_0000_0000_0000_0000
    && (forall i | 0 <= i < BbtLeaves(|es|) :: StoredAt(file, PageIb(start, i), BbtLeafAt(es, start, i)))
    && (BbtLeaves(|es|) > 1 ==> StoredAt(file, PageIb(start, BbtLeaves(|es|)), BbtIndexPage(es, start)))
  }

  lemma StoredLeafAt(file: seq<Byte>, es: seq<BbtEntry>, start: nat, i: nat)
    requires BbtStored(file, es, start) && i < BbtLeaves(|es|)
    ensures var ib, cut := PageIb(start, i), Cut(es, i * 20, i * 20 + 20);
            && ib + PAGE_SIZE <= |file| && file[ib + 491] == 0 && file[ib + 488] == |cut|
            && LeafWalk(file, ib, 0, |cut|) == Success(cut)
  {
    hide StoredAt, LeafWalk, BbtLeafPage, Cut;
    assert StoredAt(file, PageIb(start, i), BbtLeafAt(es, start, i));
    StoredBbtLeaf(file, Cut(es, i * 20, i * 20 + 20), PageRef(start, i));
  }

  lemma {:induction false} ChildrenWalked(file: seq<Byte>, es: seq<BbtEntry>, start: nat, i: nat)
    requires BbtStored(file, es, start) && BbtLeaves(|es|) > 1 && i <= BbtLeaves(|es|)
    ensures ChildrenWalk(file, PageIb(start, BbtLeaves(|es|)), i, BbtLeaves(|es|))
            == Success(if i * 20 < |es| then es[i * 20..] else [])
    decreases BbtLeaves(|es|) - i
  {
    hide StoredAt, LeafWalk, BbtStored, IndexPage, ChildIb, BbtLeaves, Cut, PageIb;
    LeavesCover(|es|);
    if i < BbtLeaves(|es|) {
      ChildrenWalked(file, es, start, i + 1);
      IndexStored(file, es, start, i);
      StoredLeafAt(file, es, start, i);
      CutHere(es, i * 20);
      assert i * 20 + 20 == (i + 1) * 20;
    } else {
    }
  }

  lemma LeavesCover(n: nat)
    ensures n <= BbtLeaves(n) * 20
  {
  }

  lemma CutHere(es: seq<BbtEntry>, at: nat)
    ensures Cut(es, at, at + 20) + (if at + 20 < |es| then es[at + 20..] else []) == if at < |es| then es[at..] else []
  {
  }

  lemma IndexStored(file: seq<Byte>, es: seq<BbtEntry>, start: nat, i: nat)
    requires BbtStored(file, es, start) && BbtLeaves(|es|) > 1 && i < BbtLeaves(|es|)
    ensures var at := PageIb(start, BbtLeaves(|es|));
            && at + PAGE_SIZE <= |file| && file[at + 491] == 1 && file[at + 488] == BbtLeaves(|es|)
            && at + i * 24 + 24 <= |file| && ChildIb(file, at, i) == PageIb(start, i)
  {
    hide StoredAt, IndexPage, ChildIb;
    StoredBbtIndex(file, BbtIndexEntries(es, start), PageRef(start, BbtLeaves(|es|)));
    assert ChildIb(file, PageIb(start, BbtLeaves(|es|)), i) == BbtIndexEntries(es, start)[i].bref.ib;
  }

  /** Walking from the root page lists exactly the entries, in order. */
  lemma StoredTreeWalks(file: seq<Byte>, es: seq<BbtEntry>, start: nat)
    requires BbtStored(file, es, start)
    ensures Walk(file, PageIb(start, RootPage(BbtLeaves(|es|), 0))) == Success(es)
  {
    hide LeafWalk, ChildrenWalk, BbtStored, StoredAt;
    if BbtLeaves(|es|) > 1 {
      IndexStored(file, es, start, 0);
      ChildrenWalked(file, es, start, 0);
      assert es[0..] == es;
    } else {
      StoredLeafAt(file, es, start, 0);
      assert Cut(es, 0, 20) == es;
    }
  }
}
