/** The pages buildNbtTree makes, read back by the NBT readers (src/nbt.cpp). */
module NbtTree {
  import opened Bytes
  import opened Ndb
  import opened Page
  import opened Nbt
  import opened NbtReader
  import opened Sorting
  import opened Wrappers
  import Crc

  // ---- One stored page ----

  /** The control bytes, type bytes and checksum of a stored B-tree page. */
  lemma PageFields(file: seq<Byte>, entries: seq<seq<Byte>>, shape: BtShape, ptype: Byte, at: Bref)
    requires |entries| < 0x100 && |Flatten(entries)| <= BT_ENTRIES_AREA
    requires StoredAt(file, at.ib, SealedPage(BtBody(entries, shape), ptype, at.bid, at.ib))
    ensures at.ib + PAGE_SIZE <= |file|
    ensures file[at.ib + 488] == |entries| && file[at.ib + 489] == shape.cEntMax
    ensures file[at.ib + 490] == shape.cbEnt && file[at.ib + 491] == shape.cLevel
    ensures file[at.ib + 496] == file[at.ib + 497] == ptype
    ensures ReadU32(file, at.ib + 500) == Crc.Checksum(file[at.ib..at.ib + PAGE_BODY_SIZE])
  {
    hide Flatten, Crc.Checksum, StoredAt, ReadU32, PageSig, Le64, Le32, BtBody;
    var body := BtBody(entries, shape);
    var page := SealedPage(body, ptype, at.bid, at.ib);
    StoredLength(file, at.ib, page);
    BodyControl(entries, shape);
    StoredByte(file, at.ib, page, 488);
    StoredByte(file, at.ib, page, 489);
    StoredByte(file, at.ib, page, 490);
    StoredByte(file, at.ib, page, 491);
    StoredByte(file, at.ib, page, 496);
    StoredByte(file, at.ib, page, 497);
    StoredPart(file, at.ib, page, 0, PAGE_BODY_SIZE);
    StoredPart(file, at.ib, page, 500, 504);
    assert page[0..PAGE_BODY_SIZE] == body;
    assert page[500..504] == Le32(Crc.Checksum(body));
    StoredIs(file, at.ib, body);
    StoredIs(file, at.ib + 500, Le32(Crc.Checksum(body)));
    ReadsBack32(file, at.ib + 500, Crc.Checksum(body));
  }

  lemma StoredLength(file: seq<Byte>, off: nat, part: seq<Byte>)
    requires StoredAt(file, off, part)
    ensures off + |part| <= |file|
  {
  }

  lemma StoredIs(file: seq<Byte>, off: nat, part: seq<Byte>)
    requires StoredAt(file, off, part)
    ensures off + |part| <= |file| && file[off..off + |part|] == part
  {
  }

  lemma BodyControl(entries: seq<seq<Byte>>, shape: BtShape)
    requires |entries| < 0x100 && |Flatten(entries)| <= BT_ENTRIES_AREA
    ensures var body := BtBody(entries, shape);
            body[488] == |entries| && body[489] == shape.cEntMax && body[490] == shape.cbEnt
              && body[491] == shape.cLevel
  {
    hide Flatten;
  }

  lemma EntryStored(file: seq<Byte>, entries: seq<seq<Byte>>, size: nat, shape: BtShape, ptype: Byte, at: Bref, i: nat)
    requires |entries| < 0x100 && |Flatten(entries)| <= BT_ENTRIES_AREA && i < |entries|
    requires forall k | 0 <= k < |entries| :: |entries[k]| == size
    requires StoredAt(file, at.ib, SealedPage(BtBody(entries, shape), ptype, at.bid, at.ib))
    ensures StoredAt(file, at.ib + i * size, entries[i])
  {
    hide Crc.Checksum, PageSig, Le64, Le32, StoredAt;
    FlattenUniformSlice(entries, size, i);
    var page := SealedPage(BtBody(entries, shape), ptype, at.bid, at.ib);
    StoredPart(file, at.ib, page, i * size, i * size + size);
    assert page[i * size..i * size + size] == Flatten(entries)[i * size..i * size + size];
  }

  lemma FieldReads64(file: seq<Byte>, off: nat, image: seq<Byte>, a: nat, v: UInt64)
    requires StoredAt(file, off, image) && a + 8 <= |image| && image[a..a + 8] == Le64(v)
    ensures off + a + 8 <= |file| && ReadU64(file, off + a) == v
  {
    hide Le64, ReadU64;
    StoredPart(file, off, image, a, a + 8);
    ReadsBack64(file, off + a, v);
  }

  lemma FieldReads32(file: seq<Byte>, off: nat, image: seq<Byte>, a: nat, v: UInt32)
    requires StoredAt(file, off, image) && a + 4 <= |image| && image[a..a + 4] == Le32(v)
    ensures off + a + 4 <= |file| && ReadU32(file, off + a) == v
  {
    hide Le32, ReadU32;
    StoredPart(file, off, image, a, a + 4);
    ReadsBack32(file, off + a, v);
  }

  lemma NbtEntryReadsBack(file: seq<Byte>, off: nat, e: NbtEntry)
    requires StoredAt(file, off, NbtEntryImage(e))
    ensures off + 32 <= |file| && DecodeNbtEntry(file, off) == e
  {
    hide Le32, Le64, ReadU32, ReadU64, StoredAt;
    var image := NbtEntryImage(e);
    StoredLength(file, off, image);
    assert image[0..4] == Le32(e.nid) && image[8..16] == Le64(e.bidData);
    assert image[16..24] == Le64(e.bidSub) && image[24..28] == Le32(e.nidParent);
    FieldReads32(file, off, image, 0, e.nid);
    FieldReads64(file, off, image, 8, e.bidData);
    FieldReads64(file, off, image, 16, e.bidSub);
    FieldReads32(file, off, image, 24, e.nidParent);
  }

  lemma BtEntryReadsBack(file: seq<Byte>, at: nat, i: nat, e: BtEntry)
    requires StoredAt(file, at + i * 24, BtEntryImage(e))
    ensures at + i * 24 + 24 <= |file| && Key(file, at, i) == e.btkey && Child(file, at, i) == e.bref
  {
    hide Le64, ReadU64, StoredAt;
    var image, off := BtEntryImage(e), at + i * 24;
    StoredLength(file, off, image);
    assert image[0..8] == Le64(e.btkey) && image[8..16] == Le64(e.bref.bid) && image[16..24] == Le64(e.bref.ib);
    FieldReads64(file, off, image, 0, e.btkey);
    FieldReads64(file, off, image, 8, e.bref.bid);
    FieldReads64(file, off, image, 16, e.bref.ib);
  }

  // ---- A stored leaf lists its entries ----

  lemma StoredLeaf(file: seq<Byte>, es: seq<NbtEntry>, at: Bref, strictCrc: bool)
    requires |es| <= NBT_LEAF_MAX && StoredAt(file, at.ib, LeafPage(es, at))
    ensures PageError(file, at.ib, strictCrc).None?
    ensures CLevel(file, at.ib) == 0 && CEnt(file, at.ib) == |es|
    ensures LeafFrom(file, at.ib, 0, |es|) == Success(es)
  {
    hide Flatten, SealedPage, BtBody, StoredAt, ReadU32, Crc.Checksum, LeafFrom;
    LeafFits(es);
    PageFields(file, NbtImages(es), NBT_LEAF_SHAPE, PTYPE_NBT, at);
    LeafListed(file, es, at, 0);
    assert es[0..] == es;
  }

  lemma {:induction false} LeafListed(file: seq<Byte>, es: seq<NbtEntry>, at: Bref, i: nat)
    requires i <= |es| <= NBT_LEAF_MAX && StoredAt(file, at.ib, LeafPage(es, at))
    ensures LeafFrom(file, at.ib, i, |es|) == Success(es[i..])
    decreases |es| - i
  {
    hide Flatten, SealedPage, BtBody, StoredAt, DecodeNbtEntry, NbtEntryImage;
    if i >= |es| {
    } else {
      LeafListed(file, es, at, i + 1);
      LeafFits(es);
      EntryStored(file, NbtImages(es), 32, NBT_LEAF_SHAPE, PTYPE_NBT, at, i);
      NbtEntryReadsBack(file, at.ib + i * 32, es[i]);
      assert es[i..] == [es[i]] + es[i + 1..];
    }
  }

  // ---- A stored tree ----

  /** Every page of the tree lies in the file at the place its reference says. */
  ghost predicate TreeStored(file: seq<Byte>, es: seq<NbtEntry>, brefs: seq<Bref>, indexBref: Bref) {
    && |brefs| >= 1 && |brefs| >= LeafCount(|es|) && LeafCount(|es|) <= BT_MAX
    && (es == [] ==> StoredAt(file, brefs[0].ib, LeafPage([], brefs[0])))
    && (forall i | 0 <= i < LeafCount(|es|) :: StoredAt(file, brefs[i].ib, LeafPage(Chunk(es, i), brefs[i])))
    && (LeafCount(|es|) > 1 ==>
          StoredAt(file, indexBref.ib, IndexPage(IndexEntries(es, brefs), 1, PTYPE_NBT, indexBref)) &&
          forall i | 0 <= i < LeafCount(|es|) :: brefs[i] != NO_CHILD)
  }

  lemma StoredIndex(file: seq<Byte>, ies: seq<BtEntry>, at: Bref, strictCrc: bool)
    requires 0 < |ies| <= BT_MAX && StoredAt(file, at.ib, IndexPage(ies, 1, PTYPE_NBT, at))
    ensures PageError(file, at.ib, strictCrc).None?
    ensures CLevel(file, at.ib) == 1 && CEnt(file, at.ib) == |ies|
    ensures at.ib + |ies| * 24 <= |file|
    ensures forall i | 0 <= i < |ies| :: Key(file, at.ib, i) == ies[i].btkey && Child(file, at.ib, i) == ies[i].bref
  {
    hide Flatten, SealedPage, BtBody, StoredAt, ReadU32, Crc.Checksum, Key, Child, BtEntryImage;
    IndexFits(ies);
    PageFields(file, BtImages(ies), BtShape(20, 24, 1), PTYPE_NBT, at);
    forall i | 0 <= i < |ies|
      ensures at.ib + i * 24 + 24 <= |file| && Key(file, at.ib, i) == ies[i].btkey
              && Child(file, at.ib, i) == ies[i].bref
    {
      EntryStored(file, BtImages(ies), 24, BtShape(20, 24, 1), PTYPE_NBT, at, i);
      BtEntryReadsBack(file, at.ib, i, ies[i]);
    }
  }

  lemma StoredChild(file: seq<Byte>, es: seq<NbtEntry>, brefs: seq<Bref>, indexBref: Bref, strictCrc: bool, i: nat)
    requires TreeStored(file, es, brefs, indexBref) && LeafCount(|es|) > 1 && i < LeafCount(|es|)
    ensures ChildEntries(file, indexBref.ib, i, strictCrc) == Success(Chunk(es, i))
    ensures indexBref.ib + i * 24 + 24 <= |file|
    ensures Key(file, indexBref.ib, i) == es[i * 15].nid && Child(file, indexBref.ib, i) == brefs[i]
  {
    hide LeafPage, IndexPage, PageError, Key, Child, LeafFrom, StoredAt;
    var ies := IndexEntries(es, brefs);
    StoredIndex(file, ies, indexBref, strictCrc);
    assert Child(file, indexBref.ib, i) == ies[i].bref == brefs[i];
    assert Key(file, indexBref.ib, i) == ies[i].btkey;
    StoredLeaf(file, Chunk(es, i), brefs[i], strictCrc);
  }

  lemma {:induction false} ChildrenListed(file: seq<Byte>, es: seq<NbtEntry>, brefs: seq<Bref>, indexBref: Bref,
                                          strictCrc: bool, i: nat)
    requires TreeStored(file, es, brefs, indexBref) && LeafCount(|es|) > 1 && i <= LeafCount(|es|)
    ensures ChildrenFrom(file, indexBref.ib, i, LeafCount(|es|), strictCrc)
            == Success(if i < LeafCount(|es|) then es[i * 15..] else [])
    decreases LeafCount(|es|) - i
  {
    hide ChildEntries, TreeStored;
    if i < LeafCount(|es|) {
      StoredChild(file, es, brefs, indexBref, strictCrc, i);
      ChildrenListed(file, es, brefs, indexBref, strictCrc, i + 1);
      if i + 1 < LeafCount(|es|) {
        assert es[i * 15..] == Chunk(es, i) + es[(i + 1) * 15..];
      } else {
        assert es[i * 15..] == Chunk(es, i) + [];
      }
    }
  }

  /** The NIDs of a run of fifteen lie between its first NID and the next run's. */
  lemma ChunkInRange(es: seq<NbtEntry>, i: nat)
    requires StrictlyAscending(es, NidKey) && i < LeafCount(|es|)
    ensures forall e | e in Chunk(es, i) :: es[i * 15].nid <= e.nid
    ensures i + 1 < LeafCount(|es|) ==> forall e | e in Chunk(es, i) :: e.nid < es[(i + 1) * 15].nid
  {
    forall e | e in Chunk(es, i)
      ensures es[i * 15].nid <= e.nid
      ensures i + 1 < LeafCount(|es|) ==> e.nid < es[(i + 1) * 15].nid
    {
      var k :| 0 <= k < |Chunk(es, i)| && Chunk(es, i)[k] == e;
      assert e == es[i * 15 + k];
      if k > 0 {
        assert NidKey(es[i * 15]) < NidKey(es[i * 15 + k]);
      }
      if i + 1 < LeafCount(|es|) {
        assert NidKey(es[i * 15 + k]) < NidKey(es[(i + 1) * 15]);
      }
    }
  }

  lemma StoredKeysSeparate(file: seq<Byte>, es: seq<NbtEntry>, brefs: seq<Bref>, indexBref: Bref, strictCrc: bool)
    requires TreeStored(file, es, brefs, indexBref) && LeafCount(|es|) > 1 && StrictlyAscending(es, NidKey)
    ensures indexBref.ib + LeafCount(|es|) * 24 <= |file|
    ensures KeysSeparate(file, indexBref.ib, LeafCount(|es|), strictCrc)
  {
    hide Key, Child, ChildEntries, TreeStored, Chunk;
    var n := LeafCount(|es|);
    StoredChild(file, es, brefs, indexBref, strictCrc, n - 1);
    forall i | 0 <= i < n ensures LeafInRange(file, indexBref.ib, n, i, strictCrc) {
      StoredChild(file, es, brefs, indexBref, strictCrc, i);
      ChunkInRange(es, i);
      if i + 1 < n {
        StoredChild(file, es, brefs, indexBref, strictCrc, i + 1);
      }
    }
    forall i | 0 < i < n ensures Key(file, indexBref.ib, i - 1) <= Key(file, indexBref.ib, i) {
      StoredChild(file, es, brefs, indexBref, strictCrc, i - 1);
      StoredChild(file, es, brefs, indexBref, strictCrc, i);
      assert NidKey(es[(i - 1) * 15]) < NidKey(es[i * 15]);
    }
    forall i | 0 <= i < n ensures Child(file, indexBref.ib, i) != NO_CHILD {
      StoredChild(file, es, brefs, indexBref, strictCrc, i);
      ChildrenAreReal(file, es, brefs, indexBref, i);
    }
  }

  lemma ChildrenAreReal(file: seq<Byte>, es: seq<NbtEntry>, brefs: seq<Bref>, indexBref: Bref, i: nat)
    requires TreeStored(file, es, brefs, indexBref) && LeafCount(|es|) > 1 && i < LeafCount(|es|)
    ensures brefs[i] != NO_CHILD
  {
  }

  ghost function RootOf(es: seq<NbtEntry>, brefs: seq<Bref>, indexBref: Bref): Bref
    requires |brefs| >= 1
  {
    if LeafCount(|es|) > 1 then indexBref else brefs[0]
  }

  /** A stored tree is valid and lists exactly its entries, in ascending NID order. */
  lemma TreeIsValid(file: seq<Byte>, es: seq<NbtEntry>, brefs: seq<Bref>, indexBref: Bref, strictCrc: bool)
    requires TreeStored(file, es, brefs, indexBref) && StrictlyAscending(es, NidKey)
    ensures var root := RootOf(es, brefs, indexBref);
            Listed(file, root, strictCrc) == Success(es) && ValidTree(file, root, strictCrc)
  {
    hide PageError, LeafFrom, ChildrenFrom, LeafPage, IndexPage, StoredAt, KeysSeparate, StrictlyAscending;
    if es == [] {
      StoredLeaf(file, [], brefs[0], strictCrc);
    } else if LeafCount(|es|) == 1 {
      StoredLeaf(file, Chunk(es, 0), brefs[0], strictCrc);
      assert Chunk(es, 0) == es;
    } else {
      StoredIndex(file, IndexEntries(es, brefs), indexBref, strictCrc);
      ChildrenListed(file, es, brefs, indexBref, strictCrc, 0);
      StoredKeysSeparate(file, es, brefs, indexBref, strictCrc);
      assert es[0..] == es;
    }
  }

  lemma FirstIsAlone(es: seq<NbtEntry>)
    requires es != [] && StrictlyAscending(es, NidKey)
    ensures StrictlyAscending(es[1..], NidKey)
    ensures forall x | x in es[1..] :: x.nid != es[0].nid
    ensures forall x :: x in es <==> x == es[0] || x in es[1..]
  {
    TailAscends(es, NidKey);
    assert es == [es[0]] + es[1..];
    forall x | x in es[1..] ensures x.nid != es[0].nid {
      var i :| 0 <= i < |es[1..]| && es[1..][i] == x;
      assert NidKey(es[0]) < NidKey(es[i + 1]);
    }
  }

  lemma {:induction false} FirstWithDistinct(es: seq<NbtEntry>, target: Nid, e: NbtEntry)
    requires StrictlyAscending(es, NidKey)
    ensures FirstWith(es, target) == Some(e) <==> e in es && e.nid == target
    ensures FirstWith(es, target).None? <==> forall x | x in es :: x.nid != target
  {
    if es == [] {
    } else {
      FirstIsAlone(es);
      hide StrictlyAscending;
      FirstWithDistinct(es[1..], target, e);
    }
  }

  /** Looking any NID up in the tree built over distinct entries finds exactly its entry, or nothing. */
  lemma BuiltTreeFinds(file: seq<Byte>, entries: seq<NbtEntry>, brefs: seq<Bref>, indexBref: Bref, strictCrc: bool,
                       target: Nid)
    requires DistinctKeys(entries, NidKey)
    requires TreeStored(file, SortedCopy(entries, NidKey), brefs, indexBref)
    ensures var root := RootOf(SortedCopy(entries, NidKey), brefs, indexBref);
            var found := Find(file, root, target, strictCrc);
            && found.Success?
            && (found.value.Some? ==> found.value.value in entries && found.value.value.nid == target)
            && (found.value.None? ==> forall e | e in entries :: e.nid != target)
  {
    assert |brefs| >= 1;
    hide TreeStored, Find, Listed, ValidTree, StrictlyAscending;
    var es := SortedCopy(entries, NidKey);
    SortedIsUnique(entries, es, NidKey);
    TreeIsValid(file, es, brefs, indexBref, strictCrc);
    var root := RootOf(es, brefs, indexBref);
    IndexAgreesWithScan(file, root, target, strictCrc);
    SameElements(entries, es);
    var found := FirstWith(es, target);
    match found {
      case Some(e) => FirstWithDistinct(es, target, e);
      case None =>
        forall e | e in entries ensures e.nid != target {
          FirstWithDistinct(es, target, e);
        }
    }
  }
}
