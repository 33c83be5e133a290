/** The node B-tree: page builders and readers (src/nbt.cpp; section 2.2.2.7.7 of [MS-PST]). */
module Nbt {
  import opened Bytes
  import opened Ndb
  import opened Page
  import opened Sorting
  import opened Wrappers

  const NBT_LEAF_MAX: nat := 15
  const NBT_LEAF_SHAPE: BtShape := BtShape(15, 32, 0)

  datatype NbtEntry = NbtEntry(nid: Nid, bidData: Bid, bidSub: Bid, nidParent: Nid)

  ghost const NidKey: NbtEntry -> int := (e: NbtEntry) => e.nid
  ghost const BtKey: BtEntry -> int := (e: BtEntry) => e.btkey

  datatype BuildError = TooManyEntries | LevelZero | BadPageType | TooManyLeaves

  // ---- Page images ----

  function NbtEntryImage(e: NbtEntry): (s: seq<Byte>)
    ensures |s| == 32
  {
    Le32(e.nid) + Le32(0) + Le64(e.bidData) + Le64(e.bidSub) + Le32(e.nidParent) + Le32(0)
  }

  function NbtImages(es: seq<NbtEntry>): (parts: seq<seq<Byte>>)
    ensures |parts| == |es| && forall i | 0 <= i < |es| :: parts[i] == NbtEntryImage(es[i])
    ensures |Flatten(parts)| == |es| * 32
  {
    var parts := seq(|es|, i requires 0 <= i < |es| => NbtEntryImage(es[i]));
    FlattenUniformLength(parts, 32);
    parts
  }

  function LeafPage(es: seq<NbtEntry>, at: Bref): (s: seq<Byte>)
    requires |es| <= NBT_LEAF_MAX
    ensures |s| == PAGE_SIZE
  {
    SealedPage(BtBody(NbtImages(es), NBT_LEAF_SHAPE), PTYPE_NBT, at.bid, at.ib)
  }

  function IndexPage(es: seq<BtEntry>, cLevel: Byte, ptype: Byte, at: Bref): (s: seq<Byte>)
    requires |es| <= BT_MAX
    ensures |s| == PAGE_SIZE
  {
    SealedPage(BtBody(BtImages(es), BtShape(20, 24, cLevel)), ptype, at.bid, at.ib)
  }

  // ---- Page builders ----

  method WriteNbtEntry(page: array<Byte>, off: nat, e: NbtEntry, ghost done: seq<Byte>)
    requires off + 32 <= page.Length && |done| == off && Filled(page[..], done)
    modifies page
    ensures Filled(page[..], done + NbtEntryImage(e))
  {
    hide Le64, Le32, Filled;
    Append32(page, off, e.nid, done);
    Append32(page, off + 4, 0, done + Le32(e.nid));
    ghost var d := done + Le32(e.nid) + Le32(0);
    Append64(page, off + 8, e.bidData, d);
    Append64(page, off + 16, e.bidSub, d + Le64(e.bidData));
    ghost var d2 := d + Le64(e.bidData) + Le64(e.bidSub);
    Append32(page, off + 24, e.nidParent, d2);
    Append32(page, off + 28, 0, d2 + Le32(e.nidParent));
    assert d2 + Le32(e.nidParent) + Le32(0) == done + NbtEntryImage(e);
  }

  lemma NbtImagesStep(es: seq<NbtEntry>, i: nat)
    requires i < |es|
    ensures Flatten(NbtImages(es[..i + 1])) == Flatten(NbtImages(es[..i])) + NbtEntryImage(es[i])
  {
    assert NbtImages(es[..i + 1]) == NbtImages(es[..i]) + [NbtEntryImage(es[i])];
    FlattenSnoc(NbtImages(es[..i]), NbtEntryImage(es[i]));
  }

  method WriteNbtEntries(page: array<Byte>, es: seq<NbtEntry>)
    requires page.Length == PAGE_SIZE && |es| <= NBT_LEAF_MAX && Filled(page[..], [])
    modifies page
    ensures Filled(page[..], Flatten(NbtImages(es)))
  {
    hide Filled, NbtEntryImage, Flatten;
    assert Flatten(NbtImages(es[..0])) == [];
    for i := 0 to |es|
      invariant Filled(page[..], Flatten(NbtImages(es[..i])))
    {
      NbtImagesStep(es, i);
      WriteNbtEntry(page, i * 32, es[i], Flatten(NbtImages(es[..i])));
    }
    assert es[..|es|] == es;
  }

  /** Sorts its entries; any order may be passed. */
  method BuildNbtLeaf(entries: seq<NbtEntry>, at: Bref)
    returns (r: Result<seq<Byte>, BuildError>, ghost order: seq<NbtEntry>)
    ensures |entries| > NBT_LEAF_MAX <==> r == Failure(TooManyEntries)
    ensures r.Failure? ==> r.error == TooManyEntries
    ensures r.Success? ==> |order| == |entries| && multiset(order) == multiset(entries) && Ascending(order, NidKey)
    ensures r.Success? ==> r.value == LeafPage(order, at)
  {
    hide SealedPage, BtBody, Flatten, NbtImages;
    order := [];
    if |entries| > NBT_LEAF_MAX {
      return Failure(TooManyEntries), [];
    }
    var sorted := Sort(entries, (e: NbtEntry) => e.nid);
    order := sorted;
    assert Ascending(order, NidKey);
    var page := new Byte[PAGE_SIZE](_ => 0);
    WriteNbtEntries(page, sorted);
    LeafFits(sorted);
    FinishBtPage(page, NbtImages(sorted), |sorted|, NBT_LEAF_SHAPE, PTYPE_NBT, at.bid, at.ib);
    r := Success(page[..]);
  }

  lemma LeafFits(es: seq<NbtEntry>)
    requires |es| <= NBT_LEAF_MAX
    ensures |NbtImages(es)| == |es| && |Flatten(NbtImages(es))| <= BT_ENTRIES_AREA
  {
  }

  function IndexError(count: nat, cLevel: Byte, ptype: Byte): Option<BuildError> {
    if count > BT_MAX then Some(TooManyEntries)
    else if cLevel == 0 then Some(LevelZero)
    else if ptype != PTYPE_NBT && ptype != PTYPE_BBT then Some(BadPageType)
    else None
  }

  method BuildBtIntermediate(entries: seq<BtEntry>, cLevel: Byte, ptype: Byte, at: Bref)
    returns (r: Result<seq<Byte>, BuildError>, ghost order: seq<BtEntry>)
    ensures IndexError(|entries|, cLevel, ptype).Some? ==> r == Failure(IndexError(|entries|, cLevel, ptype).value)
    ensures IndexError(|entries|, cLevel, ptype).None? ==> r.Success?
    ensures r.Success? ==> |order| == |entries| && multiset(order) == multiset(entries) && Ascending(order, BtKey)
    ensures r.Success? ==> |order| <= BT_MAX && r.value == IndexPage(order, cLevel, ptype, at)
  {
    hide SealedPage, BtBody, Flatten, BtImages;
    order := [];
    if |entries| > BT_MAX {
      return Failure(TooManyEntries), [];
    }
    if cLevel == 0 {
      return Failure(LevelZero), [];
    }
    if ptype != PTYPE_NBT && ptype != PTYPE_BBT {
      return Failure(BadPageType), [];
    }
    var sorted := Sort(entries, (e: BtEntry) => e.btkey);
    order := sorted;
    assert Ascending(order, BtKey);
    var page := new Byte[PAGE_SIZE](_ => 0);
    WriteBtEntries(page, sorted);
    IndexFits(sorted);
    FinishBtPage(page, BtImages(sorted), |sorted|, BtShape(20, 24, cLevel), ptype, at.bid, at.ib);
    r := Success(page[..]);
  }

  lemma IndexFits(es: seq<BtEntry>)
    requires |es| <= BT_MAX
    ensures |BtImages(es)| == |es| && |Flatten(BtImages(es))| <= BT_ENTRIES_AREA
  {
  }

  // ---- The two-level tree ----

  function LeafCount(n: nat): nat {
    (n + 14) / 15
  }

  /** The `i`-th run of fifteen. */
  function Chunk<T>(es: seq<T>, i: nat): (c: seq<T>)
    requires i < LeafCount(|es|)
    ensures 1 <= |c| <= NBT_LEAF_MAX
    ensures c[0] == es[i * 15]
  {
    var hi := if i * 15 + 15 < |es| then i * 15 + 15 else |es|;
    es[i * 15..hi]
  }

  datatype NbtTree = NbtTree(leafPages: seq<seq<Byte>>, index: Option<seq<Byte>>, root: Bref, level: nat)

  function LeafPages(es: seq<NbtEntry>, brefs: seq<Bref>): (ps: seq<seq<Byte>>)
    requires |brefs| >= LeafCount(|es|)
    ensures |ps| == LeafCount(|es|)
    ensures forall i | 0 <= i < |ps| :: ps[i] == LeafPage(Chunk(es, i), brefs[i])
  {
    seq(LeafCount(|es|), i requires 0 <= i < LeafCount(|es|) => LeafPage(Chunk(es, i), brefs[i]))
  }

  function IndexEntries(es: seq<NbtEntry>, brefs: seq<Bref>): (ies: seq<BtEntry>)
    requires |brefs| >= LeafCount(|es|)
    ensures |ies| == LeafCount(|es|)
    ensures forall i | 0 <= i < |ies| :: ies[i] == BtEntry(Chunk(es, i)[0].nid, brefs[i])
  {
    seq(LeafCount(|es|), i requires 0 <= i < LeafCount(|es|) => BtEntry(Chunk(es, i)[0].nid, brefs[i]))
  }

  /** The pages of the tree over entries in ascending NID order. */
  function TreeOf(es: seq<NbtEntry>, brefs: seq<Bref>, indexBref: Bref): NbtTree
    requires |brefs| >= LeafCount(|es|) && |brefs| >= 1 && LeafCount(|es|) <= BT_MAX
  {
    if es == [] then NbtTree([LeafPage([], brefs[0])], None, brefs[0], 0)
    else if LeafCount(|es|) == 1 then NbtTree(LeafPages(es, brefs), None, brefs[0], 0)
    else NbtTree(LeafPages(es, brefs), Some(IndexPage(IndexEntries(es, brefs), 1, PTYPE_NBT, indexBref)), indexBref, 1)
  }

  /** An ascending arrangement of the given entries; only equal NIDs leave a choice. */
  ghost predicate Arranged(order: seq<NbtEntry>, entries: seq<NbtEntry>) {
    |order| == |entries| && multiset(order) == multiset(entries) && Ascending(order, NidKey)
  }

  ghost predicate IndexArranged(index: seq<BtEntry>, entries: seq<BtEntry>) {
    |index| == |entries| && multiset(index) == multiset(entries) && Ascending(index, BtKey)
  }

  /** The pages of the tree for one arrangement of its entries and one of its index entries. */
  function TreeWith(es: seq<NbtEntry>, index: seq<BtEntry>, brefs: seq<Bref>, indexBref: Bref): NbtTree
    requires |brefs| >= LeafCount(|es|) && |brefs| >= 1 && |index| <= BT_MAX
  {
    if es == [] then NbtTree([LeafPage([], brefs[0])], None, brefs[0], 0)
    else if LeafCount(|es|) == 1 then NbtTree(LeafPages(es, brefs), None, brefs[0], 0)
    else NbtTree(LeafPages(es, brefs), Some(IndexPage(index, 1, PTYPE_NBT, indexBref)), indexBref, 1)
  }

  /**
   The entries are sorted, dealt to leaves and each leaf and the index sorted again. With distinct NIDs the result
   does not depend on the order of the entries.
   */
  method BuildNbtTree(entries: seq<NbtEntry>, brefs: seq<Bref>, indexBref: Bref)
    returns (r: Result<NbtTree, BuildError>, ghost order: seq<NbtEntry>, ghost index: seq<BtEntry>)
    requires |brefs| >= 1 && |brefs| >= LeafCount(|entries|)
    ensures LeafCount(|entries|) > BT_MAX ==> r == Failure(TooManyLeaves)
    ensures LeafCount(|entries|) <= BT_MAX ==>
              && Arranged(order, entries) && IndexArranged(index, IndexEntries(order, brefs)) && |index| <= BT_MAX
              && r == Success(TreeWith(order, index, brefs, indexBref))
    ensures LeafCount(|entries|) <= BT_MAX && DistinctKeys(entries, NidKey) ==>
              r == Success(TreeOf(SortedCopy(entries, NidKey), brefs, indexBref))
  {
    hide LeafPage, IndexPage, DistinctKeys;
    var sorted := Sort(entries, (e: NbtEntry) => e.nid);
    assert Ascending(sorted, NidKey);
    order, index := sorted, [];
    var leafCount := if sorted == [] then 0 else (|sorted| + 14) / 15;
    if leafCount > BT_MAX {
      r := Failure(TooManyLeaves);
      return;
    }
    if sorted == [] {
      var leaf, _ := BuildNbtLeaf([], brefs[0]);
      r := Success(NbtTree([leaf.value], None, brefs[0], 0));
      return;
    }
    var leafPages;
    leafPages, order := BuildLeaves(sorted, leafCount, brefs);
    SameIndexEntries(order, sorted, brefs);
    if leafCount == 1 {
      r := Success(NbtTree(leafPages, None, brefs[0], 0));
      index := IndexEntries(order, brefs);
      if DistinctKeys(entries, NidKey) {
        SortedIsUnique(entries, order, NidKey);
      }
      return;
    }
    var page;
    page, index := BuildIndex(sorted, leafCount, brefs, indexBref);
    if DistinctKeys(entries, NidKey) {
      DistinctArrangement(entries, order, index, brefs);
    }
    r := Success(NbtTree(leafPages, Some(page), indexBref, 1));
  }

  /** Distinct NIDs leave no choice in either arrangement. */
  lemma DistinctArrangement(entries: seq<NbtEntry>, order: seq<NbtEntry>, index: seq<BtEntry>, brefs: seq<Bref>)
    requires DistinctKeys(entries, NidKey) && Arranged(order, entries) && |brefs| >= LeafCount(|entries|)
    requires IndexArranged(index, IndexEntries(order, brefs))
    ensures order == SortedCopy(entries, NidKey) && StrictlyAscending(order, NidKey)
            && index == IndexEntries(order, brefs)
  {
    hide StrictlyAscending, SortedCopy, DistinctKeys, IndexEntries;
    SortedIsUnique(entries, order, NidKey);
    KeysAscend(order, brefs);
    AscendingDistinct(IndexEntries(order, brefs), index, BtKey);
    StrictOrderUnique(index, IndexEntries(order, brefs), BtKey);
  }

  /** Index keys depend only on the NIDs, which all arrangements share. */
  lemma SameIndexEntries(order: seq<NbtEntry>, sorted: seq<NbtEntry>, brefs: seq<Bref>)
    requires Arranged(order, sorted) && Ascending(sorted, NidKey) && |brefs| >= LeafCount(|sorted|)
    ensures IndexEntries(order, brefs) == IndexEntries(sorted, brefs)
  {
    hide Ascending;
    AscendingKeysEqual(order, sorted, NidKey);
    forall i | 0 <= i < LeafCount(|sorted|) ensures IndexEntries(order, brefs)[i] == IndexEntries(sorted, brefs)[i] {
      assert NidKey(order[i * 15]) == NidKey(sorted[i * 15]);
    }
  }

  /** How many of `n` entries the first `li` leaves hold. */
  function Covered(n: nat, li: nat): (c: nat)
    ensures c <= n
  {
    if li * 15 < n then li * 15 else n
  }

  /** The first `li` leaves hold an arrangement of the first `li` runs. */
  ghost predicate LeavesBuilt(sorted: seq<NbtEntry>, order: seq<NbtEntry>, li: nat)
    requires li <= LeafCount(|sorted|)
  {
    var n := Covered(|sorted|, li);
    && |order| == n && multiset(order) == multiset(sorted[..n])
    && forall k | 0 <= k < n :: order[k].nid == sorted[k].nid
  }

  lemma RunAscends(sorted: seq<NbtEntry>, li: nat)
    requires li < LeafCount(|sorted|) && Ascending(sorted, NidKey)
    ensures Ascending(Chunk(sorted, li), NidKey)
  {
    var run, lo := Chunk(sorted, li), li * 15;
    forall i, j | 0 <= i < j < |run| ensures NidKey(run[i]) <= NidKey(run[j]) {
      assert run[i] == sorted[lo + i] && run[j] == sorted[lo + j];
    }
  }

  /** Adding a part to a list of whole runs leaves those runs alone. */
  lemma RunsKept(order: seq<NbtEntry>, part: seq<NbtEntry>, li: nat)
    requires |order| == li * 15 && 1 <= |part| <= NBT_LEAF_MAX
    ensures LeafCount(|order + part|) == li + 1 && LeafCount(|order|) == li
    ensures Chunk(order + part, li) == part && forall k | 0 <= k < li :: Chunk(order + part, k) == Chunk(order, k)
  {
    assert (order + part)[li * 15..] == part;
  }

  lemma SameNids(sorted: seq<NbtEntry>, order: seq<NbtEntry>, lo: nat, part: seq<NbtEntry>)
    requires |order| == lo && lo + |part| <= |sorted|
    requires forall i | 0 <= i < lo :: order[i].nid == sorted[i].nid
    requires forall i | 0 <= i < |part| :: NidKey(part[i]) == NidKey(sorted[lo..lo + |part|][i])
    ensures forall k | 0 <= k < lo + |part| :: (order + part)[k].nid == sorted[k].nid
  {
    forall k | lo <= k < lo + |part| ensures part[k - lo].nid == sorted[k].nid {
      assert NidKey(part[k - lo]) == NidKey(sorted[lo..lo + |part|][k - lo]);
    }
  }

  lemma SameElementsAppended(sorted: seq<NbtEntry>, order: seq<NbtEntry>, lo: nat, part: seq<NbtEntry>)
    requires lo + |part| <= |sorted| && multiset(order) == multiset(sorted[..lo])
    requires multiset(part) == multiset(sorted[lo..lo + |part|])
    ensures multiset(order + part) == multiset(sorted[..lo + |part|])
  {
    assert sorted[..lo + |part|] == sorted[..lo] + sorted[lo..lo + |part|];
  }

  lemma SameKeys(sorted: seq<NbtEntry>, li: nat, part: seq<NbtEntry>)
    requires li < LeafCount(|sorted|) && Ascending(sorted, NidKey) && Arranged(part, Chunk(sorted, li))
    ensures forall i | 0 <= i < |part| :: NidKey(part[i]) == NidKey(Chunk(sorted, li)[i])
  {
    hide Chunk;
    RunAscends(sorted, li);
    AscendingKeysEqual(part, Chunk(sorted, li), NidKey);
  }

  lemma RunCovers(sorted: seq<NbtEntry>, li: nat)
    requires li < LeafCount(|sorted|)
    ensures var lo, hi := Covered(|sorted|, li), Covered(|sorted|, li + 1);
            lo == li * 15 <= hi && Chunk(sorted, li) == sorted[lo..hi]
  {
  }

  lemma LeafAdded(sorted: seq<NbtEntry>, order: seq<NbtEntry>, li: nat, part: seq<NbtEntry>)
    requires li < LeafCount(|sorted|) && Ascending(sorted, NidKey) && LeavesBuilt(sorted, order, li)
    requires Arranged(part, Chunk(sorted, li))
    ensures |order| == li * 15 && LeavesBuilt(sorted, order + part, li + 1)
  {
    hide Ascending, Chunk, Covered;
    var lo := li * 15;
    RunCovers(sorted, li);
    SameKeys(sorted, li, part);
    SameElementsAppended(sorted, order, lo, part);
    SameNids(sorted, order, lo, part);
  }

  method BuildLeaves(sorted: seq<NbtEntry>, leafCount: nat, brefs: seq<Bref>)
    returns (leafPages: seq<seq<Byte>>, ghost order: seq<NbtEntry>)
    requires leafCount == LeafCount(|sorted|) <= |brefs| && Ascending(sorted, NidKey)
    ensures Arranged(order, sorted) && leafPages == LeafPages(order, brefs)
  {
    hide LeafPage, Ascending, LeavesBuilt;
    leafPages, order := [], [];
    NoLeavesBuilt(sorted);
    for li := 0 to leafCount
      invariant |leafPages| == li == LeafCount(|order|) && LeavesBuilt(sorted, order, li)
      invariant forall k | 0 <= k < li :: leafPages[k] == LeafPage(Chunk(order, k), brefs[k])
    {
      var lo := li * 15;
      var hi := if lo + 15 < |sorted| then lo + 15 else |sorted|;
      var page, part := BuildNbtLeaf(sorted[lo..hi], brefs[li]);
      LeafAdded(sorted, order, li, part);
      RunsKept(order, part, li);
      leafPages, order := leafPages + [page.value], order + part;
    }
    AllLeavesBuilt(sorted, order);
  }

  lemma NoLeavesBuilt(sorted: seq<NbtEntry>)
    ensures LeavesBuilt(sorted, [], 0)
  {
  }

  lemma AllLeavesBuilt(sorted: seq<NbtEntry>, order: seq<NbtEntry>)
    requires Ascending(sorted, NidKey) && LeavesBuilt(sorted, order, LeafCount(|sorted|))
    ensures Arranged(order, sorted)
  {
    assert sorted[..|sorted|] == sorted;
    forall i, j | 0 <= i < j < |order| ensures NidKey(order[i]) <= NidKey(order[j]) {
      assert NidKey(sorted[i]) <= NidKey(sorted[j]);
    }
  }

  method BuildIndex(sorted: seq<NbtEntry>, leafCount: nat, brefs: seq<Bref>, indexBref: Bref)
    returns (page: seq<Byte>, ghost index: seq<BtEntry>)
    requires leafCount == LeafCount(|sorted|) <= |brefs| && leafCount <= BT_MAX
    ensures IndexArranged(index, IndexEntries(sorted, brefs)) && |index| <= BT_MAX
    ensures page == IndexPage(index, 1, PTYPE_NBT, indexBref)
  {
    hide IndexPage;
    var btEntries: seq<BtEntry> := [];
    for li := 0 to leafCount
      invariant |btEntries| == li
      invariant forall k | 0 <= k < li :: btEntries[k] == BtEntry(Chunk(sorted, k)[0].nid, brefs[k])
    {
      btEntries := btEntries + [BtEntry(sorted[li * 15].nid, brefs[li])];
    }
    assert btEntries == IndexEntries(sorted, brefs);
    var r;
    r, index := BuildBtIntermediate(btEntries, 1, PTYPE_NBT, indexBref);
    page := r.value;
  }

  /** The first NIDs of the leaves ascend. */
  lemma KeysAscend(sorted: seq<NbtEntry>, brefs: seq<Bref>)
    requires |brefs| >= LeafCount(|sorted|) && StrictlyAscending(sorted, NidKey)
    ensures StrictlyAscending(IndexEntries(sorted, brefs), BtKey) && DistinctKeys(IndexEntries(sorted, brefs), BtKey)
  {
    var ies := IndexEntries(sorted, brefs);
    forall i, j | 0 <= i < j < |ies| ensures BtKey(ies[i]) < BtKey(ies[j]) {
      assert NidKey(sorted[i * 15]) < NidKey(sorted[j * 15]);
    }
  }
}
