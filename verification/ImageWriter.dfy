/** writeM5Pst itself: plan, pages, and emission through a second cursor (src/writer.cpp). */
module ImageWriter {
  import opened Bytes
  import opened Header
  import opened Image
  import opened Ndb
  import opened Page
  import opened Nbt
  import opened Sorting
  import opened Wrappers

  // ---- 1. Layout plan ----

  datatype Plan = Plan(
    blockIbs: seq<nat>,
    bbtLeafIbs: seq<nat>,
    bbtRootIb: nat,
    nbtLeafIbs: seq<nat>,
    nbtRootIb: nat,
    ibFileEof: nat)

  ghost predicate PlanHolds(plan: Plan, blocks: seq<BlockSpec>, nodeCount: nat) {
    var start, b, n := PagesStart(blocks), BbtLeaves(|blocks|), NbtLeaves(nodeCount);
    && |plan.blockIbs| == |blocks| && (forall i | 0 <= i < |blocks| :: plan.blockIbs[i] == BlockIb(blocks, i))
    && |plan.bbtLeafIbs| == b && (forall i | 0 <= i < b :: plan.bbtLeafIbs[i] == PageIb(start, i))
    && plan.bbtRootIb == PageIb(start, RootPage(b, 0))
    && |plan.nbtLeafIbs| == n && (forall i | 0 <= i < n :: plan.nbtLeafIbs[i] == PageIb(start, TreePages(b) + i))
    && plan.nbtRootIb == PageIb(start, RootPage(n, TreePages(b)))
    && plan.ibFileEof == FileEnd(blocks, nodeCount)
  }

  method PlanLayout(blocks: seq<BlockSpec>, nodeCount: nat) returns (plan: Plan)
    ensures PlanHolds(plan, blocks, nodeCount)
  {
    var blockIbs, cursor := PlanBlocks(blocks);
    cursor := AlignToPage(cursor);
    var nBbt := if |blocks| == 0 then 1 else (|blocks| + 19) / 20;
    var bbtLeafIbs, c1 := PlanPages(cursor, nBbt);
    var bbtRootIb := if nBbt > 1 then c1 else bbtLeafIbs[0];
    if nBbt > 1 {
      c1 := c1 + PAGE_SIZE;
    }
    var nNbt := if nodeCount == 0 then 1 else (nodeCount + 14) / 15;
    var nbtLeafIbs, c2 := PlanPages(c1, nNbt);
    var nbtRootIb := if nNbt > 1 then c2 else nbtLeafIbs[0];
    if nNbt > 1 {
      c2 := c2 + PAGE_SIZE;
    }
    plan := Plan(blockIbs, bbtLeafIbs, bbtRootIb, nbtLeafIbs, nbtRootIb, c2);
  }

  method PlanBlocks(blocks: seq<BlockSpec>) returns (ibs: seq<nat>, cursor: nat)
    ensures |ibs| == |blocks| && forall i | 0 <= i < |blocks| :: ibs[i] == BlockIb(blocks, i)
    ensures cursor == BlockIb(blocks, |blocks|)
  {
    ibs, cursor := [], BLOCKS_START;
    BlockIbStart(blocks);
    for i := 0 to |blocks|
      invariant |ibs| == i && forall k | 0 <= k < i :: ibs[k] == BlockIb(blocks, k)
      invariant cursor == BlockIb(blocks, i)
    {
      BlockIbStep(blocks, i);
      ibs := ibs + [cursor];
      cursor := cursor + |blocks[i].encodedBlock|;
    }
  }

  lemma BlockIbStart(blocks: seq<BlockSpec>)
    ensures BlockIb(blocks, 0) == BLOCKS_START
  {
    assert BlockBytes(blocks)[..0] == [];
  }

  lemma BlockIbStep(blocks: seq<BlockSpec>, i: nat)
    requires i < |blocks|
    ensures BlockIb(blocks, i + 1) == BlockIb(blocks, i) + |blocks[i].encodedBlock|
    ensures Flatten(BlockBytes(blocks)[..i + 1]) == Flatten(BlockBytes(blocks)[..i]) + blocks[i].encodedBlock
  {
    var bs := BlockBytes(blocks);
    assert bs[..i + 1] == bs[..i] + [bs[i]];
    FlattenSnoc(bs[..i], bs[i]);
  }

  method PlanPages(from: nat, count: nat) returns (ibs: seq<nat>, cursor: nat)
    ensures |ibs| == count && forall i | 0 <= i < count :: ibs[i] == from + PAGE_SIZE * i
    ensures cursor == from + PAGE_SIZE * count
  {
    ibs, cursor := [], from;
    for i := 0 to count
      invariant |ibs| == i && forall k | 0 <= k < i :: ibs[k] == from + PAGE_SIZE * k
      invariant cursor == from + PAGE_SIZE * i
    {
      ibs := ibs + [cursor];
      cursor := cursor + PAGE_SIZE;
    }
  }

  // ---- 2. Page ids ----

  method AllocatePageBids(nBbt: nat, nNbt: nat)
    returns (bbtLeafBids: seq<Bid>, bbtRootBid: Bid, nbtLeafBids: seq<Bid>, nbtRootBid: Bid, next: Bid)
    requires 1 <= nBbt <= 20 && 1 <= nNbt <= 20
    ensures |bbtLeafBids| == nBbt && forall i | 0 <= i < nBbt :: bbtLeafBids[i] == PageBid(i)
    ensures bbtRootBid == PageBid(RootPage(nBbt, 0))
    ensures |nbtLeafBids| == nNbt && forall i | 0 <= i < nNbt :: nbtLeafBids[i] == PageBid(TreePages(nBbt) + i)
    ensures nbtRootBid == PageBid(RootPage(nNbt, TreePages(nBbt)))
    ensures next == PageBid(TreePages(nBbt) + TreePages(nNbt))
  {
    bbtLeafBids, next := TakeBids(MakeInternalBid(2), nBbt);
    bbtRootBid := if nBbt > 1 then next else bbtLeafBids[0];
    if nBbt > 1 {
      next := next + 4;
    }
    nbtLeafBids, next := TakeBids(next, nNbt);
    nbtRootBid := if nNbt > 1 then next else nbtLeafBids[0];
    if nNbt > 1 {
      next := next + 4;
    }
  }

  method TakeBids(from: Bid, count: nat) returns (bids: seq<Bid>, next: Bid)
    requires count <= 20 && from < 0x1000
    ensures |bids| == count && forall i | 0 <= i < count :: bids[i] == from + 4 * i
    ensures next == from + 4 * count
  {
    bids, next := [], from;
    for i := 0 to count
      invariant |bids| == i && forall k | 0 <= k < i :: bids[k] == from + 4 * k
      invariant next == from + 4 * i
    {
      bids := bids + [next];
      next := next + 4;
    }
  }

  // ---- 3. and 4. Pages ----

  /** Deals sorted entries out to leaves of `cap`. */
  method Partition<T>(es: seq<T>, leafCount: nat, cap: nat) returns (leaves: seq<seq<T>>)
    requires cap > 0 && |es| <= leafCount * cap
    ensures |leaves| == leafCount && forall k | 0 <= k < leafCount :: leaves[k] == Cut(es, k * cap, k * cap + cap)
  {
    hide Cut;
    NothingCut(es);
    leaves := seq(leafCount, _ => []);
    for i := 0 to |es|
      invariant |leaves| == leafCount
      invariant forall k | 0 <= k < leafCount :: leaves[k] == Cut(es[..i], k * cap, k * cap + cap)
    {
      var leaf := i / cap;
      LeafOf(i, cap, leafCount, |es|);
      forall k | 0 <= k < leafCount
        ensures Cut(es[..i + 1], k * cap, k * cap + cap)
                == if k == leaf then leaves[k] + [es[i]] else leaves[k]
      {
        CutGrows(es, i, cap, k);
      }
      leaves := leaves[leaf := leaves[leaf] + [es[i]]];
    }
    assert es[..|es|] == es;
  }

  lemma NothingCut<T>(es: seq<T>)
    ensures forall lo: nat, hi: nat | lo <= hi :: Cut(es[..0], lo, hi) == []
  {
  }

  lemma LeafOf(i: nat, cap: nat, leafCount: nat, n: nat)
    requires cap > 0 && i < n <= leafCount * cap
    ensures i / cap < leafCount
  {
    var q := i / cap;
    assert i == q * cap + i % cap;
    if q >= leafCount {
      MulAtMost(leafCount, q, cap);
    }
  }

  lemma CutGrows<T>(es: seq<T>, i: nat, cap: nat, k: nat)
    requires cap > 0 && i < |es|
    ensures Cut(es[..i + 1], k * cap, k * cap + cap)
            == Cut(es[..i], k * cap, k * cap + cap) + if k == i / cap then [es[i]] else []
  {
    InRun(i, cap, k);
    CutStep(es, i, k * cap, k * cap + cap);
  }

  lemma CutStep<T>(es: seq<T>, i: nat, lo: nat, hi: nat)
    requires lo <= hi && i < |es|
    ensures Cut(es[..i + 1], lo, hi) == Cut(es[..i], lo, hi) + if lo <= i < hi then [es[i]] else []
  {
    if i < lo {
      assert Cut(es[..i + 1], lo, hi) == [] == Cut(es[..i], lo, hi);
    } else if i < hi {
      assert Cut(es[..i + 1], lo, hi) == es[lo..i + 1] == es[lo..i] + [es[i]];
      assert Cut(es[..i], lo, hi) == es[lo..i];
    } else {
      assert es[..i + 1][lo..hi] == es[lo..hi] == es[..i][lo..hi];
    }
  }

  lemma InRun(i: nat, cap: nat, k: nat)
    requires cap > 0
    ensures k * cap <= i < k * cap + cap <==> k == i / cap
  {
    var q := i / cap;
    assert i == q * cap + i % cap;
    if k < q {
      MulAtMost(k + 1, q, cap);
      assert (k + 1) * cap == k * cap + cap;
    } else if k > q {
      MulAtMost(q + 1, k, cap);
      assert (q + 1) * cap == q * cap + cap;
    }
  }

  method CollectBbtEntries(blocks: seq<BlockSpec>, ibs: seq<nat>) returns (es: seq<BbtEntry>)
    requires BlockIb(blocks, |blocks|) < 0x1_0000_0000_0000_0000
    requires |ibs| == |blocks| && forall i | 0 <= i < |blocks| :: ibs[i] == BlockIb(blocks, i)
    ensures es == BbtEntries(blocks)
  {
    hide BlockIb;
    es := [];
    for i := 0 to |blocks|
      invariant |es| == i && forall k | 0 <= k < i :: es[k] == BbtEntryFor(blocks, k)
    {
      BlockIbGrows(blocks, i, |blocks|);
      es := es + [BbtEntry(Bref(blocks[i].bid, ibs[i]), blocks[i].cb, 2)];
    }
  }

  method BuildBbtLeaves(es: seq<BbtEntry>, start: nat, ibs: seq<nat>, bids: seq<Bid>) returns (pages: seq<seq<Byte>>)
    requires |es| <= 400 && start + PAGE_SIZE * 42 < 0x1_0000_0000_0000_0000
    requires |ibs| == |bids| == BbtLeaves(|es|)
    requires forall i | 0 <= i < |ibs| :: ibs[i] == PageIb(start, i) && bids[i] == PageBid(i)
    ensures pages == BbtLeafPages(es, start)
  {
    hide BbtLeafPage, Cut;
    var perLeaf := Partition(es, |ibs|, 20);
    pages := [];
    for i := 0 to |ibs|
      invariant |pages| == i && forall k | 0 <= k < i :: pages[k] == BbtLeafAt(es, start, k)
    {
      var page := BuildBbtLeafPage(perLeaf[i], Bref(bids[i], ibs[i]));
      pages := pages + [page];
    }
  }

  method BuildBbtLeafPage(es: seq<BbtEntry>, at: Bref) returns (page: seq<Byte>)
    requires |es| <= BBT_LEAF_MAX
    ensures page == BbtLeafPage(es, at)
  {
    page := BuildBbtLeaf(es, at.bid, at.ib);
  }

  method BuildBbtIndex(es: seq<BbtEntry>, start: nat, ibs: seq<nat>, bids: seq<Bid>, at: Bref) returns (page: seq<Byte>)
    requires 0 < |es| <= 400 && start + PAGE_SIZE * 42 < 0x1_0000_0000_0000_0000
    requires |ibs| == |bids| == BbtLeaves(|es|)
    requires forall i | 0 <= i < |ibs| :: ibs[i] == PageIb(start, i) && bids[i] == PageBid(i)
    requires at == PageRef(start, BbtLeaves(|es|))
    ensures page == BbtIndexPage(es, start)
  {
    hide SealedPage, BtBody;
    var index: seq<BtEntry> := [];
    for i := 0 to |ibs|
      invariant |index| == i && forall k | 0 <= k < i :: index[k] == BtEntry(es[k * 20].bref.bid, PageRef(start, k))
    {
      index := index + [BtEntry(es[i * 20].bref.bid, Bref(bids[i], ibs[i]))];
    }
    assert index == BbtIndexEntries(es, start);
    page := BuildBbtIntermediate(index, 1, at.bid, at.ib);
  }

  /** The first `i` leaf pages hold an arrangement of the first runs of the sorted nodes. */
  ghost predicate NbtLeavesOut(es: seq<NbtEntry>, order: seq<NbtEntry>, pages: seq<seq<Byte>>, start: nat, first: nat,
                               i: nat)
    requires i <= NbtLeaves(|es|) <= 20 && first <= 21 && start + PAGE_SIZE * 42 < 0x1_0000_0000_0000_0000
  {
    && |pages| == i
    && (if es == [] then order == [] else i <= LeafCount(|es|) && LeavesBuilt(es, order, i))
    && forall k | 0 <= k < i :: pages[k] == LeafPage(Cut(order, k * 15, k * 15 + 15), PageRef(start, first + k))
  }

  lemma NbtLeafNext(es: seq<NbtEntry>, order: seq<NbtEntry>, pages: seq<seq<Byte>>, start: nat, first: nat, i: nat,
                    part: seq<NbtEntry>)
    requires i < NbtLeaves(|es|) <= 20 && first <= 21 && start + PAGE_SIZE * 42 < 0x1_0000_0000_0000_0000
    requires Ascending(es, NidKey) && NbtLeavesOut(es, order, pages, start, first, i)
    requires Arranged(part, Cut(es, i * 15, i * 15 + 15))
    ensures NbtLeavesOut(es, order + part, pages + [LeafPage(part, PageRef(start, first + i))], start, first, i + 1)
  {
    hide LeafPage, Ascending, LeavesBuilt;
    if es == [] {
      assert part == [];
      assert order + part == [];
    } else {
      LeafAdded(es, order, i, part);
      forall k | 0 <= k < i ensures Cut(order + part, k * 15, k * 15 + 15) == Cut(order, k * 15, k * 15 + 15) {
        CutKept(order, part, k * 15, k * 15 + 15);
      }
      assert Cut(order + part, i * 15, i * 15 + 15) == part;
    }
  }

  lemma CutKept<T>(a: seq<T>, b: seq<T>, lo: nat, hi: nat)
    requires lo <= hi <= |a|
    ensures Cut(a + b, lo, hi) == Cut(a, lo, hi)
  {
  }

  lemma NbtLeavesDone(es: seq<NbtEntry>, order: seq<NbtEntry>, pages: seq<seq<Byte>>, start: nat, first: nat)
    requires |es| <= 300 && first <= 21 && start + PAGE_SIZE * 42 < 0x1_0000_0000_0000_0000
    requires Ascending(es, NidKey) && NbtLeavesOut(es, order, pages, start, first, NbtLeaves(|es|))
    ensures Arranged(order, es) && pages == NbtLeafPages(order, start, first)
  {
    hide LeafPage, Ascending, LeavesBuilt;
    if es == [] {
    } else {
      AllLeavesBuilt(es, order);
    }
  }

  lemma NoNbtLeaves(es: seq<NbtEntry>, start: nat, first: nat)
    requires |es| <= 300 && first <= 21 && start + PAGE_SIZE * 42 < 0x1_0000_0000_0000_0000
    ensures NbtLeavesOut(es, [], [], start, first, 0)
  {
  }

  method BuildNbtLeaves(es: seq<NbtEntry>, start: nat, first: nat, ibs: seq<nat>, bids: seq<Bid>)
    returns (pages: seq<seq<Byte>>, ghost order: seq<NbtEntry>)
    requires |es| <= 300 && first <= 21 && start + PAGE_SIZE * 42 < 0x1_0000_0000_0000_0000 && Ascending(es, NidKey)
    requires |ibs| == |bids| == NbtLeaves(|es|)
    requires forall i | 0 <= i < |ibs| :: ibs[i] == PageIb(start, first + i) && bids[i] == PageBid(first + i)
    ensures Arranged(order, es) && pages == NbtLeafPages(order, start, first)
  {
    var perLeaf := Partition(es, |ibs|, 15);
    hide LeafPage, Ascending, Arranged, NbtLeavesOut, NbtLeafPages, LeafCount, Cut;
    pages, order := [], [];
    NoNbtLeaves(es, start, first);
    for i := 0 to |ibs|
      invariant NbtLeavesOut(es, order, pages, start, first, i)
    {
      var at := Bref(bids[i], ibs[i]);
      assert at == PageRef(start, first + i);
      hide PageRef;
      var page, part := BuildNbtLeafPage(perLeaf[i], at);
      NbtLeafNext(es, order, pages, start, first, i, part);
      pages, order := pages + [page], order + part;
    }
    NbtLeavesDone(es, order, pages, start, first);
  }

  method BuildNbtLeafPage(es: seq<NbtEntry>, at: Bref) returns (page: seq<Byte>, ghost part: seq<NbtEntry>)
    requires |es| <= NBT_LEAF_MAX
    ensures Arranged(part, es) && page == LeafPage(part, at)
  {
    var r;
    r, part := BuildNbtLeaf(es, at);
    page := r.value;
  }

  method BuildNbtIndex(es: seq<NbtEntry>, start: nat, first: nat, ibs: seq<nat>, bids: seq<Bid>, at: Bref)
    returns (page: seq<Byte>, ghost index: seq<BtEntry>)
    requires 0 < |es| <= 300 && first <= 21 && start + PAGE_SIZE * 42 < 0x1_0000_0000_0000_0000
    requires |ibs| == |bids| == NbtLeaves(|es|)
    requires forall i | 0 <= i < |ibs| :: ibs[i] == PageIb(start, first + i) && bids[i] == PageBid(first + i)
    requires at == PageRef(start, first + NbtLeaves(|es|))
    ensures IndexArranged(index, IndexEntries(es, NbtBrefs(NbtLeaves(|es|), start, first))) && |index| <= BT_MAX
    ensures page == IndexPage(index, 1, PTYPE_NBT, at)
  {
    hide IndexPage;
    var refs: seq<Bref> := [];
    for i := 0 to |ibs|
      invariant |refs| == i && forall k | 0 <= k < i :: refs[k] == PageRef(start, first + k)
    {
      refs := refs + [Bref(bids[i], ibs[i])];
    }
    assert refs == NbtBrefs(NbtLeaves(|es|), start, first);
    page, index := BuildIndex(es, LeafCount(|es|), refs, at);
  }

  // ---- 5. and 6. Emission ----

  /** The output file and the count of bytes written to it, which is kept apart from the plan. */
  class Emitter {
    var file: seq<Byte>
    var writtenIb: nat

    predicate Valid()
      reads this
    {
      writtenIb == |file|
    }

    constructor ()
      ensures Valid() && file == []
    {
      file, writtenIb := [], 0;
    }

    /** Zeros up to the target; nothing when the target has already been passed. */
    method PadTo(targetIb: nat)
      requires Valid()
      modifies this
      ensures Valid()
      ensures file == old(file) + Zeros(if targetIb > |old(file)| then targetIb - |old(file)| else 0)
    {
      if targetIb > writtenIb {
        file := file + Zeros(targetIb - writtenIb);
        writtenIb := targetIb;
      }
    }

    method Emit(data: seq<Byte>)
      requires Valid()
      modifies this
      ensures Valid() && file == old(file) + data
    {
      file := file + data;
      writtenIb := writtenIb + |data|;
    }
  }

  /** The file once the first `k` pages are out; the alignment gap is written with the first of them. */
  ghost predicate PagesOut(file: seq<Byte>, before: seq<Byte>, gap: nat, pages: seq<seq<Byte>>, k: nat)
    requires k <= |pages|
  {
    file == if k == 0 then before else before + Zeros(gap) + Flatten(pages[..k])
  }

  lemma NextPageOut(before: seq<Byte>, gap: nat, pages: seq<seq<Byte>>, k: nat)
    requires k < |pages| && forall i | 0 <= i < |pages| :: |pages[i]| == PAGE_SIZE
    ensures |Flatten(pages[..k])| == PAGE_SIZE * k
    ensures before + Zeros(gap) + Flatten(pages[..k + 1]) == before + Zeros(gap) + Flatten(pages[..k]) + pages[k]
  {
    FlattenUniformLength(pages[..k], PAGE_SIZE);
    assert pages[..k + 1] == pages[..k] + [pages[k]];
    FlattenSnoc(pages[..k], pages[k]);
  }

  method EmitPage(out: Emitter, ib: nat, page: seq<Byte>, ghost before: seq<Byte>, ghost gap: nat,
                  ghost pages: seq<seq<Byte>>, ghost k: nat)
    requires out.Valid() && k < |pages| && pages[k] == page
    requires forall i | 0 <= i < |pages| :: |pages[i]| == PAGE_SIZE
    requires ib == |before| + gap + PAGE_SIZE * k && PagesOut(out.file, before, gap, pages, k)
    modifies out
    ensures out.Valid() && PagesOut(out.file, before, gap, pages, k + 1)
  {
    NextPageOut(before, gap, pages, k);
    if k == 0 {
      assert pages[..0] == [] && before + Zeros(gap) + [] == before + Zeros(gap);
    } else {
      assert out.file + Zeros(0) == out.file;
    }
    out.PadTo(ib);
    out.Emit(page);
  }

  /** The pages of one tree: leaves and index, or the only leaf as its own root. */
  method EmitTree(out: Emitter, leafIbs: seq<nat>, leafPages: seq<seq<Byte>>, rootIb: nat, rootPage: seq<Byte>,
                  ghost before: seq<Byte>, ghost gap: nat, ghost pages: seq<seq<Byte>>, ghost first: nat)
    requires out.Valid() && forall i | 0 <= i < |pages| :: |pages[i]| == PAGE_SIZE
    requires |leafIbs| == |leafPages| >= 1 && first + TreePages(|leafPages|) <= |pages|
    requires forall i | 0 <= i < |leafPages| ::
               leafIbs[i] == |before| + gap + PAGE_SIZE * (first + i) && pages[first + i] == leafPages[i]
    requires rootIb == |before| + gap + PAGE_SIZE * RootPage(|leafPages|, first)
    requires pages[RootPage(|leafPages|, first)] == rootPage
    requires PagesOut(out.file, before, gap, pages, first)
    modifies out
    ensures out.Valid() && PagesOut(out.file, before, gap, pages, first + TreePages(|leafPages|))
  {
    hide PagesOut, Emitter.Valid;
    var hasIntermediate := |leafPages| > 1;
    var i := 0;
    while i < |leafPages|
      invariant 0 <= i <= |leafPages| && (!hasIntermediate ==> i == 0)
      invariant out.Valid() && PagesOut(out.file, before, gap, pages, first + i)
    {
      if !hasIntermediate {
        break;
      }
      EmitPage(out, leafIbs[i], leafPages[i], before, gap, pages, first + i);
      i := i + 1;
    }
    EmitPage(out, rootIb, rootPage, before, gap, pages, RootPage(|leafPages|, first));
  }

  method EmitBlocks(out: Emitter, blocks: seq<BlockSpec>, ghost front: seq<Byte>)
    requires out.Valid() && out.file == front
    modifies out
    ensures out.Valid() && out.file == front + Flatten(BlockBytes(blocks))
  {
    hide BlockIb, Flatten;
    BlocksBegin(blocks, front);
    for i := 0 to |blocks|
      invariant out.Valid() && out.file == front + Flatten(BlockBytes(blocks)[..i])
    {
      BlockIbStep(blocks, i);
      assert front + Flatten(BlockBytes(blocks)[..i]) + blocks[i].encodedBlock
          == front + Flatten(BlockBytes(blocks)[..i + 1]);
      out.Emit(blocks[i].encodedBlock);
    }
    assert BlockBytes(blocks)[..|blocks|] == BlockBytes(blocks);
  }

  lemma BlocksBegin(blocks: seq<BlockSpec>, front: seq<Byte>)
    ensures front + Flatten(BlockBytes(blocks)[..0]) == front
  {
  }

  // ---- The writer ----

  /** The pages of a tree in file order. */
  function TreeSeq(leaves: seq<seq<Byte>>, root: seq<Byte>): seq<seq<Byte>> {
    leaves + if |leaves| > 1 then [root] else []
  }

  ghost predicate TreeShape(leaves: seq<seq<Byte>>, root: seq<Byte>) {
    && |leaves| >= 1 && (|leaves| == 1 ==> root == leaves[0])
    && |root| == PAGE_SIZE && forall i | 0 <= i < |leaves| :: |leaves[i]| == PAGE_SIZE
  }

  /** The sorted entries, pages and root of the block B-tree. */
  method BuildBbt(blocks: seq<BlockSpec>, start: nat, plan: Plan, bids: seq<Bid>, rootBid: Bid, nodeCount: nat)
    returns (leaves: seq<seq<Byte>>, root: seq<Byte>, ghost order: seq<BbtEntry>)
    requires Sized(blocks, nodeCount) && PlanHolds(plan, blocks, nodeCount) && start == PagesStart(blocks)
    requires |bids| == BbtLeaves(|blocks|) && forall i | 0 <= i < |bids| :: bids[i] == PageBid(i)
    requires rootBid == PageBid(RootPage(|bids|, 0))
    ensures |leaves| == |bids| && TreeShape(leaves, root)
    ensures BlockIb(blocks, |blocks|) < 0x1_0000_0000_0000_0000
    ensures |order| == |blocks| && multiset(order) == multiset(BbtEntries(blocks)) && Ascending(order, BbtKey)
    ensures TreeSeq(leaves, root) == BbtPages(order, start)
  {
    hide BlockIb, Flatten, BbtLeafPages, BbtIndexPage;
    BlocksFit(blocks, nodeCount);
    var entries := CollectBbtEntries(blocks, plan.blockIbs);
    var es := Sort(entries, (e: BbtEntry) => e.bref.bid);
    order := es;
    assert Ascending(order, BbtKey);
    leaves := BuildBbtLeaves(es, start, plan.bbtLeafIbs, bids);
    if |bids| > 1 {
      root := BuildBbtIndex(es, start, plan.bbtLeafIbs, bids, Bref(rootBid, plan.bbtRootIb));
    } else {
      root := leaves[0];
    }
  }

  lemma BlocksFit(blocks: seq<BlockSpec>, nodeCount: nat)
    requires Sized(blocks, nodeCount)
    ensures BlockIb(blocks, |blocks|) < 0x1_0000_0000_0000_0000
  {
  }

  method BuildNbt(nodes: seq<NbtEntry>, start: nat, first: nat, leafIbs: seq<nat>, rootIb: nat, bids: seq<Bid>,
                  rootBid: Bid)
    returns (leaves: seq<seq<Byte>>, root: seq<Byte>, ghost order: seq<NbtEntry>, ghost index: seq<BtEntry>)
    requires |nodes| <= 300 && first <= 21 && start + PAGE_SIZE * 42 < 0x1_0000_0000_0000_0000
    requires |leafIbs| == |bids| == NbtLeaves(|nodes|)
    requires forall i | 0 <= i < |bids| :: leafIbs[i] == PageIb(start, first + i) && bids[i] == PageBid(first + i)
    requires rootIb == PageIb(start, RootPage(|bids|, first)) && rootBid == PageBid(RootPage(|bids|, first))
    ensures |leaves| == |bids| && TreeShape(leaves, root)
    ensures Arranged(order, nodes) && |index| <= BT_MAX
    ensures IndexArranged(index, IndexEntries(order, NbtBrefs(NbtLeaves(|nodes|), start, first)))
    ensures TreeSeq(leaves, root) == NbtPagesWith(order, index, start, first)
  {
    hide NbtLeafPages, IndexPage, IndexEntries;
    var es := Sort(nodes, (e: NbtEntry) => e.nid);
    assert Ascending(es, NidKey);
    leaves, order := BuildNbtLeaves(es, start, first, leafIbs, bids);
    SameIndexEntries(order, es, NbtBrefs(NbtLeaves(|nodes|), start, first));
    if |bids| > 1 {
      root, index := BuildNbtIndex(es, start, first, leafIbs, bids, Bref(rootBid, rootIb));
    } else {
      root := leaves[0];
      index := IndexEntries(order, NbtBrefs(NbtLeaves(|nodes|), start, first));
      OneIndexEntry(index);
    }
  }

  lemma OneIndexEntry(index: seq<BtEntry>)
    requires |index| <= 1
    ensures Ascending(index, BtKey)
  {
  }

  lemma LeavesBound(blockCount: nat, nodeCount: nat)
    requires blockCount <= 400 && nodeCount <= 300
    ensures TreePages(BbtLeaves(blockCount)) <= 21 && LeafCount(nodeCount) <= NbtLeaves(nodeCount) <= 20
  {
  }

  /** The three sorted lists of a file; only equal ids leave a choice. */
  ghost predicate Arrangement(blocks: seq<BlockSpec>, nodes: seq<NbtEntry>, bes: seq<BbtEntry>, order: seq<NbtEntry>,
                              index: seq<BtEntry>)
    requires Sized(blocks, |nodes|)
  {
    BlocksFit(blocks, |nodes|);
    LeavesBound(|blocks|, |nodes|);
    && |bes| == |blocks| && multiset(bes) == multiset(BbtEntries(blocks)) && Ascending(bes, BbtKey)
    && Arranged(order, nodes) && |index| <= BT_MAX
    && IndexArranged(index, IndexEntries(order, NbtBrefs(NbtLeaves(|nodes|), PagesStart(blocks),
                                                         TreePages(BbtLeaves(|blocks|)))))
  }

  /** With distinct ids the arrangements are the sorted copies. */
  lemma DistinctImage(blocks: seq<BlockSpec>, nodes: seq<NbtEntry>, bes: seq<BbtEntry>, order: seq<NbtEntry>,
                      index: seq<BtEntry>)
    requires Sized(blocks, |nodes|) && DistinctKeys(blocks, SpecKey) && DistinctKeys(nodes, NidKey)
    requires Arrangement(blocks, nodes, bes, order, index)
    ensures ImageWith(blocks, bes, order, index) == ImageOf(blocks, nodes)
  {
    hide BlockIb, PagesStart, IndexEntries, DistinctKeys, Ascending, SortedCopy, StrictlyAscending, NbtLeafPages,
         IndexPage, BbtPages, Assembled, Front, HeaderImage, AMapPage, StateOf, BbtLeaves, NbtLeaves, TreePages,
         BbtEntries;
    BlocksFit(blocks, |nodes|);
    LeavesBound(|blocks|, |nodes|);
    DistinctEntries(blocks, |nodes|);
    SortedIsUnique(BbtEntries(blocks), bes, BbtKey);
    var start, first := PagesStart(blocks), TreePages(BbtLeaves(|blocks|));
    DistinctArrangement(nodes, order, index, NbtBrefs(NbtLeaves(|nodes|), start, first));
    SamePages(order, index, start, first);
  }

  lemma SamePages(es: seq<NbtEntry>, index: seq<BtEntry>, start: nat, first: nat)
    requires |es| <= 300 && first <= 21 && start + PAGE_SIZE * 42 < 0x1_0000_0000_0000_0000 && |index| <= BT_MAX
    requires index == IndexEntries(es, NbtBrefs(NbtLeaves(|es|), start, first))
    ensures NbtPagesWith(es, index, start, first) == NbtPages(es, start, first)
  {
    hide NbtLeafPages, IndexPage, IndexEntries;
  }

  method EmitFront(out: Emitter, header: seq<Byte>, amap: seq<Byte>)
    requires out.Valid() && out.file == [] && |header| == HEADER_SIZE && |amap| == PAGE_SIZE
    modifies out
    ensures out.Valid() && out.file == Front(header, amap)
  {
    out.Emit(header);
    out.PadTo(IB_AMAP);
    out.Emit(amap);
    out.PadTo(BLOCKS_START);
  }

  method EmitAll(plan: Plan, blocks: seq<BlockSpec>, ghost nodeCount: nat, header: seq<Byte>, amap: seq<Byte>,
                 bbtLeaves: seq<seq<Byte>>, bbtRoot: seq<Byte>, nbtLeaves: seq<seq<Byte>>, nbtRoot: seq<Byte>)
    returns (file: seq<Byte>)
    requires PlanHolds(plan, blocks, nodeCount) && |header| == HEADER_SIZE && |amap| == PAGE_SIZE
    requires |bbtLeaves| == BbtLeaves(|blocks|) && TreeShape(bbtLeaves, bbtRoot)
    requires |nbtLeaves| == NbtLeaves(nodeCount) && TreeShape(nbtLeaves, nbtRoot)
    ensures file == Assembled(Front(header, amap), blocks, TreeSeq(bbtLeaves, bbtRoot) + TreeSeq(nbtLeaves, nbtRoot))
  {
    ghost var front, pages := Front(header, amap), TreeSeq(bbtLeaves, bbtRoot) + TreeSeq(nbtLeaves, nbtRoot);
    ghost var before := front + Flatten(BlockBytes(blocks));
    ghost var gap := PagesStart(blocks) - BlockIb(blocks, |blocks|);
    AllBlocks(blocks);
    PagesAreListed(bbtLeaves, bbtRoot, nbtLeaves, nbtRoot);
    hide Flatten, BlockIb, PagesStart, BbtLeaves, NbtLeaves, Front, BlockBytes, TreeSeq, PagesOut, PlanHolds,
         Emitter.Valid;
    var out := new Emitter();
    EmitFront(out, header, amap);
    EmitBlocks(out, blocks, front);
    NoPagesOut(before, gap, pages);
    EmitPages(out, plan, blocks, nodeCount, bbtLeaves, bbtRoot, nbtLeaves, nbtRoot, before, gap, pages);
    AllPagesOut(out.file, before, gap, pages);
    file := out.file;
  }

  method EmitPages(out: Emitter, plan: Plan, ghost blocks: seq<BlockSpec>, ghost nodeCount: nat,
                   bbtLeaves: seq<seq<Byte>>, bbtRoot: seq<Byte>, nbtLeaves: seq<seq<Byte>>, nbtRoot: seq<Byte>,
                   ghost before: seq<Byte>, ghost gap: nat, ghost pages: seq<seq<Byte>>)
    requires out.Valid() && PlanHolds(plan, blocks, nodeCount) && |before| + gap == PagesStart(blocks)
    requires |bbtLeaves| == BbtLeaves(|blocks|) && |nbtLeaves| == NbtLeaves(nodeCount)
    requires PagesListed(pages, bbtLeaves, bbtRoot, nbtLeaves, nbtRoot)
    requires PagesOut(out.file, before, gap, pages, 0)
    modifies out
    ensures out.Valid() && PagesOut(out.file, before, gap, pages, |pages|)
  {
    hide PagesStart, BbtLeaves, NbtLeaves, PagesOut, Emitter.Valid, FileEnd, BlockIb;
    EmitTree(out, plan.bbtLeafIbs, bbtLeaves, plan.bbtRootIb, bbtRoot, before, gap, pages, 0);
    EmitTree(out, plan.nbtLeafIbs, nbtLeaves, plan.nbtRootIb, nbtRoot, before, gap, pages, TreePages(|bbtLeaves|));
  }

  /** Page numbers of leaves and roots in the list of all pages. */
  ghost predicate PagesListed(pages: seq<seq<Byte>>, bbtLeaves: seq<seq<Byte>>, bbtRoot: seq<Byte>,
                              nbtLeaves: seq<seq<Byte>>, nbtRoot: seq<Byte>)
  {
    var b := TreePages(|bbtLeaves|);
    && |bbtLeaves| >= 1 && |nbtLeaves| >= 1 && |pages| == b + TreePages(|nbtLeaves|)
    && (forall i | 0 <= i < |pages| :: |pages[i]| == PAGE_SIZE)
    && (forall i | 0 <= i < |bbtLeaves| :: pages[i] == bbtLeaves[i]) && pages[RootPage(|bbtLeaves|, 0)] == bbtRoot
    && (forall i | 0 <= i < |nbtLeaves| :: pages[b + i] == nbtLeaves[i]) && pages[RootPage(|nbtLeaves|, b)] == nbtRoot
  }

  lemma NoPagesOut(before: seq<Byte>, gap: nat, pages: seq<seq<Byte>>)
    ensures PagesOut(before, before, gap, pages, 0)
  {
  }

  lemma AllPagesOut(file: seq<Byte>, before: seq<Byte>, gap: nat, pages: seq<seq<Byte>>)
    requires pages != [] && PagesOut(file, before, gap, pages, |pages|)
    ensures file == before + Zeros(gap) + Flatten(pages)
  {
    assert pages[..|pages|] == pages;
  }

  lemma PagesAreListed(bbtLeaves: seq<seq<Byte>>, bbtRoot: seq<Byte>, nbtLeaves: seq<seq<Byte>>, nbtRoot: seq<Byte>)
    requires TreeShape(bbtLeaves, bbtRoot) && TreeShape(nbtLeaves, nbtRoot)
    ensures PagesListed(TreeSeq(bbtLeaves, bbtRoot) + TreeSeq(nbtLeaves, nbtRoot), bbtLeaves, bbtRoot, nbtLeaves,
                        nbtRoot)
  {
  }

  lemma AllBlocks(blocks: seq<BlockSpec>)
    ensures BlockIb(blocks, |blocks|) == BLOCKS_START + |Flatten(BlockBytes(blocks))|
  {
    assert BlockBytes(blocks)[..|blocks|] == BlockBytes(blocks);
  }

  /** Distinct block ids give distinct B-tree keys. */
  lemma DistinctEntries(blocks: seq<BlockSpec>, nodeCount: nat)
    requires Sized(blocks, nodeCount) && DistinctKeys(blocks, SpecKey)
    ensures DistinctKeys(BbtEntries(blocks), BbtKey)
  {
    hide BlockIb;
    BlocksFit(blocks, nodeCount);
    var es := BbtEntries(blocks);
    forall i, j | 0 <= i < j < |es| ensures BbtKey(es[i]) != BbtKey(es[j]) {
      assert SpecKey(blocks[i]) != SpecKey(blocks[j]);
    }
  }

  method BuildHeaderAndMap(blockCount: nat, nodeCount: nat, ibFileEof: nat, nbtRoot: Bref, bbtRoot: Bref, next: Bid,
                           ghost start: nat)
    returns (header: seq<Byte>, amap: seq<Byte>)
    requires blockCount <= 400 && nodeCount <= 300 && start + PAGE_SIZE * 42 < 0x1_0000_0000_0000_0000
    requires var b, n := BbtLeaves(blockCount), NbtLeaves(nodeCount);
             && ibFileEof == PageIb(start, TreePages(b) + TreePages(n)) && next == PageBid(TreePages(b) + TreePages(n))
             && nbtRoot == PageRef(start, RootPage(n, TreePages(b))) && bbtRoot == PageRef(start, RootPage(b, 0))
    ensures header == HeaderImage(StateOf(blockCount, nodeCount, start)) && amap == AMapPage(ibFileEof)
  {
    hide HeaderImage, SealedPage, Bitmap, CbAMapFreeFor, BbtLeaves, NbtLeaves;
    amap := BuildAMap(IB_AMAP, ibFileEof);
    var state := WriterState(
      Root(ibFileEof, IB_AMAP, CbAMapFreeFor(ibFileEof), 0, nbtRoot, bbtRoot, 0x02),
      next, MakeDataBid(blockCount + 1), 1, FreshRgnid(), 0, 0, 0);
    assert state == StateOf(blockCount, nodeCount, start);
    header := SerializeHeader(state);
  }

  lemma EndOfFile(blocks: seq<BlockSpec>, nodeCount: nat, start: nat)
    requires Sized(blocks, nodeCount) && start == PagesStart(blocks)
    ensures StateOf(|blocks|, nodeCount, start).root.ibFileEof == FileEnd(blocks, nodeCount)
  {
    hide PagesStart, CbAMapFreeFor;
  }

  /** Page ids, then the pages of both trees. */
  method BuildTrees(blocks: seq<BlockSpec>, nodes: seq<NbtEntry>, plan: Plan)
    returns (bbtLeaves: seq<seq<Byte>>, bbtRoot: seq<Byte>, nbtLeaves: seq<seq<Byte>>, nbtRoot: seq<Byte>,
             bbtRootBid: Bid, nbtRootBid: Bid, next: Bid,
             ghost bes: seq<BbtEntry>, ghost order: seq<NbtEntry>, ghost index: seq<BtEntry>)
    requires Sized(blocks, |nodes|) && PlanHolds(plan, blocks, |nodes|)
    ensures |bbtLeaves| == BbtLeaves(|blocks|) && TreeShape(bbtLeaves, bbtRoot)
    ensures |nbtLeaves| == NbtLeaves(|nodes|) && TreeShape(nbtLeaves, nbtRoot)
    ensures bbtRootBid == PageBid(RootPage(BbtLeaves(|blocks|), 0))
    ensures nbtRootBid == PageBid(RootPage(NbtLeaves(|nodes|), TreePages(BbtLeaves(|blocks|))))
    ensures next == PageBid(TreePages(BbtLeaves(|blocks|)) + TreePages(NbtLeaves(|nodes|)))
    ensures Arrangement(blocks, nodes, bes, order, index)
    ensures TreeSeq(bbtLeaves, bbtRoot) == BbtPages(bes, PagesStart(blocks))
    ensures TreeSeq(nbtLeaves, nbtRoot)
            == NbtPagesWith(order, index, PagesStart(blocks), TreePages(BbtLeaves(|blocks|)))
  {
    hide BlockIb, BbtPages, NbtPagesWith, PagesStart, TreeSeq, TreeShape, IndexEntries, Ascending, BbtEntries;
    var nBbt, nNbt := |plan.bbtLeafIbs|, |plan.nbtLeafIbs|;
    var bbtLeafBids, nbtLeafBids;
    bbtLeafBids, bbtRootBid, nbtLeafBids, nbtRootBid, next := AllocatePageBids(nBbt, nNbt);
    var start := plan.bbtLeafIbs[0];
    bbtLeaves, bbtRoot, bes := BuildBbt(blocks, start, plan, bbtLeafBids, bbtRootBid, |nodes|);
    var first := nBbt + if nBbt > 1 then 1 else 0;
    nbtLeaves, nbtRoot, order, index := BuildNbt(nodes, start, first, plan.nbtLeafIbs, plan.nbtRootIb, nbtLeafBids,
                                                 nbtRootBid);
  }

  method WriteM5Pst(blocks: seq<BlockSpec>, nodes: seq<NbtEntry>)
    returns (r: Result<seq<Byte>, ImageError>, ghost bes: seq<BbtEntry>, ghost order: seq<NbtEntry>,
             ghost index: seq<BtEntry>)
    // Nothing in the source checks that the offsets of a file within the other limits fit their 64-bit fields.
    requires |blocks| <= 400 && |nodes| <= 300 ==> Sized(blocks, |nodes|)
    ensures |blocks| > 400 ==> r == Failure(TooManyBlocks)
    ensures |blocks| <= 400 && |nodes| > 300 ==> r == Failure(TooManyNodes)
    ensures Sized(blocks, |nodes|) ==>
              Arrangement(blocks, nodes, bes, order, index) && r == Success(ImageWith(blocks, bes, order, index))
    ensures Sized(blocks, |nodes|) && DistinctKeys(blocks, SpecKey) && DistinctKeys(nodes, NidKey) ==>
              r == Success(ImageOf(blocks, nodes))
  {
    bes, order, index := [], [], [];
    if |blocks| > 20 * 20 {
      r := Failure(TooManyBlocks);
      return;
    }
    if |nodes| > 15 * 20 {
      r := Failure(TooManyNodes);
      return;
    }
    hide BlockIb, BbtPages, NbtPagesWith, HeaderImage, PagesStart, TreeShape, TreeSeq, Front, StateOf, AMapPage,
         ImageOf, DistinctKeys, Arrangement, Assembled;
    var plan := PlanLayout(blocks, |nodes|);
    var bbtLeaves, bbtRoot, nbtLeaves, nbtRoot, bbtRootBid, nbtRootBid, next;
    bbtLeaves, bbtRoot, nbtLeaves, nbtRoot, bbtRootBid, nbtRootBid, next, bes, order, index :=
      BuildTrees(blocks, nodes, plan);
    var header, amap := BuildHeaderAndMap(|blocks|, |nodes|, plan.ibFileEof, Bref(nbtRootBid, plan.nbtRootIb),
                                          Bref(bbtRootBid, plan.bbtRootIb), next, PagesStart(blocks));
    var file := EmitAll(plan, blocks, |nodes|, header, amap, bbtLeaves, bbtRoot, nbtLeaves, nbtRoot);
    EndOfFile(blocks, |nodes|, PagesStart(blocks));
    if DistinctKeys(blocks, SpecKey) && DistinctKeys(nodes, NidKey) {
      DistinctImage(blocks, nodes, bes, order, index);
    }
    r := Success(file);
  }
}
