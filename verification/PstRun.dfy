/**
 The whole of writeM7Pst below the message level: nodes and their subnodes go in, a file comes out, and a reader of
 that file finds exactly the nodes and subnodes that went in (src/mail.cpp, src/writer.cpp).
 */
module PstRun {
  import opened Assembly
  import opened Block
  import opened Bytes
  import opened Chunks
  import opened Header
  import opened Image
  import opened ImageReader
  import opened ImageWriter
  import opened Ndb
  import opened Nbt
  import opened Page
  import opened PayloadReader
  import opened ScheduleRun
  import opened Sorting
  import opened Wrappers
  import BbtReader
  import NbtReader

  ghost const ContentKey: Content -> int := (c: Content) => c.nid

  ghost predicate DistinctParts(c: Content) {
    forall i, j | 0 <= i < j < |c.parts| :: c.parts[i].nid != c.parts[j].nid
  }

  /** What a reader of the file must find of a node. */
  ghost predicate Reads(file: seq<Byte>, c: Content) {
    var n := FindNode(file, c.nid);
    && n.Some? && n.value.nidParent == c.parent
    && ReadNodePayload(file, c.nid) == Some(c.body)
    && (c.parts == [] ==> n.value.bidSub == 0)
    && (c.parts != [] && DistinctParts(c) ==>
          && (forall p | p in c.parts :: ReadSubnode(file, c.nid, p.nid) == Some(p.bytes))
          && (forall id: Nid | forall p | p in c.parts :: p.nid != id :: ReadSubnode(file, c.nid, id) == None))
  }

  // ---- Sizes of a file within the limits of its trees ----

  lemma {:induction false} ShortImage(ss: seq<Stored>)
    requires forall i | 0 <= i < |ss| :: |ss[i].body| < 0x1_0000
    ensures ImageBytes(ss) <= BLOCKS_START + |ss| * 0x2_0000
  {
    if ss == [] {
    } else {
      ShortImage(ss[..|ss| - 1]);
    }
  }

  lemma BodiesAreShort(data: seq<DataBlock>, xs: seq<ListBlock>, sls: seq<SubnodeBlock>, counters: nat)
    requires Tidy(data, xs, sls, counters) && counters <= 402
    ensures forall i | 0 <= i < |StoredBlocks(data, xs, sls)| :: |StoredBlocks(data, xs, sls)[i].body| < 0x1_0000
    ensures forall i | 0 <= i < |xs| :: xs[i].cLevel in {1, 2} && |xs[i].children| < 0x1_0000
  {
    hide StoredBlocks, StoredData, StoredList, StoredSubnodes;
    forall i | 0 <= i < |StoredBlocks(data, xs, sls)| ensures |StoredBlocks(data, xs, sls)[i].body| < 0x1_0000 {
      BodyIsShort(data, xs, sls, i);
    }
  }

  lemma BodyIsShort(data: seq<DataBlock>, xs: seq<ListBlock>, sls: seq<SubnodeBlock>, i: nat)
    requires Tidy(data, xs, sls, |data| + |xs| + |sls| + 2) && |data| + |xs| + |sls| <= 400
    requires i < |StoredBlocks(data, xs, sls)|
    ensures |StoredBlocks(data, xs, sls)[i].body| < 0x1_0000
  {
    hide StoredBlocks;
    StoredSizeIs(data, xs, sls, i);
  }

  lemma DataBodyIsShort(d: DataBlock)
    ensures |StoredData(d).body| == |d.bytes|
  {
  }

  lemma ListBodyIsShort(x: ListBlock)
    ensures |StoredList(x).body| == INTERNAL_HEADER_SIZE + 8 * |x.children|
  {
    hide Flatten;
    FlattenUniformLength(BidEntries(x.children), 8);
  }

  lemma FileIsShort(specs: seq<BlockSpec>, ss: seq<Stored>, nodeCount: nat)
    requires |ss| <= 400 && nodeCount <= 300 && SignedInPlace(specs, ss) && BlockIb(specs, |specs|) == ImageBytes(ss)
    requires forall i | 0 <= i < |ss| :: |ss[i].body| < 0x1_0000
    ensures Sized(specs, nodeCount)
  {
    hide BlockIb, ImageBytes, BlockImage;
    ShortImage(ss);
  }

  // ---- From what is scheduled to what is read ----

  lemma PartsAreRead(file: seq<Byte>, data: seq<DataBlock>, xs: seq<ListBlock>, sls: seq<SubnodeBlock>,
                     specs: seq<BlockSpec>, nodes: seq<NbtEntry>, m: nat, n: NbtEntry, c: Content, raw: seq<SlEntry>)
    requires Shows(file, data, xs, sls, specs, nodes) && n in nodes && n.nid == c.nid && DistinctParts(c)
    requires m < |sls| && sls[m].bid == n.bidSub && multiset(sls[m].entries) == multiset(raw)
    requires EntriesFor(raw, c.parts, data, xs)
    ensures forall p | p in c.parts :: ReadSubnode(file, c.nid, p.nid) == Some(p.bytes)
    ensures forall id: Nid | forall p | p in c.parts :: p.nid != id :: ReadSubnode(file, c.nid, id) == None
  {
    hide Shows, ReadSubnode, Reassemble;
    var es := sls[m].entries;
    SameElements(es, raw);
    assert DistinctKeys(raw, SlKey);
    forall i, j | 0 <= i < j < |es| ensures es[i].nid != es[j].nid {
      NoTwins(raw, es, SlKey, i, j);
    }
    forall p | p in c.parts ensures ReadSubnode(file, c.nid, p.nid) == Some(p.bytes) {
      var j :| 0 <= j < |c.parts| && c.parts[j] == p;
      SubnodeReadsBack(file, data, xs, sls, specs, nodes, m, n, raw[j]);
    }
    forall id: Nid | forall p | p in c.parts :: p.nid != id ensures ReadSubnode(file, c.nid, id) == None {
      forall e | e in es ensures e.nid != id {
        var j :| 0 <= j < |raw| && raw[j] == e;
        assert c.parts[j] in c.parts;
      }
      SubnodeAbsent(file, data, xs, sls, specs, nodes, m, n, id);
    }
  }

  lemma ShownNodeIsFound(file: seq<Byte>, data: seq<DataBlock>, xs: seq<ListBlock>, sls: seq<SubnodeBlock>,
                         specs: seq<BlockSpec>, nodes: seq<NbtEntry>, n: NbtEntry)
    requires Shows(file, data, xs, sls, specs, nodes) && n in nodes
    ensures FindNode(file, n.nid) == Some(n)
  {
    hide FindNode, Writable, SignedInPlace, ImageOf;
    NodeIsFound(specs, nodes, file, n);
  }

  lemma HeldIsRead(file: seq<Byte>, data: seq<DataBlock>, xs: seq<ListBlock>, sls: seq<SubnodeBlock>,
                   specs: seq<BlockSpec>, nodes: seq<NbtEntry>, n: NbtEntry, c: Content)
    requires Shows(file, data, xs, sls, specs, nodes) && n in nodes && Held(data, xs, sls, n, c)
    ensures Reads(file, c)
  {
    hide FindNode, ReadNodePayload, ReadSubnode, Reassemble, EntriesFor, DistinctParts, Shows;
    ShownNodeIsFound(file, data, xs, sls, specs, nodes, n);
    NodePayloadReadsBack(file, data, xs, sls, specs, nodes, n);
    if c.parts != [] && DistinctParts(c) {
      HeldPartsAreRead(file, data, xs, sls, specs, nodes, n, c);
    }
  }

  lemma HeldPartsAreRead(file: seq<Byte>, data: seq<DataBlock>, xs: seq<ListBlock>, sls: seq<SubnodeBlock>,
                         specs: seq<BlockSpec>, nodes: seq<NbtEntry>, n: NbtEntry, c: Content)
    requires Shows(file, data, xs, sls, specs, nodes) && n in nodes && Held(data, xs, sls, n, c)
    requires c.parts != [] && DistinctParts(c)
    ensures forall p | p in c.parts :: ReadSubnode(file, c.nid, p.nid) == Some(p.bytes)
    ensures forall id: Nid | forall p | p in c.parts :: p.nid != id :: ReadSubnode(file, c.nid, id) == None
  {
    hide Shows, ReadSubnode, Reassemble, EntriesFor, DistinctParts;
    var m, raw :|
      && 0 <= m < |sls| && sls[m].bid == n.bidSub && multiset(sls[m].entries) == multiset(raw)
      && EntriesFor(raw, c.parts, data, xs);
    PartsAreRead(file, data, xs, sls, specs, nodes, m, n, c, raw);
  }

  /** Every node is found with everything it was given, and no other id finds a node. */
  ghost predicate FindsAll(file: seq<Byte>, contents: seq<Content>) {
    && (forall k | 0 <= k < |contents| :: Reads(file, contents[k]))
    && forall nid: Nid | forall k | 0 <= k < |contents| :: contents[k].nid != nid :: FindNode(file, nid) == None
  }

  lemma AllRead(file: seq<Byte>, data: seq<DataBlock>, xs: seq<ListBlock>, sls: seq<SubnodeBlock>,
                specs: seq<BlockSpec>, nodes: seq<NbtEntry>, contents: seq<Content>)
    requires Shows(file, data, xs, sls, specs, nodes) && |nodes| == |contents|
    requires forall k | 0 <= k < |contents| :: Held(data, xs, sls, nodes[k], contents[k])
    ensures FindsAll(file, contents)
  {
    hide Reads, Held, Shows, FindNode;
    forall k | 0 <= k < |contents| ensures Reads(file, contents[k]) {
      HeldIsRead(file, data, xs, sls, specs, nodes, nodes[k], contents[k]);
    }
    forall nid: Nid | forall k | 0 <= k < |contents| :: contents[k].nid != nid ensures FindNode(file, nid) == None {
      forall n | n in nodes ensures n.nid != nid {
        var k :| 0 <= k < |nodes| && nodes[k] == n;
        HeldNid(data, xs, sls, nodes[k], contents[k]);
      }
      NobodyFound(file, data, xs, sls, specs, nodes, nid);
    }
  }

  lemma HeldNid(data: seq<DataBlock>, xs: seq<ListBlock>, sls: seq<SubnodeBlock>, n: NbtEntry, c: Content)
    requires Held(data, xs, sls, n, c)
    ensures n.nid == c.nid
  {
  }

  lemma NobodyFound(file: seq<Byte>, data: seq<DataBlock>, xs: seq<ListBlock>, sls: seq<SubnodeBlock>,
                    specs: seq<BlockSpec>, nodes: seq<NbtEntry>, nid: Nid)
    requires Shows(file, data, xs, sls, specs, nodes) && forall n | n in nodes :: n.nid != nid
    ensures FindNode(file, nid) == None
  {
    hide ImageOf, NbtReader.Find, NbtRoot, Writable, SignedInPlace;
    NodesAreFound(specs, nodes, file, true, nid);
  }

  // ---- The run ----

  /** What EncodeBlocks leaves for the file writer when the file is within the limits of its trees. */
  lemma ReadyToWrite(data: seq<DataBlock>, xs: seq<ListBlock>, sls: seq<SubnodeBlock>, counters: nat,
                     specs: seq<BlockSpec>, nodeCount: nat)
    requires Tidy(data, xs, sls, counters) && counters <= 402 && nodeCount <= 300
    requires var ss := StoredBlocks(data, xs, sls);
             ImageBytes(ss) < 0x1_0000_0000_0000_0000 ==>
               SignedInPlace(specs, ss) && BlockIb(specs, |specs|) == ImageBytes(ss)
    ensures Sized(specs, nodeCount) && SignedInPlace(specs, StoredBlocks(data, xs, sls))
  {
    hide StoredBlocks, ImageBytes, SignedInPlace, BlockIb, Sized;
    BodiesAreShort(data, xs, sls, counters);
    ShortImage(StoredBlocks(data, xs, sls));
    StoredCount(data, xs, sls);
    FileIsShort(specs, StoredBlocks(data, xs, sls), nodeCount);
  }

  lemma StoredCount(data: seq<DataBlock>, xs: seq<ListBlock>, sls: seq<SubnodeBlock>)
    ensures |StoredBlocks(data, xs, sls)| == |data| + |xs| + |sls|
  {
  }

  lemma NodesDistinct(nodes: seq<NbtEntry>, contents: seq<Content>)
    requires |nodes| == |contents| && forall k | 0 <= k < |nodes| :: nodes[k].nid == contents[k].nid
    requires DistinctKeys(contents, ContentKey)
    ensures DistinctKeys(nodes, NidKey)
  {
    forall i, j | 0 <= i < j < |nodes| ensures NidKey(nodes[i]) != NidKey(nodes[j]) {
      assert ContentKey(contents[i]) != ContentKey(contents[j]);
    }
  }

  // ---- The blocks of the file ----

  /** What the block B-tree of the file lists. */
  function BlockEntries(file: seq<Byte>): seq<BbtEntry> {
    if |file| < HEADER_SIZE then []
    else
      match BbtReader.Walk(file, BbtRoot(file).ib)
      case Success(es) => es
      case Failure(_) => []
  }

  /** A scheduler of `n` blocks has only given out ids below the one a writer of `n` blocks leaves for the next. */
  lemma IdsAreBelow(data: seq<DataBlock>, nextData: nat, xs: seq<ListBlock>, sls: seq<SubnodeBlock>, next: nat, i: nat)
    requires DataInOrder(data, nextData) && ListsInOrder(xs, next) && SubnodesInOrder(sls, xs, next)
    requires nextData + next == |data| + |xs| + |sls| + 2 < ID_LIMIT && i < |BlockIds(data, xs, sls)|
    ensures BlockIds(data, xs, sls)[i] < MakeDataBid(|data| + |xs| + |sls| + 1)
  {
    var d, x := |data|, |xs|;
    if i < d {
      assert BlockIds(data, xs, sls)[i] == data[i].bid;
    } else if i < d + x {
      assert BlockIds(data, xs, sls)[d + (i - d)] == xs[i - d].bid;
    } else {
      assert BlockIds(data, xs, sls)[d + x + (i - d - x)] == sls[i - d - x].bid;
    }
  }

  /** Only data blocks and subnode lists can be longer than a block payload; list blocks of a short file are not. */
  lemma BodiesWithinCap(data: seq<DataBlock>, xs: seq<ListBlock>, sls: seq<SubnodeBlock>, counters: nat)
    requires Tidy(data, xs, sls, counters) && counters <= 402
    ensures WithinCap(data, sls)
            <==> forall i | 0 <= i < |StoredBlocks(data, xs, sls)| ::
                   |StoredBlocks(data, xs, sls)[i].body| <= MAX_BLOCK_PAYLOAD
  {
    hide StoredBlocks, StoredSize, WithinCap, Tidy;
    var ss := StoredBlocks(data, xs, sls);
    StoredCount(data, xs, sls);
    forall i | 0 <= i < |ss|
      ensures |ss[i].body| == StoredSize(data, xs, sls, i)
    {
      StoredSizeIs(data, xs, sls, i);
    }
    SizesWithinCap(data, xs, sls, counters);
  }

  lemma SizesWithinCap(data: seq<DataBlock>, xs: seq<ListBlock>, sls: seq<SubnodeBlock>, counters: nat)
    requires Tidy(data, xs, sls, counters) && counters <= 402
    ensures WithinCap(data, sls)
            <==> forall i | 0 <= i < |data| + |xs| + |sls| :: StoredSize(data, xs, sls, i) <= MAX_BLOCK_PAYLOAD
  {
    if forall i | 0 <= i < |data| + |xs| + |sls| :: StoredSize(data, xs, sls, i) <= MAX_BLOCK_PAYLOAD {
      forall i | 0 <= i < |data| ensures |data[i].bytes| <= MAX_BLOCK_PAYLOAD {
        assert StoredSize(data, xs, sls, i) <= MAX_BLOCK_PAYLOAD;
      }
      forall i | 0 <= i < |sls| ensures |sls[i].entries| <= MAX_SL_ENTRIES {
        assert StoredSize(data, xs, sls, |data| + |xs| + i) <= MAX_BLOCK_PAYLOAD;
      }
    }
  }

  function StoredSize(data: seq<DataBlock>, xs: seq<ListBlock>, sls: seq<SubnodeBlock>, i: nat): nat
    requires i < |data| + |xs| + |sls|
  {
    if i < |data| then |data[i].bytes|
    else if i < |data| + |xs| then INTERNAL_HEADER_SIZE + 8 * |xs[i - |data|].children|
    else INTERNAL_HEADER_SIZE + 24 * |sls[i - |data| - |xs|].entries|
  }

  lemma StoredSizeIs(data: seq<DataBlock>, xs: seq<ListBlock>, sls: seq<SubnodeBlock>, i: nat)
    requires i < |data| + |xs| + |sls|
    ensures |StoredBlocks(data, xs, sls)[i].body| == StoredSize(data, xs, sls, i)
  {
    var ss, d, x := StoredBlocks(data, xs, sls), |data|, |xs|;
    hide StoredBlocks, StoredData, StoredList, StoredSubnodes;
    if i < d {
      DataBodyIsShort(data[i]);
    } else if i < d + x {
      ListBodyIsShort(xs[i - d]);
      assert ss[d + (i - d)] == StoredList(xs[i - d]);
    } else {
      ListBodySize(sls[i - d - x]);
      assert ss[d + x + (i - d - x)] == StoredSubnodes(sls[i - d - x]);
    }
  }

  lemma ListBodySize(sl: SubnodeBlock)
    ensures |StoredSubnodes(sl).body| == INTERNAL_HEADER_SIZE + 24 * |sl.entries|
  {
    SlBodySize(sl.entries);
  }

  lemma EntryOfBlock(specs: seq<BlockSpec>, ss: seq<Stored>, i: nat)
    requires SignedInPlace(specs, ss) && i < |specs| && |ss[i].body| < 0x1_0000
    requires BlockIb(specs, |specs|) < 0x1_0000_0000_0000_0000
    ensures BbtEntryFor(specs, i).bref.bid == ss[i].bid && BbtEntryFor(specs, i).cb == |ss[i].body|
  {
    hide BlockIb, BlockImage;
  }

  lemma BlocksOfFile(data: seq<DataBlock>, nextData: nat, xs: seq<ListBlock>, sls: seq<SubnodeBlock>, next: nat,
                     specs: seq<BlockSpec>, bes: seq<BbtEntry>)
    requires DataInOrder(data, nextData) && ListsInOrder(xs, next) && SubnodesInOrder(sls, xs, next)
    requires Tidy(data, xs, sls, nextData + next) && nextData + next <= 402
    requires SignedInPlace(specs, StoredBlocks(data, xs, sls)) && BlockIb(specs, |specs|) < 0x1_0000_0000_0000_0000
    requires multiset(bes) == multiset(BbtEntries(specs))
    ensures forall e | e in bes :: e.bref.bid < MakeDataBid(|specs| + 1)
    ensures (forall e | e in bes :: e.cb <= MAX_BLOCK_PAYLOAD) <==> WithinCap(data, sls)
  {
    hide StoredBlocks, SignedInPlace, BlockIb, BbtEntryFor, MakeDataBid, DataInOrder, ListsInOrder, SubnodesInOrder,
         WithinCap, Tidy, BlockIds;
    var ss, es := StoredBlocks(data, xs, sls), BbtEntries(specs);
    SameElements(bes, es);
    SameCount(specs, ss);
    StoredCount(data, xs, sls);
    TidyCount(data, xs, sls, nextData + next);
    BodiesAreShort(data, xs, sls, nextData + next);
    BodiesWithinCap(data, xs, sls, nextData + next);
    forall i | 0 <= i < |specs|
      ensures es[i].bref.bid < MakeDataBid(|specs| + 1) && es[i].cb == |ss[i].body| && es[i] in bes
    {
      EntryOfBlock(specs, ss, i);
      StoredId(data, xs, sls, i);
      IdsAreBelow(data, nextData, xs, sls, next, i);
    }
    forall e | e in bes ensures exists i :: 0 <= i < |es| && es[i] == e {
      assert e in es;
    }
  }

  /**
   Schedules, encodes and writes: an error exactly when the blocks or the nodes are too many for trees of two levels,
   and otherwise, for distinct node ids, a file that gives everything back.
   */
  method WriteContents(contents: seq<Content>) returns (r: Result<seq<Byte>, ImageError>)
    requires forall k | 0 <= k < |contents| :: |contents[k].body| < 0x1_0000
    // The 62-bit counters suffice.
    requires Total(contents, ContentBlocks) + 3 < ID_LIMIT
    ensures Total(contents, ContentBlocks) > 400 ==> r == Failure(TooManyBlocks)
    ensures Total(contents, ContentBlocks) <= 400 && |contents| > 300 ==> r == Failure(TooManyNodes)
    ensures Total(contents, ContentBlocks) <= 400 && |contents| <= 300 ==> r.Success?
    ensures r.Success? && DistinctKeys(contents, ContentKey) ==> FindsAll(r.value, contents)
    ensures r.Success? ==> BlocksAreInOrder(r.value, contents)
  {
    hide Held, Total, ContentBlocks, Tidy, DistinctKeys, StoredBlocks, ImageBytes, SignedInPlace, BlockIb, Sized,
         Arrangement, ImageWith, ImageOf, FindsAll, DataInOrder, ListsInOrder, SubnodesInOrder;
    var s, nodes := ScheduleContents(contents);
    ghost var data, xs, sls := s.dataBlocks, s.xBlocks, s.slBlocks;
    var specs := EncodeBlocks(s.dataBlocks, s.xBlocks, s.slBlocks);
    TidyCount(data, xs, sls, Total(contents, ContentBlocks) + 2);
    if |specs| <= 400 && |nodes| <= 300 {
      ReadyToWrite(data, xs, sls, Total(contents, ContentBlocks) + 2, specs, |nodes|);
    }
    ghost var bes, order, index;
    r, bes, order, index := WriteM5Pst(specs, nodes);
    if r.Success? {
      ArrangedSizes(specs, nodes, bes, order, index);
      WrittenBlocks(data, s.nextDataBidIdx, xs, sls, s.nextInternalBidIdx, specs, nodes, bes, order, index, r.value);
    }
    if r.Success? && DistinctKeys(contents, ContentKey) {
      forall k | 0 <= k < |nodes| ensures nodes[k].nid == contents[k].nid {
        HeldNid(data, xs, sls, nodes[k], contents[k]);
      }
      NodesDistinct(nodes, contents);
      ScheduledIdsAreDistinct(data, s.nextDataBidIdx, xs, sls, s.nextInternalBidIdx, specs);
      FileShows(r.value, data, xs, sls, Total(contents, ContentBlocks) + 2, specs, nodes);
      AllRead(r.value, data, xs, sls, specs, nodes, contents);
    }
  }

  /**
   What the block B-tree of a written file says: one entry a block, ids below the one the header keeps for the next
   block, and no block longer than a payload may be -- if and only if no body is and no subnode list has more than
   340 entries.
   */
  ghost predicate BlocksAreInOrder(file: seq<Byte>, contents: seq<Content>) {
    && |file| >= HEADER_SIZE && |BlockEntries(file)| == Total(contents, ContentBlocks)
    && (forall e | e in BlockEntries(file) :: e.bref.bid < NextBlockBid(file))
    && ((forall e | e in BlockEntries(file) :: e.cb <= MAX_BLOCK_PAYLOAD)
        <==> forall k | 0 <= k < |contents| :: ContentWithinCap(contents[k]))
  }

  lemma ArrangedSizes(specs: seq<BlockSpec>, nodes: seq<NbtEntry>, bes: seq<BbtEntry>, order: seq<NbtEntry>,
                      index: seq<BtEntry>)
    requires Sized(specs, |nodes|) && Arrangement(specs, nodes, bes, order, index)
    ensures |bes| == |specs| && |order| == |nodes| && |index| <= BT_MAX
  {
  }

  lemma WrittenBlocks(data: seq<DataBlock>, nextData: nat, xs: seq<ListBlock>, sls: seq<SubnodeBlock>, next: nat,
                      specs: seq<BlockSpec>, nodes: seq<NbtEntry>, bes: seq<BbtEntry>, order: seq<NbtEntry>,
                      index: seq<BtEntry>, file: seq<Byte>)
    requires DataInOrder(data, nextData) && ListsInOrder(xs, next) && SubnodesInOrder(sls, xs, next)
    requires Tidy(data, xs, sls, nextData + next) && nextData + next <= 402
    requires SignedInPlace(specs, StoredBlocks(data, xs, sls)) && Sized(specs, |nodes|)
    requires Arrangement(specs, nodes, bes, order, index) && |order| == |nodes|
    requires |bes| == |specs| && |index| <= BT_MAX && file == ImageWith(specs, bes, order, index)
    ensures |file| >= HEADER_SIZE && BlockEntries(file) == bes && |bes| == |data| + |xs| + |sls|
    ensures forall e | e in bes :: e.bref.bid < NextBlockBid(file)
    ensures (forall e | e in bes :: e.cb <= MAX_BLOCK_PAYLOAD) <==> WithinCap(data, sls)
  {
    hide ImageWith, SignedInPlace, BlockIb, StoredBlocks, PagesWith, Holds, DataInOrder, ListsInOrder,
         SubnodesInOrder, Tidy, WithinCap, BbtReader.Walk, NextBlockBid, MakeDataBid, PagesStart, Arranged,
         IndexArranged, BbtEntries, IndexEntries;
    BlocksFit(specs, |nodes|);
    PlanIsKept(specs, bes, order, index);
    HeaderIsTrue(specs, |order|, PagesWith(specs, bes, order, index), file);
    BlocksAreListed(specs, bes, order, index, file);
    SameCount(specs, StoredBlocks(data, xs, sls));
    StoredCount(data, xs, sls);
    BlocksOfFile(data, nextData, xs, sls, next, specs, bes);
  }

  lemma TidyCount(data: seq<DataBlock>, xs: seq<ListBlock>, sls: seq<SubnodeBlock>, counters: nat)
    requires Tidy(data, xs, sls, counters)
    ensures |data| + |xs| + |sls| + 2 == counters
  {
  }

  lemma FileShows(file: seq<Byte>, data: seq<DataBlock>, xs: seq<ListBlock>, sls: seq<SubnodeBlock>, counters: nat,
                  specs: seq<BlockSpec>, nodes: seq<NbtEntry>)
    requires Tidy(data, xs, sls, counters) && counters <= 402
    requires Sized(specs, |nodes|) && SignedInPlace(specs, StoredBlocks(data, xs, sls))
    requires DistinctKeys(specs, SpecKey) && DistinctKeys(nodes, NidKey) && file == ImageOf(specs, nodes)
    ensures Shows(file, data, xs, sls, specs, nodes)
  {
    hide StoredBlocks, SignedInPlace, Sized, DistinctKeys, ImageOf;
    BodiesAreShort(data, xs, sls, counters);
  }

  // ---- A subnode list that is too long ----

  /** A node with an empty body and `count` empty subnodes. */
  function ManyParts(nid: Nid, count: nat): (c: Content)
    requires count < 0x1_0000
    ensures c.body == [] && |c.parts| == count && forall j | 0 <= j < count :: c.parts[j] == Part(j, [])
  {
    Content(nid, 0, [], seq(count, j requires 0 <= j < count => Part(j, [])))
  }

  lemma EmptyPart(nid: Nid)
    ensures PartBlocks(Part(nid, [])) == 1
  {
  }

  /**
   A node with 341 subnodes is within every limit that `WriteContents` checks, so its file is written and read back,
   but its subnode list is longer than a block payload may be.
   */
  lemma LongListPasses(nid: Nid)
    ensures var c := ManyParts(nid, 341);
            && |c.body| < 0x1_0000 && Total([c], ContentBlocks) == 343
            && DistinctKeys([c], ContentKey) && DistinctParts(c) && !ContentWithinCap(c)
  {
    hide ManyParts, PartBlocks;
    var c := ManyParts(nid, 341);
    forall j | 0 <= j < 341 ensures PartBlocks(c.parts[j]) == 1 {
      EmptyPart(j);
    }
    TotalUniform(c.parts, PartBlocks, 1);
    TotalOne(c, ContentBlocks);
  }
}
