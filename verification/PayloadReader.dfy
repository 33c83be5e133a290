/**
 Reading payloads back out of a finished file, through XBLOCKs and XXBLOCKs, and from node and subnode ids. A file
 holds at most 400 blocks, so no payload that needs an XXBLOCK (more than 1021 data blocks) fits into one:
 `TwoLevelsNeverFit`.
 */
module PayloadReader {
  import opened Assembly
  import opened Block
  import opened BlockReader
  import opened Bytes
  import opened Chunks
  import opened Cipher
  import opened Header
  import opened Image
  import opened ImageReader
  import opened Ndb
  import opened Nbt
  import opened Sorting
  import opened Wrappers
  import NbtReader

  // ---- The reader ----

  function ReadLeaf(file: seq<Byte>, bid: Bid): Option<seq<Byte>> {
    match ReadStored(file, bid)
    case Success(stored) => Some(Decoded(stored, Permute, bid % 0x1_0000_0000))
    case Failure(_) => None
  }

  function ReadList(file: seq<Byte>, bid: Bid): Option<BidList> {
    match ReadStored(file, bid)
    case Success(stored) => ParseBidList(stored)
    case Failure(_) => None
  }

  function JoinLeaves(file: seq<Byte>, children: seq<Bid>): Option<seq<Byte>> {
    if children == [] then Some([])
    else
      match (ReadLeaf(file, children[0]), JoinLeaves(file, children[1..]))
      case (Some(here), Some(rest)) => Some(here + rest)
      case _ => None
  }

  function ReadBelowX(file: seq<Byte>, bid: Bid): Option<seq<Byte>> {
    match ReadList(file, bid)
    case Some(x) => if x.cLevel == 1 then JoinLeaves(file, x.children) else None
    case None => None
  }

  function JoinBelowX(file: seq<Byte>, children: seq<Bid>): Option<seq<Byte>> {
    if children == [] then Some([])
    else
      match (ReadBelowX(file, children[0]), JoinBelowX(file, children[1..]))
      case (Some(here), Some(rest)) => Some(here + rest)
      case _ => None
  }

  /** The bytes stored under any block id. */
  function ReadPayload(file: seq<Byte>, bid: Bid): Option<seq<Byte>> {
    if !IsInternal(bid) then ReadLeaf(file, bid)
    else
      match ReadList(file, bid)
      case None => None
      case Some(x) => if x.cLevel == 1 then JoinLeaves(file, x.children) else JoinBelowX(file, x.children)
  }

  // ---- The file shows what was scheduled ----

  /** A file assembled from everything a scheduler holds. */
  ghost predicate Shows(file: seq<Byte>, data: seq<DataBlock>, xs: seq<ListBlock>, sls: seq<SubnodeBlock>,
                        specs: seq<BlockSpec>, nodes: seq<NbtEntry>)
  {
    && Assembles(specs, StoredBlocks(data, xs, sls), nodes) && file == ImageOf(specs, nodes)
    && forall i | 0 <= i < |xs| :: xs[i].cLevel in {1, 2} && |xs[i].children| < 0x1_0000
  }

  lemma LeafShown(file: seq<Byte>, data: seq<DataBlock>, xs: seq<ListBlock>, sls: seq<SubnodeBlock>,
                  specs: seq<BlockSpec>, nodes: seq<NbtEntry>, i: nat)
    requires Shows(file, data, xs, sls, specs, nodes) && i < |data|
    ensures ReadLeaf(file, data[i].bid) == Some(data[i].bytes)
  {
    hide ImageOf, Assembles, ReadStored, Encoded, Decoded;
    StoredIsRead(specs, StoredBlocks(data, xs, sls), nodes, file, i);
    DecodedEncoded(data[i].bytes, Permute, data[i].bid % 0x1_0000_0000);
  }

  lemma ListShown(file: seq<Byte>, data: seq<DataBlock>, xs: seq<ListBlock>, sls: seq<SubnodeBlock>,
                  specs: seq<BlockSpec>, nodes: seq<NbtEntry>, i: nat)
    requires Shows(file, data, xs, sls, specs, nodes) && i < |xs|
    ensures ReadList(file, xs[i].bid) == Some(BidList(xs[i].cLevel, xs[i].lcbTotal, xs[i].children))
  {
    hide ImageOf, Assembles, ReadStored, ParseBidList, BidListBody;
    StoredIsRead(specs, StoredBlocks(data, xs, sls), nodes, file, |data| + i);
    BidListRoundTrip(xs[i].cLevel, xs[i].children, xs[i].lcbTotal);
  }

  lemma {:induction false} FoundDataIs(data: seq<DataBlock>, bid: Bid) returns (i: nat)
    requires FindData(data, bid).Some?
    ensures i < |data| && data[i].bid == bid && FindData(data, bid) == Some(data[i].bytes)
  {
    if data[0].bid == bid {
      i := 0;
    } else {
      i := FoundDataIs(data[1..], bid);
      i := i + 1;
    }
  }

  lemma {:induction false} FoundListIs(xs: seq<ListBlock>, bid: Bid) returns (i: nat)
    requires FindList(xs, bid).Some?
    ensures i < |xs| && xs[i].bid == bid && FindList(xs, bid) == Some(xs[i])
  {
    if xs[0].bid == bid {
      i := 0;
    } else {
      i := FoundListIs(xs[1..], bid);
      i := i + 1;
    }
  }

  lemma DataSame(file: seq<Byte>, data: seq<DataBlock>, xs: seq<ListBlock>, sls: seq<SubnodeBlock>,
                 specs: seq<BlockSpec>, nodes: seq<NbtEntry>, bid: Bid)
    requires Shows(file, data, xs, sls, specs, nodes) && FindData(data, bid).Some?
    ensures ReadLeaf(file, bid) == FindData(data, bid)
  {
    hide Shows, ReadLeaf;
    var i := FoundDataIs(data, bid);
    LeafShown(file, data, xs, sls, specs, nodes, i);
  }

  lemma ListSame(file: seq<Byte>, data: seq<DataBlock>, xs: seq<ListBlock>, sls: seq<SubnodeBlock>,
                 specs: seq<BlockSpec>, nodes: seq<NbtEntry>, bid: Bid)
    requires Shows(file, data, xs, sls, specs, nodes) && FindList(xs, bid).Some?
    ensures var x := FindList(xs, bid).value; ReadList(file, bid) == Some(BidList(x.cLevel, x.lcbTotal, x.children))
  {
    hide Shows, ReadList;
    var i := FoundListIs(xs, bid);
    ListShown(file, data, xs, sls, specs, nodes, i);
  }

  lemma {:induction false} JoinSame(file: seq<Byte>, data: seq<DataBlock>, xs: seq<ListBlock>, sls: seq<SubnodeBlock>,
                                    specs: seq<BlockSpec>, nodes: seq<NbtEntry>, children: seq<Bid>)
    requires Shows(file, data, xs, sls, specs, nodes) && JoinData(data, children).Some?
    ensures JoinLeaves(file, children) == JoinData(data, children)
  {
    hide Shows, ReadLeaf, FindData;
    if children == [] {
    } else {
      DataSame(file, data, xs, sls, specs, nodes, children[0]);
      JoinSame(file, data, xs, sls, specs, nodes, children[1..]);
    }
  }

  lemma {:induction false} JoinListsSame(file: seq<Byte>, data: seq<DataBlock>, xs: seq<ListBlock>,
                                         sls: seq<SubnodeBlock>, specs: seq<BlockSpec>, nodes: seq<NbtEntry>,
                                         children: seq<Bid>)
    requires Shows(file, data, xs, sls, specs, nodes) && JoinLists(data, xs, children).Some?
    ensures JoinBelowX(file, children) == JoinLists(data, xs, children)
  {
    hide Shows, ReadList, FindList, JoinData, JoinLeaves;
    if children == [] {
    } else {
      var bid := children[0];
      ListSame(file, data, xs, sls, specs, nodes, bid);
      JoinSame(file, data, xs, sls, specs, nodes, FindList(xs, bid).value.children);
      JoinListsSame(file, data, xs, sls, specs, nodes, children[1..]);
    }
  }

  /** Whatever the scheduled blocks hold below an id is what a reader of the file finds below it. */
  lemma FileShowsBlocks(file: seq<Byte>, data: seq<DataBlock>, xs: seq<ListBlock>, sls: seq<SubnodeBlock>,
                        specs: seq<BlockSpec>, nodes: seq<NbtEntry>, bid: Bid)
    requires Shows(file, data, xs, sls, specs, nodes) && Reassemble(data, xs, bid).Some?
    ensures ReadPayload(file, bid) == Reassemble(data, xs, bid)
  {
    hide Shows, ReadList, ReadLeaf, FindList, FindData, JoinData, JoinLeaves, JoinLists, JoinBelowX, IsInternal;
    if !IsInternal(bid) {
      DataSame(file, data, xs, sls, specs, nodes, bid);
    } else {
      ListSame(file, data, xs, sls, specs, nodes, bid);
      var x := FindList(xs, bid).value;
      if x.cLevel == 1 {
        JoinSame(file, data, xs, sls, specs, nodes, x.children);
      } else {
        JoinListsSame(file, data, xs, sls, specs, nodes, x.children);
      }
    }
  }

  /**
   A payload scheduled at any moment of a run is read back from the finished file byte for byte, whatever else was
   scheduled before and after it.
   */
  lemma PayloadSurvives(file: seq<Byte>, data: seq<DataBlock>, nextData: nat, xs: seq<ListBlock>, next: nat,
                        sls: seq<SubnodeBlock>, specs: seq<BlockSpec>, nodes: seq<NbtEntry>, body: seq<Byte>,
                        dataBefore: seq<DataBlock>, xsBefore: seq<ListBlock>, firstData: nat, first: nat)
    requires DataInOrder(data, nextData) && ListsInOrder(xs, next) && Shows(file, data, xs, sls, specs, nodes)
    requires firstData == |dataBefore| + 1 && firstData + |Pieces(body)| < ID_LIMIT
             && first + |Pieces(body)| + 1 < ID_LIMIT
    requires SeesPayload(data, xs, body, dataBefore, xsBefore, firstData, first)
    ensures ReadPayload(file, PayloadBid(body, firstData, first)) == Some(body)
  {
    hide Shows, Reassemble, ReadPayload, SeesPayload, DataInOrder, ListsInOrder, PayloadBid;
    PayloadReassembles(data, nextData, xs, next, body, dataBefore, xsBefore, firstData, first);
    FileShowsBlocks(file, data, xs, sls, specs, nodes, PayloadBid(body, firstData, first));
  }

  /** The ids a scheduler gives out make the assembled blocks' ids distinct, as the file writer needs. */
  lemma ScheduledIdsAreDistinct(data: seq<DataBlock>, nextData: nat, xs: seq<ListBlock>, sls: seq<SubnodeBlock>,
                                next: nat, specs: seq<BlockSpec>)
    requires DataInOrder(data, nextData) && ListsInOrder(xs, next) && SubnodesInOrder(sls, xs, next)
    requires SignedInPlace(specs, StoredBlocks(data, xs, sls))
    ensures DistinctKeys(specs, SpecKey)
  {
    hide BlockIb, BlockImage, DataInOrder, ListsInOrder, SubnodesInOrder, SignedInPlace, Encoded, BidListBody, SlBody;
    var ss, ids := StoredBlocks(data, xs, sls), BlockIds(data, xs, sls);
    forall i | 0 <= i < |ss| ensures |specs| == |ss| && SpecKey(specs[i]) == ids[i] {
      SignedAt(specs, ss, i);
      StoredId(data, xs, sls, i);
    }
    assert |ss| == 0 ==> |specs| == 0 by { SameCount(specs, ss); }
    forall i, j | 0 <= i < j < |specs| ensures SpecKey(specs[i]) != SpecKey(specs[j]) {
      SameCount(specs, ss);
      IdsAreDistinct(data, nextData, xs, sls, next, i, j);
    }
  }

  lemma SameCount(specs: seq<BlockSpec>, ss: seq<Stored>)
    requires SignedInPlace(specs, ss)
    ensures |specs| == |ss|
  {
  }

  lemma StoredId(data: seq<DataBlock>, xs: seq<ListBlock>, sls: seq<SubnodeBlock>, i: nat)
    requires i < |StoredBlocks(data, xs, sls)|
    ensures StoredBlocks(data, xs, sls)[i].bid == BlockIds(data, xs, sls)[i]
  {
    var ss, d, x := StoredBlocks(data, xs, sls), |data|, |xs|;
    hide StoredBlocks, BlockIds, Encoded, BidListBody, SlBody;
    if i < d {
      assert ss[i] == StoredData(data[i]);
    } else if i < d + x {
      assert ss[d + (i - d)] == StoredList(xs[i - d]);
    } else {
      assert ss[d + x + (i - d - x)] == StoredSubnodes(sls[i - d - x]);
    }
  }

  // ---- How much fits ----

  /** Everything a finished file shows fits into the 400 entries of its block B-tree. */
  lemma AtMost400Blocks(file: seq<Byte>, data: seq<DataBlock>, xs: seq<ListBlock>, sls: seq<SubnodeBlock>,
                        specs: seq<BlockSpec>, nodes: seq<NbtEntry>)
    requires Shows(file, data, xs, sls, specs, nodes)
    ensures |data| + |xs| + |sls| <= 400
  {
    hide ImageOf, BlockIb, BlockImage;
    SameCount(specs, StoredBlocks(data, xs, sls));
  }

  /** A payload that needs an XXBLOCK always makes more blocks than the file writer accepts. */
  lemma TwoLevelsNeverFit(data: seq<DataBlock>, xs: seq<ListBlock>, sls: seq<SubnodeBlock>, specs: seq<BlockSpec>,
                          body: seq<Byte>, dataBefore: seq<DataBlock>, xsBefore: seq<ListBlock>, firstData: nat,
                          first: nat)
    requires SignedInPlace(specs, StoredBlocks(data, xs, sls))
    requires firstData + |Pieces(body)| < ID_LIMIT && first + |Pieces(body)| + 1 < ID_LIMIT
    requires SeesPayload(data, xs, body, dataBefore, xsBefore, firstData, first) && |Pieces(body)| > MAX_CHILDREN
    ensures |specs| > 400
  {
    hide BlockIb, BlockImage, ListBlocks, Pieces;
    SameCount(specs, StoredBlocks(data, xs, sls));
    assert |dataBefore + DataBlocks(Pieces(body), firstData)| <= |data|;
  }

  // ---- From node ids ----

  function FindNode(file: seq<Byte>, nid: Nid): Option<NbtEntry> {
    if |file| < HEADER_SIZE then None
    else
      match NbtReader.Find(file, NbtRoot(file), nid, true)
      case Success(found) => found
      case Failure(_) => None
  }

  /** The payload below a node's data block id, however many blocks it takes. */
  function ReadNodePayload(file: seq<Byte>, nid: Nid): Option<seq<Byte>> {
    match FindNode(file, nid)
    case Some(n) => ReadPayload(file, n.bidData)
    case None => None
  }

  function FirstSlEntry(es: seq<SlEntry>, nid: Nid): Option<SlEntry> {
    if es == [] then None else if es[0].nid == nid then Some(es[0]) else FirstSlEntry(es[1..], nid)
  }

  /** The subnode list of a node. */
  function ReadSubnodeList(file: seq<Byte>, nid: Nid): Option<seq<SlEntry>> {
    match FindNode(file, nid)
    case None => None
    case Some(n) =>
      match ReadStored(file, n.bidSub)
      case Success(stored) => ParseSlBlock(stored)
      case Failure(_) => None
  }

  /** The payload of a subnode: node, subnode list, entry, block tree. */
  function ReadSubnode(file: seq<Byte>, nid: Nid, subnode: Nid): Option<seq<Byte>> {
    match ReadSubnodeList(file, nid)
    case None => None
    case Some(es) =>
      match FirstSlEntry(es, subnode)
      case Some(e) => ReadPayload(file, e.bidData)
      case None => None
  }

  lemma NodeIsFound(specs: seq<BlockSpec>, nodes: seq<NbtEntry>, file: seq<Byte>, n: NbtEntry)
    requires Writable(specs, nodes) && file == ImageOf(specs, nodes) && n in nodes
    ensures FindNode(file, n.nid) == Some(n)
  {
    hide ImageOf, NbtReader.Find, NbtRoot, Writable;
    NodesAreFound(specs, nodes, file, true, n.nid);
    var found := NbtReader.Find(file, NbtRoot(file), n.nid, true).value;
    OnlyOneNode(nodes, specs, found.value, n);
  }

  /** From a node id to its payload, across any number of data blocks. */
  lemma NodePayloadReadsBack(file: seq<Byte>, data: seq<DataBlock>, xs: seq<ListBlock>, sls: seq<SubnodeBlock>,
                             specs: seq<BlockSpec>, nodes: seq<NbtEntry>, n: NbtEntry)
    requires Shows(file, data, xs, sls, specs, nodes) && n in nodes && Reassemble(data, xs, n.bidData).Some?
    ensures ReadNodePayload(file, n.nid) == Reassemble(data, xs, n.bidData)
  {
    hide ImageOf, FindNode, ReadPayload, Reassemble, SignedInPlace, Writable;
    NodeIsFound(specs, nodes, file, n);
    FileShowsBlocks(file, data, xs, sls, specs, nodes, n.bidData);
  }

  /** The subnode list scheduled for a node is the one a reader finds under the node's id. */
  lemma SubnodeListReadsBack(file: seq<Byte>, data: seq<DataBlock>, xs: seq<ListBlock>, sls: seq<SubnodeBlock>,
                             specs: seq<BlockSpec>, nodes: seq<NbtEntry>, i: nat, n: NbtEntry)
    requires Shows(file, data, xs, sls, specs, nodes) && i < |sls| && n in nodes && n.bidSub == sls[i].bid
    ensures ReadSubnodeList(file, n.nid) == Some(sls[i].entries)
  {
    hide ImageOf, FindNode, ReadStored, ParseSlBlock, SlBody, SignedInPlace, Writable, Encoded, BidListBody;
    NodeIsFound(specs, nodes, file, n);
    var ss := StoredBlocks(data, xs, sls);
    assert ss[|data| + |xs| + i] == StoredSubnodes(sls[i]);
    StoredIsRead(specs, ss, nodes, file, |data| + |xs| + i);
    SlBodySize(sls[i].entries);
    SlRoundTrip(sls[i].entries);
  }

  lemma SlBodySize(es: seq<SlEntry>)
    ensures |SlBody(es)| == INTERNAL_HEADER_SIZE + 24 * |es|
  {
    hide Flatten;
    FlattenUniformLength(SlEntryImages(es), 24);
  }

  lemma {:induction false} EntryIsFirst(es: seq<SlEntry>, e: SlEntry)
    requires e in es && forall i, j | 0 <= i < j < |es| :: es[i].nid != es[j].nid
    ensures FirstSlEntry(es, e.nid) == Some(e)
  {
    if es[0] == e {
    } else {
      var k :| 0 <= k < |es| && es[k] == e;
      assert es[0].nid != es[k].nid && es[1..][k - 1] == e;
      EntryIsFirst(es[1..], e);
    }
  }

  /** From a node id and a subnode id to the subnode's payload, across any number of data blocks. */
  lemma SubnodeReadsBack(file: seq<Byte>, data: seq<DataBlock>, xs: seq<ListBlock>, sls: seq<SubnodeBlock>,
                         specs: seq<BlockSpec>, nodes: seq<NbtEntry>, i: nat, n: NbtEntry, e: SlEntry)
    requires Shows(file, data, xs, sls, specs, nodes) && i < |sls| && n in nodes && n.bidSub == sls[i].bid
    requires e in sls[i].entries && Reassemble(data, xs, e.bidData).Some?
    requires forall j, k | 0 <= j < k < |sls[i].entries| :: sls[i].entries[j].nid != sls[i].entries[k].nid
    ensures ReadSubnode(file, n.nid, e.nid) == Reassemble(data, xs, e.bidData)
  {
    hide Shows, ReadSubnodeList, ReadPayload, Reassemble;
    SubnodeListReadsBack(file, data, xs, sls, specs, nodes, i, n);
    EntryIsFirst(sls[i].entries, e);
    FileShowsBlocks(file, data, xs, sls, specs, nodes, e.bidData);
  }

  lemma {:induction false} NoSuchEntry(es: seq<SlEntry>, nid: Nid)
    requires forall e | e in es :: e.nid != nid
    ensures FirstSlEntry(es, nid) == None
  {
    if es == [] {
    } else {
      assert es[0] in es;
      NoSuchEntry(es[1..], nid);
    }
  }

  /** An id the node's list does not have names no subnode. */
  lemma SubnodeAbsent(file: seq<Byte>, data: seq<DataBlock>, xs: seq<ListBlock>, sls: seq<SubnodeBlock>,
                      specs: seq<BlockSpec>, nodes: seq<NbtEntry>, i: nat, n: NbtEntry, subnode: Nid)
    requires Shows(file, data, xs, sls, specs, nodes) && i < |sls| && n in nodes && n.bidSub == sls[i].bid
    requires forall e | e in sls[i].entries :: e.nid != subnode
    ensures ReadSubnode(file, n.nid, subnode) == None
  {
    hide Shows, ReadSubnodeList;
    SubnodeListReadsBack(file, data, xs, sls, specs, nodes, i, n);
    NoSuchEntry(sls[i].entries, subnode);
  }
}
