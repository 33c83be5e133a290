/**
 The block-encoding loop of writeM7Pst and the file it hands to writeM5Pst (src/mail.cpp): each block is signed for
 an offset computed here, and the file writer computes its own.
 */
module Assembly {
  import opened Block
  import opened BlockReader
  import opened Bytes
  import opened Chunks
  import opened Cipher
  import opened Header
  import opened Image
  import opened ImageReader
  import opened ImageWriter
  import opened Ndb
  import opened Nbt
  import opened Page
  import opened Sorting
  import opened Wrappers
  import BbtReader
  import NbtReader
  import Crc

  // ---- The stored form of every scheduled block ----

  /** An id and the bytes stored under it. */
  datatype Stored = Stored(bid: Bid, body: seq<Byte>)

  function StoredData(d: DataBlock): Stored {
    Stored(d.bid, Encoded(d.bytes, Permute, d.bid % 0x1_0000_0000))
  }

  function StoredList(x: ListBlock): Stored {
    Stored(x.bid, BidListBody(if x.cLevel == 1 then 1 else 2, x.children, x.lcbTotal))
  }

  function StoredSubnodes(sl: SubnodeBlock): Stored {
    Stored(sl.bid, SlBody(sl.entries))
  }

  /** Data blocks, then list blocks, then subnode lists. */
  function StoredBlocks(data: seq<DataBlock>, xs: seq<ListBlock>, sls: seq<SubnodeBlock>): (ss: seq<Stored>)
    ensures |ss| == |data| + |xs| + |sls|
    ensures forall i | 0 <= i < |data| :: ss[i] == StoredData(data[i])
    ensures forall i | 0 <= i < |xs| :: ss[|data| + i] == StoredList(xs[i])
    ensures forall i | 0 <= i < |sls| :: ss[|data| + |xs| + i] == StoredSubnodes(sls[i])
  {
    seq(|data|, i requires 0 <= i < |data| => StoredData(data[i]))
    + seq(|xs|, i requires 0 <= i < |xs| => StoredList(xs[i]))
    + seq(|sls|, i requires 0 <= i < |sls| => StoredSubnodes(sls[i]))
  }

  function ImageBytes(ss: seq<Stored>): (n: nat) {
    if ss == [] then BLOCKS_START else ImageBytes(ss[..|ss| - 1]) + RoundBlockSize(|ss[|ss| - 1].body|)
  }

  /** Block `i` is signed for the very offset at which the file writer will put it. */
  ghost predicate SignedInPlace(specs: seq<BlockSpec>, ss: seq<Stored>) {
    && |specs| == |ss|
    && forall i | 0 <= i < |ss| ::
         BlockIb(specs, i) < 0x1_0000_0000_0000_0000 &&
         specs[i] == BlockSpec(ss[i].bid, BlockImage(ss[i].body, ss[i].bid, BlockIb(specs, i)), |ss[i].body| % 0x1_0000)
  }

  lemma SignedAt(specs: seq<BlockSpec>, ss: seq<Stored>, i: nat)
    requires SignedInPlace(specs, ss) && i < |ss|
    ensures |specs| == |ss| && BlockIb(specs, i) < 0x1_0000_0000_0000_0000
    ensures specs[i] == BlockSpec(ss[i].bid, BlockImage(ss[i].body, ss[i].bid, BlockIb(specs, i)),
                                  |ss[i].body| % 0x1_0000)
  {
  }

  /** Adding a block signed for the cursor keeps every block signed in place. */
  lemma SignNext(specs: seq<BlockSpec>, ss: seq<Stored>, s: Stored, ib: Ib)
    requires SignedInPlace(specs, ss) && ib == BlockIb(specs, |specs|)
    ensures var spec := BlockSpec(s.bid, BlockImage(s.body, s.bid, ib), |s.body| % 0x1_0000);
            && SignedInPlace(specs + [spec], ss + [s])
            && BlockIb(specs + [spec], |specs| + 1) == ib + RoundBlockSize(|s.body|)
  {
    hide BlockIb, BlockImage;
    var spec := BlockSpec(s.bid, BlockImage(s.body, s.bid, ib), |s.body| % 0x1_0000);
    var more := specs + [spec];
    forall i | 0 <= i <= |specs| ensures BlockIb(more, i) == BlockIb(specs, i) {
      SamePrefix(specs, spec, i);
    }
    BlockIbStep(more, |specs|);
  }

  lemma SamePrefix(specs: seq<BlockSpec>, spec: BlockSpec, i: nat)
    requires i <= |specs|
    ensures BlockIb(specs + [spec], i) == BlockIb(specs, i)
  {
    assert BlockBytes(specs + [spec])[..i] == BlockBytes(specs)[..i];
  }

  lemma {:induction false} ImageBytesGrow(ss: seq<Stored>, i: nat)
    requires i <= |ss|
    ensures ImageBytes(ss[..i]) <= ImageBytes(ss)
    decreases |ss|
  {
    if i < |ss| {
      ImageBytesGrow(ss[..|ss| - 1], i);
      assert ss[..|ss| - 1][..i] == ss[..i];
    } else {
      assert ss[..i] == ss;
    }
  }

  lemma NextBytes(ss: seq<Stored>, i: nat)
    requires i < |ss|
    ensures ImageBytes(ss[..i + 1]) == ImageBytes(ss[..i]) + RoundBlockSize(|ss[i].body|) <= ImageBytes(ss)
  {
    assert ss[..i + 1][..i] == ss[..i];
    ImageBytesGrow(ss, i + 1);
  }

  // ---- The loop ----

  method EncodeBlocks(data: seq<DataBlock>, xs: seq<ListBlock>, sls: seq<SubnodeBlock>) returns (specs: seq<BlockSpec>)
    ensures |specs| == |data| + |xs| + |sls|
    ensures ImageBytes(StoredBlocks(data, xs, sls)) < 0x1_0000_0000_0000_0000 ==>
              && SignedInPlace(specs, StoredBlocks(data, xs, sls))
              && BlockIb(specs, |specs|) == ImageBytes(StoredBlocks(data, xs, sls))
  {
    ghost var ss := StoredBlocks(data, xs, sls);
    hide BlockImage, ImageBytes, SignedInPlace, StoredData, StoredList, StoredSubnodes, BlockIb, EncodedSoFar;
    var cursorIb: UInt64 := BLOCKS_START;
    specs := [];
    NothingSigned(ss);
    for i := 0 to |data|
      invariant EncodedSoFar(specs, ss, i, cursorIb)
    {
      var spec := EncodeData(data[i], cursorIb);
      OneMore(specs, ss, i, cursorIb);
      specs := specs + [spec];
      cursorIb := (cursorIb + |spec.encodedBlock|) % 0x1_0000_0000_0000_0000;
    }
    specs, cursorIb := EncodeLists(specs, xs, cursorIb, ss, |data|);
    specs, cursorIb := EncodeSubnodeLists(specs, sls, cursorIb, ss, |data| + |xs|);
    AllSigned(specs, ss, cursorIb);
  }

  method EncodeLists(before: seq<BlockSpec>, xs: seq<ListBlock>, from: UInt64, ghost ss: seq<Stored>, ghost k: nat)
    returns (specs: seq<BlockSpec>, cursorIb: UInt64)
    requires EncodedSoFar(before, ss, k, from)
    requires k + |xs| <= |ss| && forall i | 0 <= i < |xs| :: ss[k + i] == StoredList(xs[i])
    ensures EncodedSoFar(specs, ss, k + |xs|, cursorIb)
  {
    hide BlockImage, ImageBytes, StoredList, EncodedSoFar;
    specs, cursorIb := before, from;
    for i := 0 to |xs|
      invariant EncodedSoFar(specs, ss, k + i, cursorIb)
    {
      var spec := EncodeList(xs[i], cursorIb);
      OneMore(specs, ss, k + i, cursorIb);
      specs := specs + [spec];
      cursorIb := (cursorIb + |spec.encodedBlock|) % 0x1_0000_0000_0000_0000;
    }
  }

  method EncodeSubnodeLists(before: seq<BlockSpec>, sls: seq<SubnodeBlock>, from: UInt64, ghost ss: seq<Stored>,
                            ghost k: nat)
    returns (specs: seq<BlockSpec>, cursorIb: UInt64)
    requires EncodedSoFar(before, ss, k, from)
    requires k + |sls| <= |ss| && forall i | 0 <= i < |sls| :: ss[k + i] == StoredSubnodes(sls[i])
    ensures EncodedSoFar(specs, ss, k + |sls|, cursorIb)
  {
    hide BlockImage, ImageBytes, StoredSubnodes, EncodedSoFar;
    specs, cursorIb := before, from;
    for i := 0 to |sls|
      invariant EncodedSoFar(specs, ss, k + i, cursorIb)
    {
      var spec := EncodeSubnodes(sls[i], cursorIb);
      OneMore(specs, ss, k + i, cursorIb);
      specs := specs + [spec];
      cursorIb := (cursorIb + |spec.encodedBlock|) % 0x1_0000_0000_0000_0000;
    }
  }

  /** The first `k` blocks are encoded and, if the 64-bit cursor does not wrap, signed for the offsets it took. */
  ghost predicate EncodedSoFar(specs: seq<BlockSpec>, ss: seq<Stored>, k: nat, cursorIb: UInt64) {
    && k <= |ss| && |specs| == k
    && (ImageBytes(ss) < 0x1_0000_0000_0000_0000 ==>
          SignedInPlace(specs, ss[..k]) && cursorIb as int == BlockIb(specs, k) == ImageBytes(ss[..k]))
  }

  lemma NothingSigned(ss: seq<Stored>)
    ensures EncodedSoFar([], ss, 0, BLOCKS_START)
  {
  }

  lemma AllSigned(specs: seq<BlockSpec>, ss: seq<Stored>, cursorIb: UInt64)
    requires EncodedSoFar(specs, ss, |ss|, cursorIb)
    ensures |specs| == |ss|
    ensures ImageBytes(ss) < 0x1_0000_0000_0000_0000 ==>
              SignedInPlace(specs, ss) && BlockIb(specs, |specs|) == ImageBytes(ss)
  {
    assert ss[..|ss|] == ss;
  }

  lemma OneMore(specs: seq<BlockSpec>, ss: seq<Stored>, k: nat, ib: Ib)
    requires k < |ss| && EncodedSoFar(specs, ss, k, ib)
    ensures var s := ss[k];
            EncodedSoFar(specs + [BlockSpec(s.bid, BlockImage(s.body, s.bid, ib), |s.body| % 0x1_0000)], ss, k + 1,
                         (ib + RoundBlockSize(|s.body|)) % 0x1_0000_0000_0000_0000)
  {
    hide BlockImage, ImageBytes, SignedInPlace, BlockIb, RoundBlockSize;
    NextBytes(ss, k);
    if ImageBytes(ss) < 0x1_0000_0000_0000_0000 {
      SignNext(specs, ss[..k], ss[k], ib);
      assert ss[..k + 1] == ss[..k] + [ss[k]];
    }
  }

  method EncodeData(d: DataBlock, ib: Ib) returns (spec: BlockSpec)
    ensures var s := StoredData(d); spec == BlockSpec(s.bid, BlockImage(s.body, s.bid, ib), |s.body| % 0x1_0000)
    ensures |spec.encodedBlock| == RoundBlockSize(|StoredData(d).body|)
  {
    hide BlockImage;
    var encoded := BuildDataBlock(d.bytes, d.bid, ib, Permute);
    spec := BlockSpec(d.bid, encoded, |d.bytes| % 0x1_0000);
  }

  method EncodeList(x: ListBlock, ib: Ib) returns (spec: BlockSpec)
    ensures var s := StoredList(x); spec == BlockSpec(s.bid, BlockImage(s.body, s.bid, ib), |s.body| % 0x1_0000)
    ensures |spec.encodedBlock| == RoundBlockSize(|StoredList(x).body|)
  {
    hide BlockImage;
    FlattenUniformLength(BidEntries(x.children), 8);
    var encoded := BuildBidListBlock(if x.cLevel == 1 then 1 else 2, x.children, x.lcbTotal, x.bid, ib);
    spec := BlockSpec(x.bid, encoded, (8 + |x.children| * 8) % 0x1_0000);
  }

  method EncodeSubnodes(sl: SubnodeBlock, ib: Ib) returns (spec: BlockSpec)
    ensures var s := StoredSubnodes(sl); spec == BlockSpec(s.bid, BlockImage(s.body, s.bid, ib), |s.body| % 0x1_0000)
    ensures |spec.encodedBlock| == RoundBlockSize(|StoredSubnodes(sl).body|)
  {
    hide BlockImage;
    FlattenUniformLength(SlEntryImages(sl.entries), 24);
    var encoded := BuildSlBlock(sl.entries, sl.bid, ib);
    spec := BlockSpec(sl.bid, encoded, (8 + |sl.entries| * 24) % 0x1_0000);
  }

  // ---- What a reader of the finished file finds ----

  /** The entry with the given id among those the walk lists. */
  function EntryOf(es: seq<BbtEntry>, bid: Bid): Option<BbtEntry> {
    if es == [] then None
    else if es[0].bref.bid == bid then Some(es[0])
    else EntryOf(es[1..], bid)
  }

  datatype FileError = NoSuchBlock | Damaged(error: BlockError) | NoNodeTree | NoSuchNode

  function ReadStored(file: seq<Byte>, bid: Bid): Result<seq<Byte>, FileError> {
    match ListedEntry(file, bid)
    case None => Failure(NoSuchBlock)
    case Some(e) =>
      match StoredBytes(file, e.bref.ib, e.cb)
      case Failure(error) => Failure(Damaged(error))
      case Success(bytes) => Success(bytes)
  }

  /** The body of a node: node B-tree, data block id, block B-tree, checksum, decoding. */
  function ReadNode(file: seq<Byte>, nid: Nid): Result<seq<Byte>, FileError> {
    if |file| < HEADER_SIZE then Failure(NoNodeTree)
    else
      match NbtReader.Find(file, NbtRoot(file), nid, true)
      case Failure(_) => Failure(NoNodeTree)
      case Success(None) => Failure(NoSuchNode)
      case Success(Some(e)) =>
        var stored :- ReadStored(file, e.bidData);
        Success(Decoded(stored, Permute, e.bidData % 0x1_0000_0000))
  }

  lemma {:induction false} EntryFound(es: seq<BbtEntry>, e: BbtEntry)
    requires e in es && StrictlyAscending(es, BbtKey)
    ensures EntryOf(es, e.bref.bid) == Some(e)
  {
    hide StrictlyAscending;
    var i :| 0 <= i < |es| && es[i] == e;
    EntryAt(es, i);
  }

  lemma {:induction false} EntryAt(es: seq<BbtEntry>, i: nat)
    requires i < |es| && StrictlyAscending(es, BbtKey)
    ensures EntryOf(es, es[i].bref.bid) == Some(es[i])
  {
    if i == 0 {
    } else {
      assert BbtKey(es[0]) < BbtKey(es[i]);
      assert StrictlyAscending(es[1..], BbtKey) by {
        assert forall k | 0 <= k < |es[1..]| :: es[1..][k] == es[k + 1];
      }
      EntryAt(es[1..], i - 1);
    }
  }

  /** A file assembled from signed blocks and nodes with distinct ids. */
  ghost predicate Assembles(specs: seq<BlockSpec>, ss: seq<Stored>, nodes: seq<NbtEntry>) {
    && Writable(specs, nodes) && SignedInPlace(specs, ss)
    && forall i | 0 <= i < |ss| :: |ss[i].body| < 0x1_0000
  }

  lemma EntriesAscend(specs: seq<BlockSpec>, nodes: seq<NbtEntry>)
    requires Writable(specs, nodes)
    ensures BlockIb(specs, |specs|) < 0x1_0000_0000_0000_0000
    ensures StrictlyAscending(SortedCopy(BbtEntries(specs), BbtKey), BbtKey)
  {
    hide BlockIb, SortedCopy, StrictlyAscending;
    BlocksFit(specs, |nodes|);
    DistinctEntries(specs, |nodes|);
    SortedIsUnique(BbtEntries(specs), SortedCopy(BbtEntries(specs), BbtKey), BbtKey);
  }

  /**
   What the file holds at the entry's place: a trailer with the entry's size and id and the signature of the entry's
   own offset, and `body` under a checksum that matches.
   */
  ghost predicate EntryIsTrue(file: seq<Byte>, e: BbtEntry, body: seq<Byte>) {
    var total := RoundBlockSize(e.cb);
    && e.bref.ib + total <= |file|
    && ReadBlockTrailer(file[e.bref.ib..e.bref.ib + total], total)
       == Trailer(e.cb, BlockSig(e.bref.bid, e.bref.ib), Crc.Checksum(body), e.bref.bid)
    && SignedFor(ReadBlockTrailer(file[e.bref.ib..e.bref.ib + total], total).wSig, e.bref.bid, e.bref.ib)
    && StoredBytes(file, e.bref.ib, e.cb) == Success(body)
  }

  /** The entry of the block B-tree for a block id, as a reader of the file finds it. */
  function ListedEntry(file: seq<Byte>, bid: Bid): Option<BbtEntry> {
    if |file| < HEADER_SIZE then None
    else
      match BbtReader.Walk(file, BbtRoot(file).ib)
      case Failure(_) => None
      case Success(es) => EntryOf(es, bid)
  }

  /** Every block is listed, and the offset its entry names is the one its signature was computed for. */
  lemma SignatureMatchesEntry(specs: seq<BlockSpec>, ss: seq<Stored>, nodes: seq<NbtEntry>, file: seq<Byte>, i: nat)
    requires Assembles(specs, ss, nodes) && file == ImageOf(specs, nodes) && i < |ss|
    ensures var found := ListedEntry(file, ss[i].bid);
            && found.Some? && found.value.bref.bid == ss[i].bid && found.value.cb == |ss[i].body|
            && EntryIsTrue(file, found.value, ss[i].body)
  {
    hide ImageOf, SortedCopy, BlockIb, BlockImage, SignedInPlace, BbtReader.Walk, BbtRoot, EntryOf, EntryIsTrue,
         Writable, StrictlyAscending, StoredAt;
    EntriesAscend(specs, nodes);
    SortedBlocksAreListed(specs, nodes, file);
    SignedAt(specs, ss, i);
    var e := BbtEntryFor(specs, i);
    EntryIb(specs, i);
    EntryFound(SortedCopy(BbtEntries(specs), BbtKey), e);
    StoredEntryIsTrue(file, ss[i].body, e);
  }

  lemma StoredEntryIsTrue(file: seq<Byte>, body: seq<Byte>, e: BbtEntry)
    requires e.cb == |body| && StoredAt(file, e.bref.ib, BlockImage(body, e.bref.bid, e.bref.ib))
    ensures EntryIsTrue(file, e, body)
  {
    hide BlockImage, RoundBlockSize, StoredBytes, ReadBlockTrailer, BlockSig, SignedFor, Crc.Checksum;
    SignatureBits(e.bref.bid, e.bref.ib);
    BlockReadsBack(body, e.bref.bid, e.bref.ib);
    StoredReadsBack(file, body, e.bref.bid, e.bref.ib);
  }

  lemma StoredIsRead(specs: seq<BlockSpec>, ss: seq<Stored>, nodes: seq<NbtEntry>, file: seq<Byte>, i: nat)
    requires Assembles(specs, ss, nodes) && file == ImageOf(specs, nodes) && i < |ss|
    ensures ReadStored(file, ss[i].bid) == Success(ss[i].body)
  {
    hide ImageOf, ListedEntry, RoundBlockSize, StoredBytes, ReadBlockTrailer, BlockSig, SignedFor, Crc.Checksum,
         Assembles;
    SignatureMatchesEntry(specs, ss, nodes, file, i);
  }

  /** From node id to decoded body: every node whose data block was scheduled reads back as that block's bytes. */
  lemma NodeReadsBack(data: seq<DataBlock>, xs: seq<ListBlock>, sls: seq<SubnodeBlock>, specs: seq<BlockSpec>,
                      nodes: seq<NbtEntry>, file: seq<Byte>, i: nat, n: NbtEntry)
    requires Assembles(specs, StoredBlocks(data, xs, sls), nodes) && file == ImageOf(specs, nodes)
    requires i < |data| && n in nodes && n.bidData == data[i].bid
    ensures ReadNode(file, n.nid) == Success(data[i].bytes)
  {
    hide ImageOf, NbtReader.Find, NbtRoot, ReadStored, Encoded, Decoded, Writable;
    NodesAreFound(specs, nodes, file, true, n.nid);
    var found := NbtReader.Find(file, NbtRoot(file), n.nid, true).value;
    OnlyOneNode(nodes, specs, found.value, n);
    StoredIsRead(specs, StoredBlocks(data, xs, sls), nodes, file, i);
    DecodedEncoded(data[i].bytes, Permute, n.bidData % 0x1_0000_0000);
  }

  lemma OnlyOneNode(nodes: seq<NbtEntry>, specs: seq<BlockSpec>, a: NbtEntry, b: NbtEntry)
    requires Writable(specs, nodes) && a in nodes && b in nodes && a.nid == b.nid
    ensures a == b
  {
    var i :| 0 <= i < |nodes| && nodes[i] == a;
    var j :| 0 <= j < |nodes| && nodes[j] == b;
    hide Writable;
    assert NidKey(nodes[i]) == NidKey(nodes[j]);
  }

  /** A node id that no node has is not found. */
  lemma AbsentNode(specs: seq<BlockSpec>, nodes: seq<NbtEntry>, file: seq<Byte>, nid: Nid)
    requires Writable(specs, nodes) && file == ImageOf(specs, nodes) && forall n | n in nodes :: n.nid != nid
    ensures ReadNode(file, nid) == Failure(NoSuchNode)
  {
    hide ImageOf, NbtReader.Find, NbtRoot, ReadStored, Writable;
    NodesAreFound(specs, nodes, file, true, nid);
  }
}
