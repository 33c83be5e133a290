/**
 Reading blocks back: the trailer view of src/block.cpp and the checks and decoding that tools/pst_info.cpp applies
 to every block named by the block B-tree.
 */
module BlockReader {
  import opened Block
  import opened Bytes
  import opened Cipher
  import opened Ndb
  import opened Wrappers
  import Crc

  function ReadBlockTrailer(block: seq<Byte>, total: nat): Trailer
    requires total <= |block|
  {
    if total < BLOCK_TRAILER_SIZE then Trailer(0, 0, 0, 0)
    else
      var off := total - BLOCK_TRAILER_SIZE;
      Trailer(ReadU16(block, off), ReadU16(block, off + 2), ReadU32(block, off + 4), ReadU64(block, off + 8))
  }

  datatype BlockError = PastEndOfFile | CrcMismatch

  /** The `cb` stored bytes of the block at `ib`, once their checksum agrees with the trailer. */
  function StoredBytes(file: seq<Byte>, ib: Ib, cb: UInt16): Result<seq<Byte>, BlockError> {
    var total := RoundBlockSize(cb);
    if ib + total > |file| then Failure(PastEndOfFile)
    else
      var block := file[ib..ib + total];
      if ReadBlockTrailer(block, total).dwCRC != Crc.Checksum(block[..cb]) then Failure(CrcMismatch)
      else Success(block[..cb])
  }

  function FetchData(file: seq<Byte>, bid: Bid, ib: Ib, cb: UInt16,
                     method_: CryptMethod): Result<seq<Byte>, BlockError> {
    var stored :- StoredBytes(file, ib, cb);
    Success(Decoded(stored, method_, bid % 0x1_0000_0000))
  }

  // ---- The trailer ----

  lemma TrailerFields(block: seq<Byte>, off: nat, t: Trailer)
    requires off + BLOCK_TRAILER_SIZE == |block| && block[off..] == TrailerImage(t)
    ensures ReadBlockTrailer(block, |block|) == t
  {
    hide ReadU16, ReadU32, ReadU64, Le16, Le32, Le64;
    SubSlice(block, off, |block|, 0, 2);
    SubSlice(block, off, |block|, 2, 4);
    SubSlice(block, off, |block|, 4, 8);
    SubSlice(block, off, |block|, 8, 16);
    var image := TrailerImage(t);
    assert image[0..2] == Le16(t.cb) && image[2..4] == Le16(t.wSig);
    assert image[4..8] == Le32(t.dwCRC) && image[8..16] == Le64(t.bid);
    assert block[off..|block|] == image;
    ReadsBack16(block, off, t.cb);
    ReadsBack16(block, off + 2, t.wSig);
    ReadsBack32(block, off + 4, t.dwCRC);
    ReadsBack64(block, off + 8, t.bid);
  }

  lemma BlockReadsBack(body: seq<Byte>, bid: Bid, ib: Ib)
    ensures var block := BlockImage(body, bid, ib);
            && block[..|body|] == body
            && ReadBlockTrailer(block, RoundBlockSize(|body|)) == TrailerFor(body, bid, ib)
  {
    hide RoundBlockSize, TrailerImage;
    var block := BlockImage(body, bid, ib);
    TrailerFields(block, |block| - BLOCK_TRAILER_SIZE, TrailerFor(body, bid, ib));
  }

  // ---- Whole blocks inside a file ----

  lemma BlockInFile(file: seq<Byte>, body: seq<Byte>, bid: Bid, ib: Ib)
    requires StoredAt(file, ib, BlockImage(body, bid, ib))
    ensures ib + RoundBlockSize(|body|) <= |file|
    ensures file[ib..ib + RoundBlockSize(|body|)] == BlockImage(body, bid, ib)
  {
    hide BlockImage, RoundBlockSize;
  }

  lemma StoredReadsBack(file: seq<Byte>, body: seq<Byte>, bid: Bid, ib: Ib)
    requires |body| < 0x1_0000 && StoredAt(file, ib, BlockImage(body, bid, ib))
    ensures StoredBytes(file, ib, |body|) == Success(body)
  {
    hide BlockImage, RoundBlockSize, StoredAt, ReadBlockTrailer, BlockSig, Crc.Checksum;
    BlockInFile(file, body, bid, ib);
    BlockReadsBack(body, bid, ib);
  }

  /**
   A data block, wherever it lies in a file: its trailer carries the stored size, the signature of its place, the
   checksum of the stored bytes and its id, and decoding the stored bytes gives the payload.
   */
  lemma DataRoundTrip(file: seq<Byte>, payload: seq<Byte>, bid: Bid, ib: Ib, method_: CryptMethod)
    requires |payload| <= MAX_BLOCK_PAYLOAD
    requires StoredAt(file, ib, BlockImage(Encoded(payload, method_, bid % 0x1_0000_0000), bid, ib))
    ensures var total := RoundBlockSize(|payload|);
            && ib + total <= |file|
            && ReadBlockTrailer(file[ib..ib + total], total)
               == Trailer(|payload|, BlockSig(bid, ib), Crc.Checksum(Encoded(payload, method_, bid % 0x1_0000_0000)),
                          bid)
            && SignedFor(ReadBlockTrailer(file[ib..ib + total], total).wSig, bid, ib)
    ensures FetchData(file, bid, ib, |payload|, method_) == Success(payload)
  {
    hide BlockImage, Crc.Checksum, BlockSig, SignedFor, RoundBlockSize, StoredAt, ReadBlockTrailer, StoredBytes,
         Encoded, Decoded;
    var stored := Encoded(payload, method_, bid % 0x1_0000_0000);
    BlockInFile(file, stored, bid, ib);
    BlockReadsBack(stored, bid, ib);
    SignatureBits(bid, ib);
    StoredReadsBack(file, stored, bid, ib);
    DecodedEncoded(payload, method_, bid % 0x1_0000_0000);
  }

  /** Changing stored bytes inside any window of at most four is always noticed. */
  lemma DamageIsNoticed(file: seq<Byte>, before: seq<Byte>, v: seq<Byte>, w: seq<Byte>, after: seq<Byte>,
                        bid: Bid, ib: Ib)
    requires |v| == |w| <= 4 && v != w && |before + v + after| < 0x1_0000
    requires var image := BlockImage(before + v + after, bid, ib);
             StoredAt(file, ib, before + w + after + image[|before + v + after|..])
    ensures StoredBytes(file, ib, |before + v + after|) == Failure(CrcMismatch)
  {
    hide BlockImage, Crc.Checksum, RoundBlockSize, ReadBlockTrailer;
    var good, bad := before + v + after, before + w + after;
    var image := BlockImage(good, bid, ib);
    BlockReadsBack(good, bid, ib);
    var block := bad + image[|good|..];
    assert file[ib..ib + RoundBlockSize(|good|)] == block && block[..|good|] == bad;
    SameTrailer(image, block, |good|);
    Crc.ChangeDetected(before, v, w, after);
  }

  lemma SameTrailer(a: seq<Byte>, b: seq<Byte>, n: nat)
    requires |a| == |b| && n + BLOCK_TRAILER_SIZE <= |a| && a[n..] == b[n..]
    ensures ReadBlockTrailer(a, |a|) == ReadBlockTrailer(b, |b|)
  {
    var off := |a| - BLOCK_TRAILER_SIZE;
    assert forall i | off <= i < |a| :: a[i] == a[n..][i - n] == b[n..][i - n] == b[i];
  }

  // ---- Lists in internal blocks ----

  datatype BidList = BidList(cLevel: Byte, lcbTotal: UInt32, children: seq<Bid>)

  function ReadBids(body: seq<Byte>, off: nat, count: nat): (bids: seq<Bid>)
    requires off + count * 8 <= |body|
    ensures |bids| == count
    ensures forall i | 0 <= i < count :: bids[i] == ReadU64(body, off + i * 8)
  {
    seq(count, i requires 0 <= i < count => ReadU64(body, off + i * 8))
  }

  /** An XBLOCK or XXBLOCK body, if that is what it is. */
  function ParseBidList(body: seq<Byte>): Option<BidList> {
    if |body| < INTERNAL_HEADER_SIZE || body[0] != 0x01 then None
    else
      var cEnt := ReadU16(body, 2);
      if |body| < INTERNAL_HEADER_SIZE + cEnt * 8 then None
      else Some(BidList(body[1], ReadU32(body, 4), ReadBids(body, INTERNAL_HEADER_SIZE, cEnt)))
  }

  lemma InternalFields(btype: Byte, cLevel: Byte, cEnt: UInt16, lcb: UInt32, entries: seq<Byte>)
    ensures var body := InternalBody(btype, cLevel, cEnt, lcb, entries);
            && body[0] == btype && body[1] == cLevel && ReadU16(body, 2) == cEnt && ReadU32(body, 4) == lcb
            && body[INTERNAL_HEADER_SIZE..] == entries
  {
    hide ReadU16, ReadU32, Le16, Le32;
    var body := InternalBody(btype, cLevel, cEnt, lcb, entries);
    assert body[2..4] == Le16(cEnt) && body[4..8] == Le32(lcb);
    ReadsBack16(body, 2, cEnt);
    ReadsBack32(body, 4, lcb);
  }

  lemma EntryReadsBack(body: seq<Byte>, bids: seq<Bid>, i: nat)
    requires |body| == INTERNAL_HEADER_SIZE + 8 * |bids| && i < |bids|
    requires body[INTERNAL_HEADER_SIZE..] == Flatten(BidEntries(bids))
    ensures ReadU64(body, INTERNAL_HEADER_SIZE + i * 8) == bids[i]
  {
    hide ReadU64, Le64;
    FlattenUniformSlice(BidEntries(bids), 8, i);
    SubSlice(body, INTERNAL_HEADER_SIZE, |body|, i * 8, i * 8 + 8);
    assert body[INTERNAL_HEADER_SIZE..|body|] == body[INTERNAL_HEADER_SIZE..];
    ReadsBack64(body, INTERNAL_HEADER_SIZE + i * 8, bids[i]);
  }

  lemma BidListRoundTrip(cLevel: Byte, children: seq<Bid>, lcbTotal: UInt32)
    requires |children| < 0x1_0000
    ensures ParseBidList(BidListBody(cLevel, children, lcbTotal)) == Some(BidList(cLevel, lcbTotal, children))
  {
    hide InternalBody, ReadU64, ReadU32, ReadU16;
    var entries := Flatten(BidEntries(children));
    var body := BidListBody(cLevel, children, lcbTotal);
    InternalFields(0x01, cLevel, |children|, lcbTotal, entries);
    FlattenUniformLength(BidEntries(children), 8);
    forall i | 0 <= i < |children| ensures ReadU64(body, INTERNAL_HEADER_SIZE + i * 8) == children[i] {
      EntryReadsBack(body, children, i);
    }
    assert ReadBids(body, INTERNAL_HEADER_SIZE, |children|) == children;
  }

  // ---- Subnode lists ----

  function ReadSlEntry(body: seq<Byte>, off: nat): SlEntry
    requires off + 24 <= |body|
  {
    SlEntry(ReadU32(body, off), ReadU64(body, off + 8), ReadU64(body, off + 16))
  }

  function ReadSlEntries(body: seq<Byte>, off: nat, count: nat): (es: seq<SlEntry>)
    requires off + count * 24 <= |body|
    ensures |es| == count
    ensures forall i | 0 <= i < count :: es[i] == ReadSlEntry(body, off + i * 24)
  {
    seq(count, i requires 0 <= i < count => ReadSlEntry(body, off + i * 24))
  }

  /** An SLBLOCK body, if that is what it is. */
  function ParseSlBlock(body: seq<Byte>): Option<seq<SlEntry>> {
    if |body| < INTERNAL_HEADER_SIZE || body[0] != 0x02 || body[1] != 0 then None
    else
      var cEnt := ReadU16(body, 2);
      if |body| < INTERNAL_HEADER_SIZE + cEnt * 24 then None
      else Some(ReadSlEntries(body, INTERNAL_HEADER_SIZE, cEnt))
  }

  lemma SlFieldsRead(body: seq<Byte>, off: nat, e: SlEntry)
    requires off + 24 <= |body| && body[off..off + 24] == SlEntryImage(e)
    ensures ReadSlEntry(body, off) == e
  {
    hide ReadU32, ReadU64, Le32, Le64;
    var image := SlEntryImage(e);
    SubSlice(body, off, off + 24, 0, 8);
    SubSlice(body, off, off + 24, 8, 16);
    SubSlice(body, off, off + 24, 16, 24);
    assert image[0..8] == Le64(e.nid) && image[8..16] == Le64(e.bidData) && image[16..24] == Le64(e.bidSub);
    SmallLe64(e.nid);
    SubSlice(body, off, off + 8, 0, 4);
    ReadsBack32(body, off, e.nid);
    ReadsBack64(body, off + 8, e.bidData);
    ReadsBack64(body, off + 16, e.bidSub);
  }

  /** The low half of a zero-extended id is the id. */
  lemma SmallLe64(v: UInt32)
    ensures Le64(v)[0..4] == Le32(v)
  {
    hide Le32;
  }

  lemma SlEntryReadsBack(body: seq<Byte>, es: seq<SlEntry>, i: nat)
    requires |body| == INTERNAL_HEADER_SIZE + 24 * |es| && i < |es|
    requires body[INTERNAL_HEADER_SIZE..] == Flatten(SlEntryImages(es))
    ensures ReadSlEntry(body, INTERNAL_HEADER_SIZE + i * 24) == es[i]
  {
    hide ReadSlEntry, SlEntryImage, Flatten;
    FlattenUniformSlice(SlEntryImages(es), 24, i);
    SubSlice(body, INTERNAL_HEADER_SIZE, |body|, i * 24, i * 24 + 24);
    assert body[INTERNAL_HEADER_SIZE..|body|] == body[INTERNAL_HEADER_SIZE..];
    SlFieldsRead(body, INTERNAL_HEADER_SIZE + i * 24, es[i]);
  }

  /** Reading a written subnode list gives exactly its entries, in order. */
  lemma SlRoundTrip(es: seq<SlEntry>)
    requires |es| < 0x1_0000
    ensures ParseSlBlock(SlBody(es)) == Some(es)
  {
    hide InternalBody, ReadSlEntry, ReadU16, Flatten;
    var entries := Flatten(SlEntryImages(es));
    var body := SlBody(es);
    InternalFields(0x02, 0, |es|, 0, entries);
    FlattenUniformLength(SlEntryImages(es), 24);
    forall i | 0 <= i < |es| ensures ReadSlEntry(body, INTERNAL_HEADER_SIZE + i * 24) == es[i] {
      SlEntryReadsBack(body, es, i);
    }
    assert ReadSlEntries(body, INTERNAL_HEADER_SIZE, |es|) == es;
  }
}
