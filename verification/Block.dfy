/** Data blocks and internal blocks (src/block.cpp; section 2.2.2.8 of [MS-PST]). */
module Block {
  import opened Bytes
  import opened Cipher
  import opened Ndb
  import Crc

  const INTERNAL_HEADER_SIZE: nat := 8

  // ---- Layout ----

  function RoundBlockSize(body: nat): (total: nat)
    ensures total % 64 == 0 && body + BLOCK_TRAILER_SIZE <= total < body + BLOCK_TRAILER_SIZE + 64
  {
    (body + BLOCK_TRAILER_SIZE + 63) / 64 * 64
  }

  datatype Trailer = Trailer(cb: UInt16, wSig: UInt16, dwCRC: UInt32, bid: Bid)

  function TrailerImage(t: Trailer): (s: seq<Byte>)
    ensures |s| == BLOCK_TRAILER_SIZE
  {
    Le16(t.cb) + Le16(t.wSig) + Le32(t.dwCRC) + Le64(t.bid)
  }

  /** The trailer that belongs to `body`, the bytes as stored. */
  function TrailerFor(body: seq<Byte>, bid: Bid, ib: Ib): Trailer {
    Trailer(|body| % 0x1_0000, BlockSig(bid, ib), Crc.Checksum(body), bid)
  }

  /** A finished block: body, zero padding up to the trailer, trailer. */
  function BlockImage(body: seq<Byte>, bid: Bid, ib: Ib): (s: seq<Byte>)
    ensures |s| == RoundBlockSize(|body|)
  {
    body + Zeros(RoundBlockSize(|body|) - BLOCK_TRAILER_SIZE - |body|) + TrailerImage(TrailerFor(body, bid, ib))
  }

  // ---- Builders ----

  method WriteTrailer(buf: array<Byte>, off: nat, t: Trailer)
    requires off + BLOCK_TRAILER_SIZE <= buf.Length
    modifies buf
    ensures buf[..off + BLOCK_TRAILER_SIZE] == old(buf[..off]) + TrailerImage(t)
  {
    hide Patch, Le16, Le32, Le64;
    WriteU16(buf, off, t.cb);
    WriteU16(buf, off + 2, t.wSig);
    WriteU32(buf, off + 4, t.dwCRC);
    WriteU64(buf, off + 8, t.bid);
  }

  /** Fills in the trailer of a buffer that holds `body` and zeros. */
  method Seal(buf: array<Byte>, cb: nat, bid: Bid, ib: Ib, ghost body: seq<Byte>)
    requires |body| == cb && buf.Length == RoundBlockSize(cb) && Filled(buf[..], body)
    modifies buf
    ensures buf[..] == BlockImage(body, bid, ib)
  {
    hide BlockSig, RoundBlockSize, TrailerImage, Crc.Checksum;
    var trailerOff := buf.Length - BLOCK_TRAILER_SIZE;
    assert buf[..cb] == body;
    assert buf[..trailerOff] == body + Zeros(trailerOff - cb);
    var dwCRC := Crc.ComputeChecksum(buf[..cb]);
    WriteTrailer(buf, trailerOff, Trailer(cb % 0x1_0000, BlockSig(bid, ib), dwCRC, bid));
    assert buf[..trailerOff + BLOCK_TRAILER_SIZE] == buf[..];
  }

  method BuildDataBlock(payload: seq<Byte>, bid: Bid, ib: Ib, method_: CryptMethod) returns (block: seq<Byte>)
    ensures block == BlockImage(Encoded(payload, method_, bid % 0x1_0000_0000), bid, ib)
  {
    hide BlockImage;
    var buf := new Byte[RoundBlockSize(|payload|)](_ => 0);
    if |payload| > 0 {
      Copy(buf, 0, payload);
    }
    assert buf[..|payload|] == payload;
    EncodeBlock(buf, |payload|, method_, bid % 0x1_0000_0000);
    Seal(buf, |payload|, bid, ib, Encoded(payload, method_, bid % 0x1_0000_0000));
    block := buf[..];
  }

  /** An internal block's body: type, level, count, a 32-bit total or padding, then the entries. */
  function InternalBody(btype: Byte, cLevel: Byte, cEnt: UInt16, lcbTotalOrPad: UInt32,
                        entries: seq<Byte>): (s: seq<Byte>)
    ensures |s| == INTERNAL_HEADER_SIZE + |entries|
  {
    [btype, cLevel] + Le16(cEnt) + Le32(lcbTotalOrPad) + entries
  }

  method BuildInternalBlock(btype: Byte, cLevel: Byte, cEnt: UInt16, lcbTotalOrPad: UInt32, entries: seq<Byte>,
                            bid: Bid, ib: Ib)
    returns (block: seq<Byte>)
    ensures block == BlockImage(InternalBody(btype, cLevel, cEnt, lcbTotalOrPad, entries), bid, ib)
  {
    hide BlockImage;
    var bodyBytes := INTERNAL_HEADER_SIZE + |entries|;
    var buf := new Byte[RoundBlockSize(bodyBytes)](_ => 0);
    WriteInternalBody(buf, btype, cLevel, cEnt, lcbTotalOrPad, entries);
    Seal(buf, bodyBytes, bid, ib, InternalBody(btype, cLevel, cEnt, lcbTotalOrPad, entries));
    block := buf[..];
  }

  method WriteInternalBody(buf: array<Byte>, btype: Byte, cLevel: Byte, cEnt: UInt16, lcbTotalOrPad: UInt32,
                           entries: seq<Byte>)
    requires buf.Length >= INTERNAL_HEADER_SIZE + |entries| && Filled(buf[..], [])
    modifies buf
    ensures Filled(buf[..], InternalBody(btype, cLevel, cEnt, lcbTotalOrPad, entries))
  {
    FillNext(buf[..], [], [btype]);
    WriteU8(buf, 0, btype);
    FillNext(buf[..], [btype], [cLevel]);
    WriteU8(buf, 1, cLevel);
    assert [btype] + [cLevel] == [btype, cLevel];
    FillNext(buf[..], [btype, cLevel], Le16(cEnt));
    WriteU16(buf, 2, cEnt);
    FillNext(buf[..], [btype, cLevel] + Le16(cEnt), Le32(lcbTotalOrPad));
    WriteU32(buf, 4, lcbTotalOrPad);
    FillNext(buf[..], [btype, cLevel] + Le16(cEnt) + Le32(lcbTotalOrPad), entries);
    Copy(buf, 8, entries);
  }

  // ---- Lists of block ids: XBLOCK (level 1) and XXBLOCK (level 2) ----

  function BidEntries(bids: seq<Bid>): (es: seq<seq<Byte>>)
    ensures |es| == |bids| && forall i | 0 <= i < |bids| :: es[i] == Le64(bids[i])
  {
    seq(|bids|, i requires 0 <= i < |bids| => Le64(bids[i]))
  }

  function BidListBody(cLevel: Byte, children: seq<Bid>, lcbTotal: UInt32): seq<Byte> {
    InternalBody(0x01, cLevel, |children| % 0x1_0000, lcbTotal, Flatten(BidEntries(children)))
  }

  method BuildBidListBlock(cLevel: Byte, children: seq<Bid>, lcbTotal: UInt32, bid: Bid, ib: Ib)
    returns (block: seq<Byte>)
    ensures block == BlockImage(BidListBody(cLevel, children, lcbTotal), bid, ib)
  {
    hide BlockImage, Le64;
    var rgbid := new Byte[|children| * 8](_ => 0);
    assert BidEntries(children[..0]) == [];
    for i := 0 to |children|
      invariant rgbid[..i * 8] == Flatten(BidEntries(children[..i]))
    {
      WriteU64(rgbid, i * 8, children[i]);
      assert BidEntries(children[..i + 1]) == BidEntries(children[..i]) + [Le64(children[i])];
      FlattenSnoc(BidEntries(children[..i]), Le64(children[i]));
    }
    assert children[..|children|] == children && rgbid[..|children| * 8] == rgbid[..];
    block := BuildInternalBlock(0x01, cLevel, |children| % 0x1_0000, lcbTotal, rgbid[..], bid, ib);
  }

  // ---- Subnode lists: SLBLOCK ----

  datatype SlEntry = SlEntry(nid: Nid, bidData: Bid, bidSub: Bid)

  function SlEntryImage(e: SlEntry): (s: seq<Byte>)
    ensures |s| == 24
  {
    Le64(e.nid) + Le64(e.bidData) + Le64(e.bidSub)
  }

  function SlEntryImages(entries: seq<SlEntry>): (es: seq<seq<Byte>>)
    ensures |es| == |entries| && forall i | 0 <= i < |entries| :: es[i] == SlEntryImage(entries[i])
  {
    seq(|entries|, i requires 0 <= i < |entries| => SlEntryImage(entries[i]))
  }

  function SlBody(entries: seq<SlEntry>): seq<Byte> {
    InternalBody(0x02, 0, |entries| % 0x1_0000, 0, Flatten(SlEntryImages(entries)))
  }

  method BuildSlBlock(entries: seq<SlEntry>, bid: Bid, ib: Ib) returns (block: seq<Byte>)
    ensures block == BlockImage(SlBody(entries), bid, ib)
  {
    hide BlockImage, SlEntryImage;
    var rg := new Byte[|entries| * 24](_ => 0);
    assert SlEntryImages(entries[..0]) == [];
    for i := 0 to |entries|
      invariant rg[..i * 24] == Flatten(SlEntryImages(entries[..i]))
    {
      WriteSlEntry(rg, i * 24, entries[i]);
      assert SlEntryImages(entries[..i + 1]) == SlEntryImages(entries[..i]) + [SlEntryImage(entries[i])];
      FlattenSnoc(SlEntryImages(entries[..i]), SlEntryImage(entries[i]));
    }
    assert entries[..|entries|] == entries && rg[..|entries| * 24] == rg[..];
    block := BuildInternalBlock(0x02, 0, |entries| % 0x1_0000, 0, rg[..], bid, ib);
  }

  method WriteSlEntry(rg: array<Byte>, off: nat, e: SlEntry)
    requires off + 24 <= rg.Length
    modifies rg
    ensures rg[..off + 24] == old(rg[..off]) + SlEntryImage(e)
  {
    hide Patch, Le64;
    WriteU64(rg, off, e.nid);
    WriteU64(rg, off + 8, e.bidData);
    WriteU64(rg, off + 16, e.bidSub);
  }
}
