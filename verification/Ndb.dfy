/** Identifiers, geometry and the signature shared by pages and blocks (include/pstwriter/types.hpp, ndb.hpp). */
module Ndb {
  import opened ByteBits
  import opened Bytes

  type Bid = UInt64
  type Ib = UInt64
  type Nid = UInt32

  const PAGE_SIZE: nat := 512
  const MAX_BLOCK_PAYLOAD: nat := 8176
  const BLOCK_TRAILER_SIZE: nat := 16

  datatype Bref = Bref(bid: Bid, ib: Ib)

  /** Data blocks have the two low bits clear, internal blocks bit 1 set; the counter occupies the rest. */
  function MakeDataBid(index: UInt64): Bid {
    index % 0x4000_0000_0000_0000 * 4
  }

  function MakeInternalBid(index: UInt64): Bid {
    index % 0x4000_0000_0000_0000 * 4 + 2
  }

  predicate IsInternal(bid: Bid) {
    bid / 2 % 2 == 1
  }

  /** The two counters never issue the same id, and neither repeats one below 2^62. */
  lemma BidsAreDistinct(i: UInt64, j: UInt64)
    requires i < 0x4000_0000_0000_0000 && j < 0x4000_0000_0000_0000
    ensures MakeDataBid(i) != MakeInternalBid(j)
    ensures IsInternal(MakeInternalBid(j)) && !IsInternal(MakeDataBid(i))
    ensures MakeDataBid(i) == MakeDataBid(j) ==> i == j
    ensures MakeInternalBid(i) == MakeInternalBid(j) ==> i == j
    ensures MakeDataBid(i) == 4 * i && MakeInternalBid(j) == 4 * j + 2
  {
  }

  /** The low 32 bits of offset and id, exclusive-ored and folded to 16 bits. */
  function BlockSig(bid: Bid, ib: Ib): UInt16 {
    Pow2At32();
    Fold(Xor(ib, bid, 32))
  }

  /**
   Bit `k` of a signature is the exclusive or of bits `k` and `k + 16` of offset and id; higher ones do not matter.
   */
  ghost predicate SignedFor(wSig: UInt16, bid: Bid, ib: Ib) {
    forall k: nat | k < 16 :: Bit(wSig, k) == (Bit(ib, k) + Bit(ib, k + 16) + Bit(bid, k) + Bit(bid, k + 16)) % 2
  }

  lemma SignatureBits(bid: Bid, ib: Ib)
    ensures SignedFor(BlockSig(bid, ib), bid, ib)
  {
    hide Bit, Xor, Fold;
    Pow2At32();
    var mix := Xor(ib, bid, 32);
    forall k: nat | k < 16
      ensures Bit(Fold(mix), k) == (Bit(ib, k) + Bit(ib, k + 16) + Bit(bid, k) + Bit(bid, k + 16)) % 2
    {
      BitOfFold(mix, k);
      BitOfXor(ib, bid, 32, k);
      BitOfXor(ib, bid, 32, k + 16);
    }
  }
}
