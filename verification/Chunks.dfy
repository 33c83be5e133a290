/** Payloads of any size as trees of blocks: schedulePayload of src/mail.cpp (section 2.2.2.8.3.2 of [MS-PST]). */
module Chunks {
  import opened ByteBits
  import opened Bytes
  import opened Ndb
  import opened Sorting
  import opened Wrappers
  import Block

  const MAX_CHILDREN: nat := 1021
  const ID_LIMIT: nat := 0x4000_0000_0000_0000

  datatype DataBlock = DataBlock(bid: Bid, bytes: seq<Byte>)

  /** An XBLOCK (level 1, over data blocks) or XXBLOCK (level 2, over XBLOCKs). */
  datatype ListBlock = ListBlock(bid: Bid, cLevel: Byte, lcbTotal: UInt32, children: seq<Bid>)

  /** A subnode list block. */
  datatype SubnodeBlock = SubnodeBlock(bid: Bid, entries: seq<Block.SlEntry>)

  // ---- Cutting into runs ----

  /** Runs of `cap`, the last one shorter; a short sequence is one run. */
  function Runs<T>(s: seq<T>, cap: nat): (rs: seq<seq<T>>)
    requires cap > 0
    ensures |rs| >= 1
    ensures forall i | 0 <= i < |rs| :: |rs[i]| <= cap
  {
    if |s| <= cap then [s] else [s[..cap]] + Runs(s[cap..], cap)
  }

  function Pieces(body: seq<Byte>): (ps: seq<seq<Byte>>)
    ensures |ps| >= 1 && forall i | 0 <= i < |ps| :: |ps[i]| <= MAX_BLOCK_PAYLOAD
  {
    Runs(body, MAX_BLOCK_PAYLOAD)
  }

  lemma {:induction false} PiecesJoin(body: seq<Byte>)
    ensures Flatten(Pieces(body)) == body
  {
    if |body| <= MAX_BLOCK_PAYLOAD {
      FlattenOne(body);
    } else {
      PiecesJoin(body[MAX_BLOCK_PAYLOAD..]);
    }
  }

  /** How many runs there are. */
  lemma {:induction false} RunCount<T>(s: seq<T>, cap: nat)
    requires cap > 0
    ensures s != [] ==> (|Runs(s, cap)| - 1) * cap < |s| <= |Runs(s, cap)| * cap
  {
    if |s| <= cap {
    } else {
      RunCount(s[cap..], cap);
      var n := |Runs(s[cap..], cap)|;
      assert |Runs(s, cap)| == n + 1 && (n + 1) * cap == n * cap + cap && n * cap == (n - 1) * cap + cap;
    }
  }

  function RunStart(k: nat, cap: nat): nat {
    k * cap
  }

  lemma RunStartStep(k: nat, cap: nat)
    ensures RunStart(0, cap) == 0 && RunStart(k + 1, cap) == RunStart(k, cap) + cap
  {
  }

  /** The closed form of a run. */
  lemma {:induction false} RunAt<T>(s: seq<T>, cap: nat, k: nat)
    requires cap > 0 && k < |Runs(s, cap)|
    ensures RunStart(k, cap) <= |s|
    ensures var lo := RunStart(k, cap);
            var hi := if lo + cap < |s| then lo + cap else |s|;
            Runs(s, cap)[k] == s[lo..hi] && (k + 1 < |Runs(s, cap)| <==> lo + cap < |s|)
  {
    hide RunStart;
    RunStartStep(0, cap);
    if |s| > cap && k > 0 {
      var rest, lo := s[cap..], RunStart(k - 1, cap);
      RunAt(rest, cap, k - 1);
      RunStartStep(k - 1, cap);
      var hi := if lo + cap < |rest| then lo + cap else |rest|;
      SliceOfRest(s, cap, lo, hi);
    }
  }

  lemma SliceOfRest<T>(s: seq<T>, a: nat, lo: nat, hi: nat)
    requires a <= |s| && lo <= hi <= |s| - a
    ensures s[a..][lo..hi] == s[a + lo..a + hi]
  {
  }

  // ---- What one payload adds, as a function ----

  function DataBids(first: nat, count: nat): (bids: seq<Bid>)
    requires first + count < ID_LIMIT
    ensures |bids| == count && forall i | 0 <= i < count :: bids[i] == MakeDataBid(first + i)
  {
    seq<Bid>(count, i requires 0 <= i < count => MakeDataBid(first + i))
  }

  function DataBlocks(pieces: seq<seq<Byte>>, first: nat): (bs: seq<DataBlock>)
    requires first + |pieces| < ID_LIMIT
    ensures |bs| == |pieces| && forall i | 0 <= i < |pieces| :: bs[i] == DataBlock(MakeDataBid(first + i), pieces[i])
  {
    seq(|pieces|, i requires 0 <= i < |pieces| => DataBlock(MakeDataBid(first + i), pieces[i]))
  }

  function InternalBids(first: nat, count: nat): (bids: seq<Bid>)
    requires first + count < ID_LIMIT
    ensures |bids| == count && forall i | 0 <= i < count :: bids[i] == MakeInternalBid(first + i)
  {
    seq<Bid>(count, i requires 0 <= i < count => MakeInternalBid(first + i))
  }

  /** The XBLOCKs over groups of data blocks and of the pieces those hold. */
  function XBlocks(groups: seq<seq<Bid>>, held: seq<seq<seq<Byte>>>, first: nat): (xs: seq<ListBlock>)
    requires |groups| == |held| && first + |groups| < ID_LIMIT
    ensures |xs| == |groups|
    ensures forall i | 0 <= i < |xs| ::
              xs[i] == ListBlock(MakeInternalBid(first + i), 1, |Flatten(held[i])| % 0x1_0000_0000, groups[i])
  {
    seq(|groups|, i requires 0 <= i < |groups| =>
          ListBlock(MakeInternalBid(first + i), 1, |Flatten(held[i])| % 0x1_0000_0000, groups[i]))
  }

  lemma {:induction false} GroupsMatch<S, T>(a: seq<S>, b: seq<T>, cap: nat)
    requires cap > 0 && |a| == |b|
    ensures |Runs(a, cap)| == |Runs(b, cap)|
    ensures forall i | 0 <= i < |Runs(a, cap)| :: |Runs(a, cap)[i]| == |Runs(b, cap)[i]|
  {
    if |a| <= cap {
    } else {
      GroupsMatch(a[cap..], b[cap..], cap);
    }
  }

  function ListBlocks(pieces: seq<seq<Byte>>, total: nat, firstData: nat, first: nat): (xs: seq<ListBlock>)
    requires firstData + |pieces| < ID_LIMIT && first + |pieces| + 1 < ID_LIMIT
  {
    var bids := DataBids(firstData, |pieces|);
    if |pieces| <= MAX_CHILDREN then [ListBlock(MakeInternalBid(first), 1, total % 0x1_0000_0000, bids)]
    else
      var groups, held := Runs(bids, MAX_CHILDREN), Runs(pieces, MAX_CHILDREN);
      GroupsMatch(bids, pieces, MAX_CHILDREN);
      GroupCountSmall(pieces);
      XBlocks(groups, held, first)
      + [ListBlock(MakeInternalBid(first + |groups|), 2, total % 0x1_0000_0000, InternalBids(first, |groups|))]
  }

  lemma {:induction false} GroupCountSmall<T>(s: seq<T>)
    requires s != []
    ensures |Runs(s, MAX_CHILDREN)| <= |s|
  {
    if |s| <= MAX_CHILDREN {
    } else {
      GroupCountSmall(s[MAX_CHILDREN..]);
    }
  }

  /** The id under which a payload can be found again. */
  function PayloadBid(body: seq<Byte>, firstData: nat, first: nat): Bid
    requires firstData < ID_LIMIT && first + |Pieces(body)| + 1 < ID_LIMIT
  {
    if |body| <= MAX_BLOCK_PAYLOAD then MakeDataBid(firstData)
    else if |Pieces(body)| <= MAX_CHILDREN then MakeInternalBid(first)
    else
      GroupCountSmall(Pieces(body));
      MakeInternalBid(first + |Runs(Pieces(body), MAX_CHILDREN)|)
  }

  /** How many list blocks a payload takes. */
  function ListBlockCount(body: seq<Byte>): (n: nat)
    ensures n <= |Pieces(body)| + 1
  {
    if |body| <= MAX_BLOCK_PAYLOAD then 0
    else if |Pieces(body)| <= MAX_CHILDREN then 1
    else
      GroupCountSmall(Pieces(body));
      |Runs(Pieces(body), MAX_CHILDREN)| + 1
  }

  // ---- The scheduler ----

  ghost const SlKey: Block.SlEntry -> int := (e: Block.SlEntry) => e.nid

  class Scheduler {
    var nextDataBidIdx: nat
    var nextInternalBidIdx: nat
    var dataBlocks: seq<DataBlock>
    var xBlocks: seq<ListBlock>
    var slBlocks: seq<SubnodeBlock>

    /** Data blocks carry consecutive ids from 1; internal blocks distinct ascending ids below the shared counter. */
    ghost predicate Valid()
      reads this
    {
      && nextInternalBidIdx >= 1
      && DataInOrder(dataBlocks, nextDataBidIdx)
      && ListsInOrder(xBlocks, nextInternalBidIdx)
      && SubnodesInOrder(slBlocks, xBlocks, nextInternalBidIdx)
    }

    constructor ()
      ensures Valid() && dataBlocks == [] && xBlocks == [] && slBlocks == []
              && nextDataBidIdx == nextInternalBidIdx == 1
    {
      nextDataBidIdx, nextInternalBidIdx := 1, 1;
      dataBlocks, xBlocks, slBlocks := [], [], [];
    }

    method ScheduleDataBlock(body: seq<Byte>) returns (bid: Bid)
      requires Valid() && nextDataBidIdx + 1 < ID_LIMIT
      modifies this`nextDataBidIdx, this`dataBlocks
      ensures Valid() && nextDataBidIdx == old(nextDataBidIdx) + 1
      ensures bid == MakeDataBid(old(nextDataBidIdx)) && dataBlocks == old(dataBlocks) + [DataBlock(bid, body)]
    {
      bid := MakeDataBid(nextDataBidIdx);
      nextDataBidIdx := nextDataBidIdx + 1;
      dataBlocks := dataBlocks + [DataBlock(bid, body)];
    }

    method AllocInternalBid() returns (bid: Bid)
      requires Valid() && nextInternalBidIdx + 1 < ID_LIMIT
      modifies this`nextInternalBidIdx
      ensures Valid() && nextInternalBidIdx == old(nextInternalBidIdx) + 1
      ensures bid == MakeInternalBid(old(nextInternalBidIdx))
    {
      hide ListsInOrder, SubnodesInOrder;
      CounterGrows(xBlocks, slBlocks, nextInternalBidIdx);
      bid := MakeInternalBid(nextInternalBidIdx);
      nextInternalBidIdx := nextInternalBidIdx + 1;
    }

    method MakeBlock(cLevel: Byte, children: seq<Bid>, lcbTotal: UInt32) returns (bid: Bid)
      requires Valid() && nextInternalBidIdx + 1 < ID_LIMIT
      modifies this`nextInternalBidIdx, this`xBlocks
      ensures Valid() && nextInternalBidIdx == old(nextInternalBidIdx) + 1
      ensures bid == MakeInternalBid(old(nextInternalBidIdx))
      ensures xBlocks == old(xBlocks) + [ListBlock(bid, cLevel, lcbTotal, children)]
    {
      hide MakeInternalBid, ListsInOrder, SubnodesInOrder, IsInternal;
      bid := AllocInternalBid();
      ListsGrow(xBlocks, slBlocks, old(nextInternalBidIdx), ListBlock(bid, cLevel, lcbTotal, children));
      xBlocks := xBlocks + [ListBlock(bid, cLevel, lcbTotal, children)];
    }

    method ScheduleSlBlock(entries: seq<Block.SlEntry>) returns (bid: Bid)
      requires Valid() && nextInternalBidIdx + 1 < ID_LIMIT
      modifies this`nextInternalBidIdx, this`slBlocks
      ensures Valid() && nextInternalBidIdx == old(nextInternalBidIdx) + 1
      ensures bid == MakeInternalBid(old(nextInternalBidIdx))
              && slBlocks == old(slBlocks) + [SubnodeBlock(bid, entries)]
    {
      hide MakeInternalBid, ListsInOrder, SubnodesInOrder, IsInternal;
      bid := AllocInternalBid();
      SubnodesGrow(xBlocks, slBlocks, old(nextInternalBidIdx), SubnodeBlock(bid, entries));
      slBlocks := slBlocks + [SubnodeBlock(bid, entries)];
    }

    /** The subnode list of a node: its entries sorted by id, whatever order they were collected in. */
    method ScheduleSubnodes(entries: seq<Block.SlEntry>) returns (bid: Bid, ghost order: seq<Block.SlEntry>)
      requires Valid() && nextInternalBidIdx + 1 < ID_LIMIT
      modifies this`nextInternalBidIdx, this`slBlocks
      ensures Valid() && nextInternalBidIdx == old(nextInternalBidIdx) + 1
      ensures |order| == |entries| && multiset(order) == multiset(entries) && Ascending(order, SlKey)
      ensures bid == MakeInternalBid(old(nextInternalBidIdx)) && slBlocks == old(slBlocks) + [SubnodeBlock(bid, order)]
    {
      hide MakeInternalBid;
      var sorted := Sort(entries, (e: Block.SlEntry) => e.nid);
      order := sorted;
      assert Ascending(order, SlKey);
      bid := ScheduleSlBlock(sorted);
    }

    /** Cuts the payload, schedules the pieces and, when there are several, the list blocks over them. */
    method SchedulePayload(body: seq<Byte>) returns (bid: Bid)
      requires Valid()
      // The 62-bit counters never run out in practice.
      requires nextDataBidIdx + |Pieces(body)| < ID_LIMIT && nextInternalBidIdx + |Pieces(body)| + 1 < ID_LIMIT
      modifies this
      ensures Valid() && slBlocks == old(slBlocks)
      ensures dataBlocks == old(dataBlocks) + DataBlocks(Pieces(body), old(nextDataBidIdx))
      ensures xBlocks == old(xBlocks) + if |body| <= MAX_BLOCK_PAYLOAD then []
                                        else ListBlocks(Pieces(body), |body|, old(nextDataBidIdx),
                                                        old(nextInternalBidIdx))
      ensures bid == PayloadBid(body, old(nextDataBidIdx), old(nextInternalBidIdx))
      ensures nextDataBidIdx == old(nextDataBidIdx) + |Pieces(body)|
      ensures nextInternalBidIdx
              == old(nextInternalBidIdx) + ListBlockCount(body) <= old(nextInternalBidIdx) + |Pieces(body)| + 1
      ensures PayloadShape(body, old(nextDataBidIdx), old(nextInternalBidIdx), dataBlocks[|old(dataBlocks)|..],
                           xBlocks[|old(xBlocks)|..], bid)
    {
      hide MakeDataBid, MakeInternalBid, Valid, PayloadShape;
      PayloadIsShaped(body, nextDataBidIdx, nextInternalBidIdx);
      if |body| <= MAX_BLOCK_PAYLOAD {
        bid := ScheduleDataBlock(body);
        assert DataBlocks(Pieces(body), old(nextDataBidIdx)) == [DataBlock(bid, body)];
        assert xBlocks == old(xBlocks) + [];
        return;
      }
      var chunkBids, chunkSizes := ScheduleChunks(body);
      if |chunkBids| <= MAX_CHILDREN {
        bid := MakeBlock(1, chunkBids, |body| % 0x1_0000_0000);
        return;
      }
      bid := ScheduleTwoLevels(body, chunkBids, chunkSizes, old(nextDataBidIdx));
    }

    /** More than one XBLOCK: all of them, then the XXBLOCK over them. */
    method ScheduleTwoLevels(body: seq<Byte>, chunkBids: seq<Bid>, chunkSizes: seq<nat>, ghost firstData: nat)
      returns (bid: Bid)
      requires Valid() && |body| > MAX_BLOCK_PAYLOAD && |Pieces(body)| > MAX_CHILDREN
      requires firstData + |Pieces(body)| < ID_LIMIT && nextInternalBidIdx + |Pieces(body)| + 1 < ID_LIMIT
      requires chunkBids == DataBids(firstData, |Pieces(body)|)
      requires |chunkSizes| == |Pieces(body)| && forall i | 0 <= i < |chunkSizes| :: chunkSizes[i] == |Pieces(body)[i]|
      modifies this`nextInternalBidIdx, this`xBlocks
      ensures Valid() && nextInternalBidIdx == old(nextInternalBidIdx) + ListBlockCount(body)
      ensures xBlocks == old(xBlocks) + ListBlocks(Pieces(body), |body|, firstData, old(nextInternalBidIdx))
      ensures bid == PayloadBid(body, firstData, old(nextInternalBidIdx))
    {
      hide MakeDataBid, MakeInternalBid, Valid, Runs, Pieces, XBlocks, InternalBids;
      var xblockBids := ScheduleXBlocks(chunkBids, chunkSizes, Pieces(body));
      GroupsMatch(chunkBids, Pieces(body), MAX_CHILDREN);
      bid := MakeBlock(2, xblockBids, |body| % 0x1_0000_0000);
    }

    /** Step 1: one data block per piece. */
    method ScheduleChunks(body: seq<Byte>) returns (chunkBids: seq<Bid>, chunkSizes: seq<nat>)
      requires Valid() && |body| > MAX_BLOCK_PAYLOAD && nextDataBidIdx + |Pieces(body)| < ID_LIMIT
      modifies this`nextDataBidIdx, this`dataBlocks
      ensures Valid() && nextDataBidIdx == old(nextDataBidIdx) + |Pieces(body)|
      ensures dataBlocks == old(dataBlocks) + DataBlocks(Pieces(body), old(nextDataBidIdx))
      ensures chunkBids == DataBids(old(nextDataBidIdx), |Pieces(body)|)
      ensures |chunkSizes| == |Pieces(body)| && forall i | 0 <= i < |chunkSizes| :: chunkSizes[i] == |Pieces(body)[i]|
    {
      hide MakeDataBid, Valid, Runs;
      var total := |body|;
      chunkBids, chunkSizes := [], [];
      var off := 0;
      ghost var pieces, n, k := Pieces(body), nextDataBidIdx, 0;
      while off < total
        invariant 0 <= k <= |pieces| && Valid() && nextDataBidIdx == n + k
        invariant if off < total then k < |pieces| && off == k * MAX_BLOCK_PAYLOAD else off == total && k == |pieces|
        invariant dataBlocks == old(dataBlocks) + DataBlocks(pieces[..k], n)
        invariant chunkBids == DataBids(n, k)
        invariant |chunkSizes| == k && forall i | 0 <= i < k :: chunkSizes[i] == |pieces[i]|
      {
        RunAt(body, MAX_BLOCK_PAYLOAD, k);
        var cz := if total - off > MAX_BLOCK_PAYLOAD then MAX_BLOCK_PAYLOAD else total - off;
        var bid := ScheduleDataBlock(body[off..off + cz]);
        NextDataBlock(pieces, n, k);
        chunkBids, chunkSizes := chunkBids + [bid], chunkSizes + [cz];
        off, k := off + cz, k + 1;
      }
      assert pieces[..|pieces|] == pieces;
    }

    method AddXBlock(children: seq<Bid>, lcb: UInt32, bids: seq<Bid>, ghost before: seq<ListBlock>,
                     ghost groups: seq<seq<Bid>>, ghost held: seq<seq<seq<Byte>>>, ghost n: nat, ghost k: nat)
      returns (bids': seq<Bid>)
      requires Valid() && nextInternalBidIdx == n + k && n + k + 1 < ID_LIMIT
      requires |groups| == |held| && n + |groups| < ID_LIMIT && k < |groups|
               && XsAdded(before, xBlocks, bids, groups, held, n, k)
      requires children == groups[k] && lcb == |Flatten(held[k])| % 0x1_0000_0000
      modifies this`nextInternalBidIdx, this`xBlocks
      ensures Valid() && nextInternalBidIdx == n + k + 1 && XsAdded(before, xBlocks, bids', groups, held, n, k + 1)
    {
      hide MakeInternalBid, Valid, Flatten, XsAdded;
      XsStep(before, xBlocks, bids, groups, held, n, k);
      var bid := MakeBlock(1, children, lcb);
      bids' := bids + [bid];
    }

    /** Step 2: one XBLOCK per run of children. */
    method ScheduleXBlocks(chunkBids: seq<Bid>, chunkSizes: seq<nat>, ghost pieces: seq<seq<Byte>>)
      returns (xblockBids: seq<Bid>)
      requires Valid() && |chunkBids| == |chunkSizes| == |pieces| > 0 && nextInternalBidIdx + |pieces| + 1 < ID_LIMIT
      requires forall i | 0 <= i < |pieces| :: chunkSizes[i] == |pieces[i]|
      modifies this`nextInternalBidIdx, this`xBlocks
      ensures Valid() && |Runs(pieces, MAX_CHILDREN)| == |Runs(chunkBids, MAX_CHILDREN)| <= |pieces|
      ensures nextInternalBidIdx == old(nextInternalBidIdx) + |Runs(pieces, MAX_CHILDREN)|
      ensures xblockBids == InternalBids(old(nextInternalBidIdx), |Runs(pieces, MAX_CHILDREN)|)
      ensures xBlocks == old(xBlocks)
              + XBlocks(Runs(chunkBids, MAX_CHILDREN), Runs(pieces, MAX_CHILDREN), old(nextInternalBidIdx))
    {
      GroupsMatch(chunkBids, pieces, MAX_CHILDREN);
      GroupCountSmall(pieces);
      hide MakeInternalBid, Valid, Runs, XBlocks, InternalBids, Flatten, XsAdded;
      ghost var groups, held := Runs(chunkBids, MAX_CHILDREN), Runs(pieces, MAX_CHILDREN);
      ghost var n, k := nextInternalBidIdx, 0;
      NoXsAdded(xBlocks, groups, held, n);
      xblockBids := [];
      var xbOff := 0;
      while xbOff < |chunkBids|
        invariant 0 <= k <= |groups| && Valid() && nextInternalBidIdx == n + k
        invariant if xbOff < |chunkBids| then k < |groups| && xbOff == k * MAX_CHILDREN
                  else xbOff == |chunkBids| && k == |groups|
        invariant XsAdded(old(xBlocks), xBlocks, xblockBids, groups, held, n, k)
      {
        RunAt(chunkBids, MAX_CHILDREN, k);
        RunAt(pieces, MAX_CHILDREN, k);
        var take := if |chunkBids| - xbOff > MAX_CHILDREN then MAX_CHILDREN else |chunkBids| - xbOff;
        var lcb, children := SumChildren(chunkBids, chunkSizes, xbOff, take, pieces);
        xblockBids := AddXBlock(children, lcb, xblockBids, old(xBlocks), groups, held, n, k);
        xbOff, k := xbOff + take, k + 1;
      }
      AllXsAdded(old(xBlocks), xBlocks, xblockBids, groups, held, n);
    }
  }

  /** The first `k` XBLOCKs are scheduled. */
  ghost predicate XsAdded(before: seq<ListBlock>, now: seq<ListBlock>, bids: seq<Bid>,
                          groups: seq<seq<Bid>>, held: seq<seq<seq<Byte>>>, n: nat, k: nat)
    requires |groups| == |held| && n + |groups| < ID_LIMIT && k <= |groups|
  {
    now == before + XBlocks(groups[..k], held[..k], n) && bids == InternalBids(n, k)
  }

  lemma NoXsAdded(before: seq<ListBlock>, groups: seq<seq<Bid>>, held: seq<seq<seq<Byte>>>, n: nat)
    requires |groups| == |held| && n + |groups| < ID_LIMIT
    ensures XsAdded(before, before, [], groups, held, n, 0)
  {
    assert XBlocks(groups[..0], held[..0], n) == [];
  }

  lemma XsStep(before: seq<ListBlock>, now: seq<ListBlock>, bids: seq<Bid>,
               groups: seq<seq<Bid>>, held: seq<seq<seq<Byte>>>, n: nat, k: nat)
    requires |groups| == |held| && n + |groups| < ID_LIMIT && k < |groups|
             && XsAdded(before, now, bids, groups, held, n, k)
    ensures var x := ListBlock(MakeInternalBid(n + k), 1, |Flatten(held[k])| % 0x1_0000_0000, groups[k]);
            XsAdded(before, now + [x], bids + [x.bid], groups, held, n, k + 1)
  {
    hide MakeInternalBid, Flatten;
    NextXBlock(groups, held, n, k);
  }

  lemma AllXsAdded(before: seq<ListBlock>, now: seq<ListBlock>, bids: seq<Bid>,
                   groups: seq<seq<Bid>>, held: seq<seq<seq<Byte>>>, n: nat)
    requires |groups| == |held| && n + |groups| < ID_LIMIT && XsAdded(before, now, bids, groups, held, n, |groups|)
    ensures now == before + XBlocks(groups, held, n) && bids == InternalBids(n, |groups|)
  {
    assert groups[..|groups|] == groups && held[..|held|] == held;
  }

  lemma NextDataBlock(pieces: seq<seq<Byte>>, n: nat, k: nat)
    requires k < |pieces| && n + |pieces| < ID_LIMIT
    ensures DataBlocks(pieces[..k + 1], n) == DataBlocks(pieces[..k], n) + [DataBlock(MakeDataBid(n + k), pieces[k])]
    ensures DataBids(n, k + 1) == DataBids(n, k) + [MakeDataBid(n + k)]
  {
    hide MakeDataBid;
  }

  lemma NextXBlock(groups: seq<seq<Bid>>, held: seq<seq<seq<Byte>>>, n: nat, k: nat)
    requires k < |groups| == |held| && n + |groups| < ID_LIMIT
    ensures XBlocks(groups[..k + 1], held[..k + 1], n)
            == XBlocks(groups[..k], held[..k], n)
               + [ListBlock(MakeInternalBid(n + k), 1, |Flatten(held[k])| % 0x1_0000_0000, groups[k])]
    ensures InternalBids(n, k + 1) == InternalBids(n, k) + [MakeInternalBid(n + k)]
  {
    hide MakeInternalBid;
  }

  lemma NoneBelow(pieces: seq<seq<Byte>>, at: nat)
    requires at <= |pieces|
    ensures Flatten(pieces[at..at + 0]) == []
  {
    assert pieces[at..at + 0] == [];
  }

  lemma AddWraps(a: nat, b: nat)
    ensures (a % 0x1_0000_0000 + b) % 0x1_0000_0000 == (a + b) % 0x1_0000_0000
  {
  }

  method SumChildren(chunkBids: seq<Bid>, chunkSizes: seq<nat>, xbOff: nat, take: nat, ghost pieces: seq<seq<Byte>>)
    returns (lcb: UInt32, children: seq<Bid>)
    requires |chunkBids| == |chunkSizes| == |pieces| && xbOff + take <= |chunkBids|
    requires forall i | 0 <= i < |pieces| :: chunkSizes[i] == |pieces[i]|
    ensures children == chunkBids[xbOff..xbOff + take]
    ensures lcb == |Flatten(pieces[xbOff..xbOff + take])| % 0x1_0000_0000
  {
    hide Flatten;
    lcb, children := 0, [];
    NoneBelow(pieces, xbOff);
    for i := 0 to take
      invariant children == chunkBids[xbOff..xbOff + i]
      invariant lcb == |Flatten(pieces[xbOff..xbOff + i])| % 0x1_0000_0000
    {
      assert pieces[xbOff..xbOff + (i + 1)] == pieces[xbOff..xbOff + i] + [pieces[xbOff + i]];
      FlattenSnoc(pieces[xbOff..xbOff + i], pieces[xbOff + i]);
      assert chunkBids[xbOff..xbOff + (i + 1)] == chunkBids[xbOff..xbOff + i] + [chunkBids[xbOff + i]];
      AddWraps(|Flatten(pieces[xbOff..xbOff + i])|, chunkSizes[xbOff + i]);
      children := children + [chunkBids[xbOff + i]];
      lcb := (lcb + chunkSizes[xbOff + i]) % 0x1_0000_0000;
    }
  }

  ghost predicate DataInOrder(data: seq<DataBlock>, next: nat) {
    |data| + 1 == next <= ID_LIMIT && forall i | 0 <= i < |data| :: data[i].bid == MakeDataBid(i + 1)
  }

  lemma NextInternalBid(next: nat)
    requires next < ID_LIMIT
    ensures IsInternal(MakeInternalBid(next)) && 4 * next <= MakeInternalBid(next) < 4 * (next + 1)
  {
  }

  lemma ListsGrow(xs: seq<ListBlock>, sls: seq<SubnodeBlock>, next: nat, x: ListBlock)
    requires ListsInOrder(xs, next) && SubnodesInOrder(sls, xs, next)
    requires 1 <= next && next + 1 < ID_LIMIT && x.bid == MakeInternalBid(next)
    ensures ListsInOrder(xs + [x], next + 1) && SubnodesInOrder(sls, xs + [x], next + 1)
  {
    hide MakeInternalBid, IsInternal;
    NextInternalBid(next);
  }

  lemma SubnodesGrow(xs: seq<ListBlock>, sls: seq<SubnodeBlock>, next: nat, x: SubnodeBlock)
    requires ListsInOrder(xs, next) && SubnodesInOrder(sls, xs, next)
    requires 1 <= next && next + 1 < ID_LIMIT && x.bid == MakeInternalBid(next)
    ensures ListsInOrder(xs, next + 1) && SubnodesInOrder(sls + [x], xs, next + 1)
  {
    hide MakeInternalBid, IsInternal;
    NextInternalBid(next);
  }

  lemma CounterGrows(xs: seq<ListBlock>, sls: seq<SubnodeBlock>, next: nat)
    requires ListsInOrder(xs, next) && SubnodesInOrder(sls, xs, next) && next + 1 < ID_LIMIT
    ensures ListsInOrder(xs, next + 1) && SubnodesInOrder(sls, xs, next + 1)
  {
  }

  ghost predicate SubnodesInOrder(sls: seq<SubnodeBlock>, xs: seq<ListBlock>, next: nat) {
    && (forall i | 0 <= i < |sls| :: IsInternal(sls[i].bid) && sls[i].bid < 4 * next)
    && (forall i, j | 0 <= i < j < |sls| :: sls[i].bid < sls[j].bid)
    && (forall i, j | 0 <= i < |sls| && 0 <= j < |xs| :: sls[i].bid != xs[j].bid)
  }

  ghost predicate ListsInOrder(xs: seq<ListBlock>, next: nat) {
    && next <= ID_LIMIT
    && (forall i | 0 <= i < |xs| :: IsInternal(xs[i].bid) && xs[i].bid < 4 * next)
    && (forall i, j | 0 <= i < j < |xs| :: xs[i].bid < xs[j].bid)
  }

  /** All block ids a scheduler has given out are distinct. */
  lemma IdsAreDistinct(data: seq<DataBlock>, nextData: nat, xs: seq<ListBlock>, sls: seq<SubnodeBlock>, next: nat,
                       i: nat, j: nat)
    requires DataInOrder(data, nextData) && ListsInOrder(xs, next) && SubnodesInOrder(sls, xs, next)
    requires i < j < |BlockIds(data, xs, sls)|
    ensures BlockIds(data, xs, sls)[i] != BlockIds(data, xs, sls)[j]
  {
    var d, x := |data|, |xs|;
    if i < d {
      assert BlockIds(data, xs, sls)[i] == data[i].bid == MakeDataBid(i + 1);
    } else if i < d + x {
      assert BlockIds(data, xs, sls)[i] == xs[i - d].bid;
    }
  }

  function BlockIds(data: seq<DataBlock>, xs: seq<ListBlock>, sls: seq<SubnodeBlock>): (ids: seq<Bid>)
    ensures |ids| == |data| + |xs| + |sls|
    ensures forall i | 0 <= i < |data| :: ids[i] == data[i].bid
    ensures forall i | 0 <= i < |xs| :: ids[|data| + i] == xs[i].bid
    ensures forall i | 0 <= i < |sls| :: ids[|data| + |xs| + i] == sls[i].bid
  {
    seq<Bid>(|data|, i requires 0 <= i < |data| => data[i].bid)
    + seq<Bid>(|xs|, i requires 0 <= i < |xs| => xs[i].bid)
    + seq<Bid>(|sls|, i requires 0 <= i < |sls| => sls[i].bid)
  }

  // ---- Finding a payload again ----

  function FindData(data: seq<DataBlock>, bid: Bid): Option<seq<Byte>> {
    if data == [] then None
    else if data[0].bid == bid then Some(data[0].bytes)
    else FindData(data[1..], bid)
  }

  function FindList(xs: seq<ListBlock>, bid: Bid): Option<ListBlock> {
    if xs == [] then None
    else if xs[0].bid == bid then Some(xs[0])
    else FindList(xs[1..], bid)
  }

  /** The bytes below an XBLOCK. */
  function JoinData(data: seq<DataBlock>, children: seq<Bid>): Option<seq<Byte>> {
    if children == [] then Some([])
    else
      match (FindData(data, children[0]), JoinData(data, children[1..]))
      case (Some(here), Some(rest)) => Some(here + rest)
      case _ => None
  }

  function ReadXBlock(data: seq<DataBlock>, xs: seq<ListBlock>, bid: Bid): Option<seq<Byte>> {
    match FindList(xs, bid)
    case Some(x) => if x.cLevel == 1 then JoinData(data, x.children) else None
    case None => None
  }

  /** The bytes below an XXBLOCK. */
  function JoinLists(data: seq<DataBlock>, xs: seq<ListBlock>, children: seq<Bid>): Option<seq<Byte>> {
    if children == [] then Some([])
    else
      match (ReadXBlock(data, xs, children[0]), JoinLists(data, xs, children[1..]))
      case (Some(here), Some(rest)) => Some(here + rest)
      case _ => None
  }

  /** What a reader collects below any block id. */
  function Reassemble(data: seq<DataBlock>, xs: seq<ListBlock>, bid: Bid): Option<seq<Byte>> {
    if !IsInternal(bid) then FindData(data, bid)
    else
      match FindList(xs, bid)
      case None => None
      case Some(x) => if x.cLevel == 1 then JoinData(data, x.children) else JoinLists(data, xs, x.children)
  }

  lemma {:induction false} DataFound(data: seq<DataBlock>, i: nat)
    requires i < |data| && forall j, k | 0 <= j < k < |data| :: data[j].bid != data[k].bid
    ensures FindData(data, data[i].bid) == Some(data[i].bytes)
  {
    if i == 0 {
    } else {
      assert data[0].bid != data[i].bid;
      DataFound(data[1..], i - 1);
    }
  }

  lemma {:induction false} ListFound(xs: seq<ListBlock>, i: nat)
    requires i < |xs| && forall j, k | 0 <= j < k < |xs| :: xs[j].bid < xs[k].bid
    ensures FindList(xs, xs[i].bid) == Some(xs[i])
  {
    if i == 0 {
    } else {
      assert xs[0].bid < xs[i].bid;
      ListFound(xs[1..], i - 1);
    }
  }

  lemma DataIdsDiffer(data: seq<DataBlock>, next: nat)
    requires DataInOrder(data, next)
    ensures forall j, k | 0 <= j < k < |data| :: data[j].bid != data[k].bid
  {
  }

  /** `pieces` are the contents of the data blocks numbered from `first`. */
  ghost predicate Holding(data: seq<DataBlock>, pieces: seq<seq<Byte>>, first: nat) {
    && 1 <= first && first + |pieces| <= |data| + 1
    && forall i | 0 <= i < |pieces| :: data[first - 1 + i].bytes == pieces[i]
  }

  /** Consecutive data blocks join to their pieces. */
  lemma {:induction false} PiecesFound(data: seq<DataBlock>, next: nat, pieces: seq<seq<Byte>>, first: nat,
                                       bids: seq<Bid>)
    requires DataInOrder(data, next) && Holding(data, pieces, first) && |bids| == |pieces|
    requires forall i | 0 <= i < |bids| :: first + i < ID_LIMIT && bids[i] == MakeDataBid(first + i)
    ensures JoinData(data, bids) == Some(Flatten(pieces))
    decreases |pieces|
  {
    hide MakeDataBid;
    if pieces == [] {
    } else {
      DataIdsDiffer(data, next);
      DataFound(data, first - 1);
      assert data[first - 1].bid == MakeDataBid(first);
      PiecesFound(data, next, pieces[1..], first + 1, bids[1..]);
    }
  }

  /** A prefix of the lists a reader sees: everything scheduled up to some moment, before anything scheduled later. */
  ghost predicate SeesPayload(data: seq<DataBlock>, xs: seq<ListBlock>, body: seq<Byte>, dataBefore: seq<DataBlock>,
                              xsBefore: seq<ListBlock>, firstData: nat, first: nat)
    requires firstData + |Pieces(body)| < ID_LIMIT && first + |Pieces(body)| + 1 < ID_LIMIT
  {
    && dataBefore + DataBlocks(Pieces(body), firstData) <= data
    && xsBefore + (if |body| <= MAX_BLOCK_PAYLOAD then [] else ListBlocks(Pieces(body), |body|, firstData, first)) <= xs
  }

  lemma {:induction false} GroupsFound(data: seq<DataBlock>, nextData: nat, xs: seq<ListBlock>, next: nat,
                                       groups: seq<seq<Bid>>, held: seq<seq<seq<Byte>>>, at: nat, first: nat,
                                       children: seq<Bid>)
    requires ListsInOrder(xs, next) && |groups| == |held| == |children| && first + |groups| < ID_LIMIT
    requires at + |groups| <= |xs|
    requires forall i | 0 <= i < |groups| ::
               && xs[at + i] == ListBlock(MakeInternalBid(first + i), 1, |Flatten(held[i])| % 0x1_0000_0000, groups[i])
               && children[i] == MakeInternalBid(first + i)
               && JoinData(data, groups[i]) == Some(Flatten(held[i]))
    ensures JoinLists(data, xs, children) == Some(FlattenAll(held))
    decreases |groups|
  {
    hide MakeInternalBid, JoinData, Flatten;
    if groups == [] {
    } else {
      ListFound(xs, at);
      assert xs[at].bid == children[0];
      GroupsFound(data, nextData, xs, next, groups[1..], held[1..], at + 1, first + 1, children[1..]);
    }
  }

  function FlattenAll(held: seq<seq<seq<Byte>>>): seq<Byte> {
    if held == [] then [] else Flatten(held[0]) + FlattenAll(held[1..])
  }

  lemma {:induction false} RunsJoin(pieces: seq<seq<Byte>>)
    ensures FlattenAll(Runs(pieces, MAX_CHILDREN)) == Flatten(pieces)
  {
    if |pieces| <= MAX_CHILDREN {
    } else {
      RunsJoin(pieces[MAX_CHILDREN..]);
      FlattenAppend(pieces[..MAX_CHILDREN], pieces[MAX_CHILDREN..]);
      assert pieces == pieces[..MAX_CHILDREN] + pieces[MAX_CHILDREN..];
    }
  }

  /** Following the id of a scheduled payload gives its bytes, now and after anything is scheduled later. */
  lemma PayloadReassembles(data: seq<DataBlock>, nextData: nat, xs: seq<ListBlock>, next: nat, body: seq<Byte>,
                           dataBefore: seq<DataBlock>, xsBefore: seq<ListBlock>, firstData: nat, first: nat)
    requires DataInOrder(data, nextData) && ListsInOrder(xs, next)
    requires firstData == |dataBefore| + 1 && firstData + |Pieces(body)| < ID_LIMIT
             && first + |Pieces(body)| + 1 < ID_LIMIT
    requires SeesPayload(data, xs, body, dataBefore, xsBefore, firstData, first)
    ensures Reassemble(data, xs, PayloadBid(body, firstData, first)) == Some(body)
  {
    var pieces := Pieces(body);
    DataHeld(data, body, dataBefore, firstData);
    PiecesJoin(body);
    DataIdsDiffer(data, nextData);
    if |body| <= MAX_BLOCK_PAYLOAD {
      DataFound(data, firstData - 1);
      assert data[firstData - 1].bytes == pieces[0] == body;
    } else if |pieces| <= MAX_CHILDREN {
      PiecesFound(data, nextData, pieces, firstData, DataBids(firstData, |pieces|));
      ListFound(xs, |xsBefore|);
      assert xs[|xsBefore|] == ListBlocks(pieces, |body|, firstData, first)[0];
    } else {
      TwoLevelsFound(data, nextData, xs, next, body, xsBefore, firstData, first);
    }
  }

  lemma DataHeld(data: seq<DataBlock>, body: seq<Byte>, dataBefore: seq<DataBlock>, firstData: nat)
    requires firstData == |dataBefore| + 1 && firstData + |Pieces(body)| < ID_LIMIT
    requires dataBefore + DataBlocks(Pieces(body), firstData) <= data
    ensures Holding(data, Pieces(body), firstData)
  {
    hide Runs, MakeDataBid;
    var all, pieces := dataBefore + DataBlocks(Pieces(body), firstData), Pieces(body);
    forall i | 0 <= i < |pieces| ensures data[firstData - 1 + i].bytes == pieces[i] {
      assert data[firstData - 1 + i] == all[firstData - 1 + i] == DataBlocks(pieces, firstData)[i];
    }
  }

  lemma TwoLevelsFound(data: seq<DataBlock>, nextData: nat, xs: seq<ListBlock>, next: nat, body: seq<Byte>,
                       xsBefore: seq<ListBlock>, firstData: nat, first: nat)
    requires DataInOrder(data, nextData) && ListsInOrder(xs, next)
    requires 1 <= firstData && firstData + |Pieces(body)| < ID_LIMIT && first + |Pieces(body)| + 1 < ID_LIMIT
    requires |Pieces(body)| > MAX_CHILDREN && |body| > MAX_BLOCK_PAYLOAD && Holding(data, Pieces(body), firstData)
    requires xsBefore + ListBlocks(Pieces(body), |body|, firstData, first) <= xs
    ensures Reassemble(data, xs, PayloadBid(body, firstData, first)) == Some(body)
  {
    hide Runs, MakeDataBid, MakeInternalBid, Holding, DataInOrder, ListsInOrder, JoinLists, FindList, FindData,
         Reassemble, Flatten, IsInternal, XBlocks;
    var pieces := Pieces(body);
    var bids, held := DataBids(firstData, |pieces|), Runs(pieces, MAX_CHILDREN);
    var groups := Runs(bids, MAX_CHILDREN);
    GroupsMatch(bids, pieces, MAX_CHILDREN);
    GroupCountSmall(pieces);
    SuffixAt(xsBefore, ListBlocks(pieces, |body|, firstData, first), xs);
    GroupsJoin(data, nextData, xs, next, pieces, firstData, first, |xsBefore|);
    PiecesJoin(body);
    TopFound(data, xs, next, |xsBefore| + |groups|,
             ListBlock(MakeInternalBid(first + |groups|), 2, |body| % 0x1_0000_0000, InternalBids(first, |groups|)));
  }

  /** The XBLOCKs over a run of pieces, found one after the other. */
  lemma GroupsJoin(data: seq<DataBlock>, nextData: nat, xs: seq<ListBlock>, next: nat, pieces: seq<seq<Byte>>,
                   firstData: nat, first: nat, at: nat)
    requires DataInOrder(data, nextData) && ListsInOrder(xs, next) && Holding(data, pieces, firstData) && pieces != []
    requires firstData + |pieces| < ID_LIMIT && first + |pieces| + 1 < ID_LIMIT
    requires var groups, held := Runs(DataBids(firstData, |pieces|), MAX_CHILDREN), Runs(pieces, MAX_CHILDREN);
             && |groups| == |held| <= |pieces| && at + |groups| <= |xs|
             && forall i | 0 <= i < |groups| :: xs[at + i] == XBlocks(groups, held, first)[i]
    ensures JoinLists(data, xs, InternalBids(first, |Runs(pieces, MAX_CHILDREN)|)) == Some(Flatten(pieces))
  {
    hide Runs, MakeDataBid, MakeInternalBid, Holding, DataInOrder, ListsInOrder, JoinData, JoinLists, Flatten;
    var groups, held := Runs(DataBids(firstData, |pieces|), MAX_CHILDREN), Runs(pieces, MAX_CHILDREN);
    forall i | 0 <= i < |groups|
      ensures JoinData(data, groups[i]) == Some(Flatten(held[i]))
      ensures xs[at + i] == ListBlock(MakeInternalBid(first + i), 1, |Flatten(held[i])| % 0x1_0000_0000, groups[i])
    {
      GroupFound(data, nextData, pieces, firstData, i);
      assert xs[at + i] == XBlocks(groups, held, first)[i];
    }
    GroupsFound(data, nextData, xs, next, groups, held, at, first, InternalBids(first, |groups|));
    RunsJoin(pieces);
  }

  lemma SuffixAt(before: seq<ListBlock>, added: seq<ListBlock>, xs: seq<ListBlock>)
    requires before + added <= xs
    ensures |before| + |added| <= |xs| && forall i | 0 <= i < |added| :: xs[|before| + i] == added[i]
  {
    assert forall i | 0 <= i < |added| :: (before + added)[|before| + i] == added[i];
  }

  lemma TopFound(data: seq<DataBlock>, xs: seq<ListBlock>, next: nat, top: nat, x: ListBlock)
    requires ListsInOrder(xs, next) && top < |xs| && xs[top] == x && x.cLevel == 2
    ensures Reassemble(data, xs, x.bid) == JoinLists(data, xs, x.children)
  {
    hide JoinLists, FindList, FindData;
    ListFound(xs, top);
  }

  /** One run of data ids joins to the run of pieces. */
  lemma GroupFound(data: seq<DataBlock>, nextData: nat, pieces: seq<seq<Byte>>, firstData: nat, i: nat)
    requires DataInOrder(data, nextData) && Holding(data, pieces, firstData) && firstData + |pieces| < ID_LIMIT
    requires |Runs(DataBids(firstData, |pieces|), MAX_CHILDREN)| == |Runs(pieces, MAX_CHILDREN)|
             && i < |Runs(pieces, MAX_CHILDREN)|
    ensures JoinData(data, Runs(DataBids(firstData, |pieces|), MAX_CHILDREN)[i])
            == Some(Flatten(Runs(pieces, MAX_CHILDREN)[i]))
  {
    hide Runs, MakeDataBid, DataInOrder, JoinData;
    var bids := DataBids(firstData, |pieces|);
    RunAt(bids, MAX_CHILDREN, i);
    RunAt(pieces, MAX_CHILDREN, i);
    var lo := i * MAX_CHILDREN;
    var hi := if lo + MAX_CHILDREN < |pieces| then lo + MAX_CHILDREN else |pieces|;
    forall j | 0 <= j < hi - lo ensures data[firstData + lo - 1 + j].bytes == pieces[lo..hi][j] {
      assert data[firstData - 1 + (lo + j)].bytes == pieces[lo + j];
    }
    PiecesFound(data, nextData, pieces[lo..hi], firstData + lo, bids[lo..hi]);
  }

  // ---- Sizes ----

  /** Below 2^32 bytes every total is exact and every list block has at most 1021 children. */
  lemma ListBlocksAreExact(body: seq<Byte>, firstData: nat, first: nat, i: nat)
    requires firstData + |Pieces(body)| < ID_LIMIT && first + |Pieces(body)| + 1 < ID_LIMIT
    requires MAX_BLOCK_PAYLOAD < |body| < 0x1_0000_0000
    requires i < |ListBlocks(Pieces(body), |body|, firstData, first)|
    ensures var x, pieces := ListBlocks(Pieces(body), |body|, firstData, first)[i], Pieces(body);
            && |x.children| <= MAX_CHILDREN
            && (|pieces| <= MAX_CHILDREN || i == |Runs(pieces, MAX_CHILDREN)| ==> x.lcbTotal == |body|)
            && (|pieces| > MAX_CHILDREN && i < |Runs(pieces, MAX_CHILDREN)| ==>
                  x.lcbTotal == |Flatten(Runs(pieces, MAX_CHILDREN)[i])|)
  {
    hide Runs, MakeDataBid, MakeInternalBid, Flatten;
    var pieces := Pieces(body);
    if |pieces| > MAX_CHILDREN {
      var bids := DataBids(firstData, |pieces|);
      GroupsMatch(bids, pieces, MAX_CHILDREN);
      FewGroups(body);
      PiecesJoin(body);
      RunsJoin(pieces);
      if i < |Runs(pieces, MAX_CHILDREN)| {
        PartOfAll(Runs(pieces, MAX_CHILDREN), i);
        RunAt(bids, MAX_CHILDREN, i);
      }
    }
  }

  lemma FewGroups(body: seq<Byte>)
    requires MAX_BLOCK_PAYLOAD < |body| < 0x1_0000_0000
    ensures |Runs(Pieces(body), MAX_CHILDREN)| <= 515
  {
    hide Runs;
    RunCount(body, MAX_BLOCK_PAYLOAD);
    RunCount(Pieces(body), MAX_CHILDREN);
  }

  lemma {:induction false} PartOfAll(held: seq<seq<seq<Byte>>>, i: nat)
    requires i < |held|
    ensures |Flatten(held[i])| <= |FlattenAll(held)|
  {
    hide Flatten;
    if i == 0 {
    } else {
      PartOfAll(held[1..], i - 1);
    }
  }

  // ---- The shape of a payload on disk ----

  function Least(a: nat, b: nat): nat {
    if a < b then a else b
  }

  /** How many parts of `cap` it takes, with one for nothing. */
  function PartCount(size: nat, cap: nat): nat
    requires cap > 0
  {
    if size <= cap then 1 else (size + cap - 1) / cap
  }

  /** Full data blocks of 8176 bytes and a last one with the rest, under ids four apart. */
  ghost predicate DataShape(body: seq<Byte>, firstData: nat, blocks: seq<DataBlock>) {
    && |blocks| == PartCount(|body|, 8176)
    && forall k | 0 <= k < |blocks| ::
         && 8176 * k <= |body| && blocks[k].bid == 4 * (firstData + k)
         && blocks[k].bytes == body[8176 * k..Least(8176 * (k + 1), |body|)]
  }

  /** The `k`-th XBLOCK: up to 1021 data ids in order and the number of bytes below them. */
  ghost predicate ListShape(size: nat, count: nat, firstData: nat, k: nat, x: ListBlock) {
    && x.cLevel == 1 && 1021 * k <= count && |x.children| == Least(1021 * (k + 1), count) - 1021 * k
    && (forall j | 0 <= j < |x.children| :: x.children[j] == 4 * (firstData + 1021 * k + j))
    && x.lcbTotal as int == (Least(1021 * 8176 * (k + 1), size) - 1021 * 8176 * k) % 0x1_0000_0000
  }

  /**
   One data block stands alone. Several lie below XBLOCKs of 1021, full but for the last. Several XBLOCKs lie below one
   XXBLOCK. The id of the topmost block is the payload's.
   */
  ghost predicate PayloadShape(body: seq<Byte>, firstData: nat, first: nat, blocks: seq<DataBlock>,
                               lists: seq<ListBlock>, bid: Bid) {
    var n := |blocks|;
    && DataShape(body, firstData, blocks)
    && if n == 1 then lists == [] && bid == 4 * firstData
       else
         var m := PartCount(n, 1021);
         && |lists| == (if m == 1 then 1 else m + 1)
         && (forall k | 0 <= k < m ::
               lists[k].bid == 4 * (first + k) + 2 && ListShape(|body|, n, firstData, k, lists[k]))
         && bid == lists[|lists| - 1].bid
         && (m > 1 ==>
               && lists[m].bid == 4 * (first + m) + 2 && lists[m].cLevel == 2 && |lists[m].children| == m
               && (forall k | 0 <= k < m :: lists[m].children[k] == lists[k].bid)
               && lists[m].lcbTotal as int == |body| % 0x1_0000_0000)
  }

  lemma RunCountIs<T>(s: seq<T>, cap: nat)
    requires cap > 0
    ensures |Runs(s, cap)| == PartCount(|s|, cap)
  {
    var n := |Runs(s, cap)|;
    if |s| > cap {
      RunCount(s, cap);
      assert (n - 1) * cap == n * cap - cap;
      RoundedUp(|s|, cap, n);
    }
  }

  lemma RoundedUp(size: nat, cap: nat, n: nat)
    requires cap > 0 && n * cap - cap < size <= n * cap
    ensures (size + cap - 1) / cap == n
  {
    Quotient(size + cap - 1, cap, n, size + cap - 1 - n * cap);
  }

  lemma PieceAt(body: seq<Byte>, k: nat)
    requires k < |Pieces(body)|
    ensures 8176 * k <= |body| && Pieces(body)[k] == body[8176 * k..Least(8176 * (k + 1), |body|)]
    ensures k + 1 < |Pieces(body)| ==> 8176 * (k + 1) < |body|
  {
    hide Runs;
    RunAt(body, 8176, k);
  }

  lemma DataIsShaped(body: seq<Byte>, firstData: nat)
    requires firstData + |Pieces(body)| < ID_LIMIT
    ensures DataShape(body, firstData, DataBlocks(Pieces(body), firstData))
  {
    hide Runs, PartCount;
    RunCountIs(body, 8176);
    var blocks := DataBlocks(Pieces(body), firstData);
    forall k | 0 <= k < |blocks|
      ensures 8176 * k <= |body| && blocks[k].bid == 4 * (firstData + k)
              && blocks[k].bytes == body[8176 * k..Least(8176 * (k + 1), |body|)]
    {
      PieceAt(body, k);
    }
  }

  /** The bytes below a run of pieces. */
  lemma {:induction false} PiecesSpan(body: seq<Byte>, a: nat, b: nat)
    requires a < b <= |Pieces(body)|
    ensures 8176 * a <= |body| && Flatten(Pieces(body)[a..b]) == body[8176 * a..Least(8176 * b, |body|)]
  {
    hide Runs, Flatten, Pieces;
    var ps := Pieces(body);
    PieceAt(body, b - 1);
    if a + 1 == b {
      assert ps[a..b] == [ps[a]];
      FlattenOne(ps[a]);
    } else {
      PiecesSpan(body, a, b - 1);
      assert ps[a..b] == ps[a..b - 1] + [ps[b - 1]];
      FlattenSnoc(ps[a..b - 1], ps[b - 1]);
      var x, y := 8176 * (b - 1), Least(8176 * b, |body|);
      assert body[8176 * a..x] + body[x..y] == body[8176 * a..y];
    }
  }

  lemma GroupIsShaped(body: seq<Byte>, firstData: nat, k: nat, x: ListBlock)
    requires firstData + |Pieces(body)| < ID_LIMIT
    requires var bids := DataBids(firstData, |Pieces(body)|);
             && k < |Runs(bids, 1021)| == |Runs(Pieces(body), 1021)|
             && x.cLevel == 1 && x.children == Runs(bids, 1021)[k]
             && x.lcbTotal as int == |Flatten(Runs(Pieces(body), 1021)[k])| % 0x1_0000_0000
    ensures ListShape(|body|, |Pieces(body)|, firstData, k, x)
  {
    hide Runs, Flatten, Pieces;
    var pieces, bids := Pieces(body), DataBids(firstData, |Pieces(body)|);
    RunAt(bids, 1021, k);
    RunAt(pieces, 1021, k);
    var lo, hi := 1021 * k, Least(1021 * (k + 1), |pieces|);
    GroupNotEmpty(pieces, k);
    PiecesSpan(body, lo, hi);
    LastPiece(body, hi);
    forall j | 0 <= j < hi - lo ensures x.children[j] == 4 * (firstData + 1021 * k + j) {
      assert x.children[j] == bids[lo + j];
    }
  }

  lemma GroupNotEmpty<T>(s: seq<T>, k: nat)
    requires s != [] && k < |Runs(s, 1021)|
    ensures 1021 * k < |s|
  {
    hide Runs;
    RunCount(s, 1021);
  }

  /** Either the span ends with a full piece or it ends the body. */
  lemma LastPiece(body: seq<Byte>, hi: nat)
    requires 0 < hi <= |Pieces(body)|
    ensures hi < |Pieces(body)| ==> 8176 * hi < |body|
    ensures hi == |Pieces(body)| ==> |body| <= 8176 * hi
  {
    hide Runs;
    RunCountIs(body, 8176);
    PieceAt(body, hi - 1);
  }

  lemma PayloadIsShaped(body: seq<Byte>, firstData: nat, first: nat)
    requires firstData + |Pieces(body)| < ID_LIMIT && first + |Pieces(body)| + 1 < ID_LIMIT
    ensures PayloadShape(body, firstData, first, DataBlocks(Pieces(body), firstData),
                         if |body| <= 8176 then [] else ListBlocks(Pieces(body), |body|, firstData, first),
                         PayloadBid(body, firstData, first))
  {
    hide Runs, DataShape, ListShape, Flatten;
    DataIsShaped(body, firstData);
    RunCountIs(body, 8176);
    var pieces := Pieces(body);
    RunCountIs(pieces, 1021);
    if |body| > 8176 {
      ListsAreShaped(body, firstData, first);
      var lists, n := ListBlocks(Pieces(body), |body|, firstData, first), |Pieces(body)|;
      var m := PartCount(n, 1021);
      assert n > 1;
      if m > 1 {
        assert lists[m].cLevel == 2 && lists[m].bid == 4 * (first + m) + 2 && |lists[m].children| == m;
        assert forall k | 0 <= k < m :: lists[m].children[k] == MakeInternalBid(first + k) == lists[k].bid;
      }
    }
  }

  lemma ListsAreShaped(body: seq<Byte>, firstData: nat, first: nat)
    requires firstData + |Pieces(body)| < ID_LIMIT && first + |Pieces(body)| + 1 < ID_LIMIT && |body| > 8176
    ensures var lists, n := ListBlocks(Pieces(body), |body|, firstData, first), |Pieces(body)|;
            var m := PartCount(n, 1021);
            && |lists| == (if m == 1 then 1 else m + 1)
            && (forall k | 0 <= k < m ::
                  lists[k].bid == 4 * (first + k) + 2 && ListShape(|body|, n, firstData, k, lists[k]))
            && PayloadBid(body, firstData, first) == lists[|lists| - 1].bid
            && (m > 1 ==> lists[m] == ListBlock(MakeInternalBid(first + m), 2, |body| % 0x1_0000_0000,
                                                InternalBids(first, m)))
  {
    hide Runs, Pieces, ListShape, Flatten;
    var pieces := Pieces(body);
    var lists, bids := ListBlocks(pieces, |body|, firstData, first), DataBids(firstData, |pieces|);
    RunCountIs(pieces, 1021);
    GroupsMatch(bids, pieces, 1021);
    GroupCountSmall(pieces);
    if |pieces| <= 1021 {
      OneGroup(pieces);
      OneGroup(bids);
      PiecesJoin(body);
    }
    forall k: nat | k < PartCount(|pieces|, 1021)
      ensures lists[k].bid == 4 * (first + k) + 2 && ListShape(|body|, |pieces|, firstData, k, lists[k])
    {
      GroupIsShaped(body, firstData, k, lists[k]);
    }
  }

  lemma OneGroup<T>(s: seq<T>)
    requires |s| <= 1021
    ensures Runs(s, 1021) == [s]
  {
  }
}
