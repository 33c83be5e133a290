/** A whole run of nodes and subnodes through one scheduler: what was scheduled early stays readable (src/mail.cpp). */
module ScheduleRun {
  import opened Block
  import opened Bytes
  import opened Chunks
  import opened Nbt
  import opened Ndb
  import opened Sorting
  import opened Wrappers

  // ---- Scheduling more never changes what an id leads to ----

  lemma {:induction false} FindDataGrows(data: seq<DataBlock>, more: seq<DataBlock>, bid: Bid)
    requires data <= more && FindData(data, bid).Some?
    ensures FindData(more, bid) == FindData(data, bid)
  {
    if data[0].bid == bid {
    } else {
      FindDataGrows(data[1..], more[1..], bid);
    }
  }

  lemma {:induction false} FindListGrows(xs: seq<ListBlock>, more: seq<ListBlock>, bid: Bid)
    requires xs <= more && FindList(xs, bid).Some?
    ensures FindList(more, bid) == FindList(xs, bid)
  {
    if xs[0].bid == bid {
    } else {
      FindListGrows(xs[1..], more[1..], bid);
    }
  }

  lemma {:induction false} JoinDataGrows(data: seq<DataBlock>, more: seq<DataBlock>, children: seq<Bid>)
    requires data <= more && JoinData(data, children).Some?
    ensures JoinData(more, children) == JoinData(data, children)
  {
    hide FindData;
    if children == [] {
    } else {
      FindDataGrows(data, more, children[0]);
      JoinDataGrows(data, more, children[1..]);
    }
  }

  lemma {:induction false} JoinListsGrow(data: seq<DataBlock>, moreData: seq<DataBlock>, xs: seq<ListBlock>,
                                         more: seq<ListBlock>, children: seq<Bid>)
    requires data <= moreData && xs <= more && JoinLists(data, xs, children).Some?
    ensures JoinLists(moreData, more, children) == JoinLists(data, xs, children)
  {
    hide FindList, JoinData;
    if children == [] {
    } else {
      FindListGrows(xs, more, children[0]);
      JoinDataGrows(data, moreData, FindList(xs, children[0]).value.children);
      JoinListsGrow(data, moreData, xs, more, children[1..]);
    }
  }

  /** An id that leads to some bytes leads to the same bytes after anything else is scheduled. */
  lemma ReassembleGrows(data: seq<DataBlock>, moreData: seq<DataBlock>, xs: seq<ListBlock>, more: seq<ListBlock>,
                        bid: Bid)
    requires data <= moreData && xs <= more && Reassemble(data, xs, bid).Some?
    ensures Reassemble(moreData, more, bid) == Reassemble(data, xs, bid)
  {
    hide FindData, FindList, JoinData, JoinLists, IsInternal;
    if !IsInternal(bid) {
      FindDataGrows(data, moreData, bid);
    } else {
      FindListGrows(xs, more, bid);
      var x := FindList(xs, bid).value;
      if x.cLevel == 1 {
        JoinDataGrows(data, moreData, x.children);
      } else {
        JoinListsGrow(data, moreData, xs, more, x.children);
      }
    }
  }

  // ---- What a run schedules ----

  /** A subnode: its id within the node and its bytes. */
  datatype Part = Part(nid: Nid, bytes: seq<Byte>)

  /** A node as the caller gives it: id, parent, body and subnodes. */
  datatype Content = Content(nid: Nid, parent: Nid, body: seq<Byte>, parts: seq<Part>)

  /** How many blocks a subnode and a node take. */
  ghost const PartBlocks: Part -> nat := (p: Part) => |Pieces(p.bytes)| + ListBlockCount(p.bytes)
  ghost const ContentBlocks: Content -> nat :=
    (c: Content) => 1 + Total(c.parts, PartBlocks) + if c.parts == [] then 0 else 1

  /** Every block is counted by one of the two counters, and no size field of a short file overflows. */
  ghost predicate Tidy(data: seq<DataBlock>, xs: seq<ListBlock>, sls: seq<SubnodeBlock>, counters: nat) {
    && |data| + |xs| + |sls| + 2 == counters
    && (forall i | 0 <= i < |data| :: |data[i].bytes| < 0x1_0000)
    && (forall i | 0 <= i < |xs| :: xs[i].cLevel in {1, 2} && |xs[i].children| <= |data| + |xs|)
    && (forall i | 0 <= i < |sls| :: |sls[i].entries| <= |data|)
  }

  // The most entries whose subnode list body is not longer than a block payload may be; nothing checks it.
  const MAX_SL_ENTRIES: nat := 340

  /** No data block and no subnode list is longer than a block payload may be. */
  ghost predicate WithinCap(data: seq<DataBlock>, sls: seq<SubnodeBlock>) {
    && (forall i | 0 <= i < |data| :: |data[i].bytes| <= MAX_BLOCK_PAYLOAD)
    && (forall i | 0 <= i < |sls| :: |sls[i].entries| <= MAX_SL_ENTRIES)
  }

  predicate ContentWithinCap(c: Content) {
    |c.body| <= MAX_BLOCK_PAYLOAD && |c.parts| <= MAX_SL_ENTRIES
  }

  lemma PiecesWithinCap(data: seq<DataBlock>, sls: seq<SubnodeBlock>, body: seq<Byte>, first: nat)
    requires first + |Pieces(body)| < ID_LIMIT
    ensures WithinCap(data + DataBlocks(Pieces(body), first), sls) <==> WithinCap(data, sls)
  {
    var more := data + DataBlocks(Pieces(body), first);
    if WithinCap(more, sls) {
      assert forall i | 0 <= i < |data| :: data[i] == more[i];
    }
  }

  lemma BodyWithinCap(data: seq<DataBlock>, sls: seq<SubnodeBlock>, d: DataBlock)
    ensures WithinCap(data + [d], sls) <==> WithinCap(data, sls) && |d.bytes| <= MAX_BLOCK_PAYLOAD
  {
    var more := data + [d];
    assert more[|data|] == d && forall i | 0 <= i < |data| :: data[i] == more[i];
  }

  lemma ListWithinCap(data: seq<DataBlock>, sls: seq<SubnodeBlock>, sl: SubnodeBlock)
    ensures WithinCap(data, sls + [sl]) <==> WithinCap(data, sls) && |sl.entries| <= MAX_SL_ENTRIES
  {
    var more := sls + [sl];
    assert more[|sls|] == sl && forall i | 0 <= i < |sls| :: sls[i] == more[i];
  }

  lemma {:induction false} RunsAtMost<T>(s: seq<T>, cap: nat, i: nat)
    requires cap > 0 && i < |Runs(s, cap)|
    ensures |Runs(s, cap)[i]| <= |s|
  {
    if i == 0 {
    } else {
      RunsAtMost(s[cap..], cap, i - 1);
    }
  }

  lemma ListsCounted(body: seq<Byte>, firstData: nat, first: nat)
    requires firstData + |Pieces(body)| < ID_LIMIT && first + |Pieces(body)| + 1 < ID_LIMIT
    requires |body| > MAX_BLOCK_PAYLOAD
    ensures |ListBlocks(Pieces(body), |body|, firstData, first)| == ListBlockCount(body)
    ensures forall x | x in ListBlocks(Pieces(body), |body|, firstData, first) ::
              x.cLevel in {1, 2} && |x.children| <= |Pieces(body)| + ListBlockCount(body)
  {
    hide MakeDataBid, MakeInternalBid, Runs;
    var pieces := Pieces(body);
    if |pieces| <= MAX_CHILDREN {
    } else {
      var bids := DataBids(firstData, |pieces|);
      var groups := Runs(bids, MAX_CHILDREN);
      GroupsMatch(bids, pieces, MAX_CHILDREN);
      GroupCountSmall(pieces);
      forall i | 0 <= i < |groups| ensures |groups[i]| <= |pieces| {
        RunsAtMost(bids, MAX_CHILDREN, i);
      }
    }
  }

  // ---- The run ----

  lemma TidyPayload(data: seq<DataBlock>, xs: seq<ListBlock>, sls: seq<SubnodeBlock>, counters: nat, body: seq<Byte>,
                    firstData: nat, first: nat)
    requires Tidy(data, xs, sls, counters)
    requires firstData + |Pieces(body)| < ID_LIMIT && first + |Pieces(body)| + 1 < ID_LIMIT
    ensures Tidy(data + DataBlocks(Pieces(body), firstData),
                 xs + if |body| <= MAX_BLOCK_PAYLOAD then [] else ListBlocks(Pieces(body), |body|, firstData, first),
                 sls, counters + |Pieces(body)| + ListBlockCount(body))
  {
    hide ListBlocks, ListBlockCount;
    NoLists(body);
    if |body| > MAX_BLOCK_PAYLOAD {
      ListsCounted(body, firstData, first);
    }
  }

  lemma NoLists(body: seq<Byte>)
    ensures |body| <= MAX_BLOCK_PAYLOAD ==> ListBlockCount(body) == 0
  {
  }

  method SchedulePart(s: Scheduler, bytes: seq<Byte>) returns (bid: Bid)
    requires s.Valid() && Tidy(s.dataBlocks, s.xBlocks, s.slBlocks, s.nextDataBidIdx + s.nextInternalBidIdx)
    requires s.nextDataBidIdx + s.nextInternalBidIdx + |Pieces(bytes)| + 1 < ID_LIMIT
    modifies s
    ensures s.Valid() && Tidy(s.dataBlocks, s.xBlocks, s.slBlocks, s.nextDataBidIdx + s.nextInternalBidIdx)
    ensures s.slBlocks == old(s.slBlocks) && old(s.dataBlocks) < s.dataBlocks && old(s.xBlocks) <= s.xBlocks
    ensures WithinCap(s.dataBlocks, s.slBlocks) <==> WithinCap(old(s.dataBlocks), old(s.slBlocks))
    ensures Reassemble(s.dataBlocks, s.xBlocks, bid) == Some(bytes)
    ensures s.nextDataBidIdx + s.nextInternalBidIdx
            == old(s.nextDataBidIdx) + old(s.nextInternalBidIdx) + |Pieces(bytes)| + ListBlockCount(bytes)
  {
    hide Pieces, Reassemble, PayloadBid, DataBlocks, ListBlocks, ListBlockCount, DataInOrder, ListsInOrder,
         SubnodesInOrder, Tidy, WithinCap;
    ghost var data, xs, firstData, first := s.dataBlocks, s.xBlocks, s.nextDataBidIdx, s.nextInternalBidIdx;
    DataCount(data, firstData);
    TidyPayload(data, xs, s.slBlocks, firstData + first, bytes, firstData, first);
    PiecesWithinCap(data, s.slBlocks, bytes, firstData);
    bid := s.SchedulePayload(bytes);
    SeenAtOnce(data, s.dataBlocks, xs, s.xBlocks, bytes, firstData, first);
    PayloadReassembles(s.dataBlocks, s.nextDataBidIdx, s.xBlocks, s.nextInternalBidIdx, bytes, data, xs, firstData,
                       first);
  }

  lemma DataCount(data: seq<DataBlock>, next: nat)
    requires DataInOrder(data, next)
    ensures next == |data| + 1
  {
  }

  lemma SeenAtOnce(data: seq<DataBlock>, moreData: seq<DataBlock>, xs: seq<ListBlock>, more: seq<ListBlock>,
                   body: seq<Byte>, firstData: nat, first: nat)
    requires firstData + |Pieces(body)| < ID_LIMIT && first + |Pieces(body)| + 1 < ID_LIMIT
    requires moreData == data + DataBlocks(Pieces(body), firstData)
    requires more == xs + if |body| <= MAX_BLOCK_PAYLOAD then [] else ListBlocks(Pieces(body), |body|, firstData, first)
    ensures SeesPayload(moreData, more, body, data, xs, firstData, first) && data < moreData && xs <= more
  {
    hide DataBlocks, ListBlocks;
  }

  /** The entries lead to the subnodes they were made for. */
  ghost predicate EntriesFor(raw: seq<SlEntry>, parts: seq<Part>, data: seq<DataBlock>, xs: seq<ListBlock>) {
    && |raw| == |parts|
    && forall j | 0 <= j < |raw| ::
         raw[j].nid == parts[j].nid && Reassemble(data, xs, raw[j].bidData) == Some(parts[j].bytes)
  }

  lemma EntriesGrow(raw: seq<SlEntry>, parts: seq<Part>, data: seq<DataBlock>, moreData: seq<DataBlock>,
                    xs: seq<ListBlock>, more: seq<ListBlock>)
    requires EntriesFor(raw, parts, data, xs) && data <= moreData && xs <= more
    ensures EntriesFor(raw, parts, moreData, more)
  {
    hide Reassemble;
    forall j | 0 <= j < |raw| ensures Reassemble(moreData, more, raw[j].bidData) == Some(parts[j].bytes) {
      ReassembleGrows(data, moreData, xs, more, raw[j].bidData);
    }
  }

  method ScheduleParts(s: Scheduler, parts: seq<Part>) returns (raw: seq<SlEntry>)
    requires s.Valid() && Tidy(s.dataBlocks, s.xBlocks, s.slBlocks, s.nextDataBidIdx + s.nextInternalBidIdx)
    requires s.nextDataBidIdx + s.nextInternalBidIdx + Total(parts, PartBlocks) + 1 < ID_LIMIT
    modifies s
    ensures s.Valid() && Tidy(s.dataBlocks, s.xBlocks, s.slBlocks, s.nextDataBidIdx + s.nextInternalBidIdx)
    ensures s.slBlocks == old(s.slBlocks) && old(s.dataBlocks) <= s.dataBlocks && old(s.xBlocks) <= s.xBlocks
    ensures WithinCap(s.dataBlocks, s.slBlocks) <==> WithinCap(old(s.dataBlocks), old(s.slBlocks))
    ensures EntriesFor(raw, parts, s.dataBlocks, s.xBlocks) && |raw| <= |s.dataBlocks|
    ensures s.nextDataBidIdx + s.nextInternalBidIdx
            == old(s.nextDataBidIdx) + old(s.nextInternalBidIdx) + Total(parts, PartBlocks)
  {
    hide Pieces, Reassemble, ListBlockCount, Tidy, EntriesFor, Total, Scheduler.Valid, WithinCap;
    raw := [];
    NothingYet(parts, s.dataBlocks, s.xBlocks);
    for k := 0 to |parts|
      invariant s.Valid() && Tidy(s.dataBlocks, s.xBlocks, s.slBlocks, s.nextDataBidIdx + s.nextInternalBidIdx)
      invariant s.slBlocks == old(s.slBlocks) && old(s.dataBlocks) <= s.dataBlocks && old(s.xBlocks) <= s.xBlocks
      invariant WithinCap(s.dataBlocks, s.slBlocks) <==> WithinCap(old(s.dataBlocks), old(s.slBlocks))
      invariant EntriesFor(raw, parts[..k], s.dataBlocks, s.xBlocks) && k <= |s.dataBlocks|
      invariant s.nextDataBidIdx + s.nextInternalBidIdx
                == old(s.nextDataBidIdx) + old(s.nextInternalBidIdx) + Total(parts[..k], PartBlocks)
    {
      TotalStep(parts, k, PartBlocks);
      ghost var data, xs := s.dataBlocks, s.xBlocks;
      var bid := SchedulePart(s, parts[k].bytes);
      EntriesGrow(raw, parts[..k], data, s.dataBlocks, xs, s.xBlocks);
      OneEntryMore(raw, parts, k, s.dataBlocks, s.xBlocks, SlEntry(parts[k].nid, bid, 0));
      raw := raw + [SlEntry(parts[k].nid, bid, 0)];
    }
    AllEntries(raw, parts, s.dataBlocks, s.xBlocks);
  }

  lemma NothingYet(parts: seq<Part>, data: seq<DataBlock>, xs: seq<ListBlock>)
    ensures EntriesFor([], parts[..0], data, xs) && Total(parts[..0], PartBlocks) == 0
  {
  }

  lemma OneEntryMore(raw: seq<SlEntry>, parts: seq<Part>, k: nat, data: seq<DataBlock>, xs: seq<ListBlock>, e: SlEntry)
    requires k < |parts| && EntriesFor(raw, parts[..k], data, xs)
    requires e.nid == parts[k].nid && Reassemble(data, xs, e.bidData) == Some(parts[k].bytes)
    ensures EntriesFor(raw + [e], parts[..k + 1], data, xs)
  {
    hide Reassemble;
  }

  lemma AllEntries(raw: seq<SlEntry>, parts: seq<Part>, data: seq<DataBlock>, xs: seq<ListBlock>)
    requires EntriesFor(raw, parts[..|parts|], data, xs)
    ensures EntriesFor(raw, parts, data, xs) && |raw| == |parts| && parts[..|parts|] == parts
  {
    assert parts[..|parts|] == parts;
  }

  /** The scheduled blocks hold everything of a node below the ids of its entry. */
  ghost predicate Held(data: seq<DataBlock>, xs: seq<ListBlock>, sls: seq<SubnodeBlock>, n: NbtEntry, c: Content) {
    && n.nid == c.nid && n.nidParent == c.parent
    && Reassemble(data, xs, n.bidData) == Some(c.body)
    && if c.parts == [] then n.bidSub == 0
       else
         exists m, raw ::
           && 0 <= m < |sls| && sls[m].bid == n.bidSub && multiset(sls[m].entries) == multiset(raw)
           && EntriesFor(raw, c.parts, data, xs)
  }

  lemma HeldGrows(data: seq<DataBlock>, moreData: seq<DataBlock>, xs: seq<ListBlock>, more: seq<ListBlock>,
                  sls: seq<SubnodeBlock>, moreSls: seq<SubnodeBlock>, n: NbtEntry, c: Content)
    requires Held(data, xs, sls, n, c) && data <= moreData && xs <= more && sls <= moreSls
    ensures Held(moreData, more, moreSls, n, c)
  {
    hide Reassemble, EntriesFor;
    ReassembleGrows(data, moreData, xs, more, n.bidData);
    if c.parts != [] {
      var m, raw :|
        && 0 <= m < |sls| && sls[m].bid == n.bidSub && multiset(sls[m].entries) == multiset(raw)
        && EntriesFor(raw, c.parts, data, xs);
      EntriesGrow(raw, c.parts, data, moreData, xs, more);
      assert moreSls[m] == sls[m];
    }
  }

  lemma BodyHeld(data: seq<DataBlock>, xs: seq<ListBlock>, next: nat)
    requires DataInOrder(data, next) && data != []
    ensures Reassemble(data, xs, data[|data| - 1].bid) == Some(data[|data| - 1].bytes)
  {
    DataIdsDiffer(data, next);
    DataFound(data, |data| - 1);
    BidsAreDistinct(|data|, 1);
  }

  lemma TidyBody(data: seq<DataBlock>, xs: seq<ListBlock>, sls: seq<SubnodeBlock>, counters: nat, d: DataBlock)
    requires Tidy(data, xs, sls, counters) && |d.bytes| < 0x1_0000
    ensures Tidy(data + [d], xs, sls, counters + 1)
  {
  }

  lemma TidySubnodes(data: seq<DataBlock>, xs: seq<ListBlock>, sls: seq<SubnodeBlock>, counters: nat, sl: SubnodeBlock)
    requires Tidy(data, xs, sls, counters) && |sl.entries| <= |data|
    ensures Tidy(data, xs, sls + [sl], counters + 1)
  {
  }

  /** Subnodes first, then the node's own block, then the subnode list. */
  method ScheduleContent(s: Scheduler, c: Content) returns (n: NbtEntry)
    requires s.Valid() && Tidy(s.dataBlocks, s.xBlocks, s.slBlocks, s.nextDataBidIdx + s.nextInternalBidIdx)
    requires s.nextDataBidIdx + s.nextInternalBidIdx + ContentBlocks(c) + 1 < ID_LIMIT && |c.body| < 0x1_0000
    modifies s
    ensures s.Valid() && Tidy(s.dataBlocks, s.xBlocks, s.slBlocks, s.nextDataBidIdx + s.nextInternalBidIdx)
    ensures old(s.dataBlocks) <= s.dataBlocks && old(s.xBlocks) <= s.xBlocks && old(s.slBlocks) <= s.slBlocks
    ensures Held(s.dataBlocks, s.xBlocks, s.slBlocks, n, c)
    ensures WithinCap(s.dataBlocks, s.slBlocks)
            <==> WithinCap(old(s.dataBlocks), old(s.slBlocks)) && ContentWithinCap(c)
    ensures s.nextDataBidIdx + s.nextInternalBidIdx
            == old(s.nextDataBidIdx) + old(s.nextInternalBidIdx) + ContentBlocks(c)
  {
    hide Reassemble, Tidy, EntriesFor, Total, DataInOrder, ListsInOrder, SubnodesInOrder, MakeDataBid, MakeInternalBid,
         WithinCap;
    var raw := ScheduleParts(s, c.parts);
    ghost var data, xs := s.dataBlocks, s.xBlocks;
    var bidData := s.ScheduleDataBlock(c.body);
    TidyBody(data, xs, s.slBlocks, s.nextDataBidIdx + s.nextInternalBidIdx - 1, DataBlock(bidData, c.body));
    BodyWithinCap(data, s.slBlocks, DataBlock(bidData, c.body));
    BodyHeld(s.dataBlocks, s.xBlocks, s.nextDataBidIdx);
    EntriesGrow(raw, c.parts, data, s.dataBlocks, xs, s.xBlocks);
    if raw == [] {
      NoParts(raw, c.parts, s.dataBlocks, s.xBlocks);
      n := NbtEntry(c.nid, bidData, 0, c.parent);
      return;
    }
    NoParts(raw, c.parts, s.dataBlocks, s.xBlocks);
    ghost var sls := s.slBlocks;
    var bidSub, order := s.ScheduleSubnodes(raw);
    TidySubnodes(s.dataBlocks, s.xBlocks, sls, s.nextDataBidIdx + s.nextInternalBidIdx - 1,
                 SubnodeBlock(bidSub, order));
    ListWithinCap(s.dataBlocks, sls, SubnodeBlock(bidSub, order));
    n := NbtEntry(c.nid, bidData, bidSub, c.parent);
    assert s.slBlocks[|sls|] == SubnodeBlock(bidSub, order);
  }

  lemma NoParts(raw: seq<SlEntry>, parts: seq<Part>, data: seq<DataBlock>, xs: seq<ListBlock>)
    requires EntriesFor(raw, parts, data, xs)
    ensures |raw| == |parts|
  {
  }

  /** Schedules all nodes one after the other; at the end everything of every node is held below its entry's ids. */
  method ScheduleContents(contents: seq<Content>) returns (s: Scheduler, nodes: seq<NbtEntry>)
    requires forall k | 0 <= k < |contents| :: |contents[k].body| < 0x1_0000
    // The 62-bit counters suffice.
    requires Total(contents, ContentBlocks) + 3 < ID_LIMIT
    ensures fresh(s) && s.Valid()
    ensures s.nextDataBidIdx + s.nextInternalBidIdx == Total(contents, ContentBlocks) + 2
    ensures Tidy(s.dataBlocks, s.xBlocks, s.slBlocks, Total(contents, ContentBlocks) + 2)
    ensures WithinCap(s.dataBlocks, s.slBlocks) <==> forall k | 0 <= k < |contents| :: ContentWithinCap(contents[k])
    ensures |nodes| == |contents|
    ensures forall k | 0 <= k < |contents| :: Held(s.dataBlocks, s.xBlocks, s.slBlocks, nodes[k], contents[k])
  {
    hide Tidy, Total, Held, ContentBlocks, Scheduler.Valid, WithinCap, ContentWithinCap;
    s := new Scheduler();
    nodes := [];
    NothingScheduled(contents);
    for k := 0 to |contents|
      invariant fresh(s) && s.Valid() && |nodes| == k
      invariant Tidy(s.dataBlocks, s.xBlocks, s.slBlocks, s.nextDataBidIdx + s.nextInternalBidIdx)
      invariant s.nextDataBidIdx + s.nextInternalBidIdx == Total(contents[..k], ContentBlocks) + 2
      invariant WithinCap(s.dataBlocks, s.slBlocks) <==> forall j | 0 <= j < k :: ContentWithinCap(contents[j])
      invariant forall j | 0 <= j < k :: Held(s.dataBlocks, s.xBlocks, s.slBlocks, nodes[j], contents[j])
    {
      TotalStep(contents, k, ContentBlocks);
      ghost var data, xs, sls := s.dataBlocks, s.xBlocks, s.slBlocks;
      var n := ScheduleContent(s, contents[k]);
      forall j | 0 <= j < k ensures Held(s.dataBlocks, s.xBlocks, s.slBlocks, nodes[j], contents[j]) {
        HeldGrows(data, s.dataBlocks, xs, s.xBlocks, sls, s.slBlocks, nodes[j], contents[j]);
      }
      nodes := nodes + [n];
    }
    assert contents[..|contents|] == contents;
  }

  lemma NothingScheduled(contents: seq<Content>)
    ensures Total(contents[..0], ContentBlocks) == 0 && Tidy([], [], [], 2) && WithinCap([], [])
  {
  }
}
