/**
 The Heap-on-Node: one block holding a header, a run of allocations and a map of their offsets
 (src/ltp.cpp; section 2.3.1 of [MS-PST]).
 */
module Heap {
  import opened Bytes
  import opened Wrappers

  const HN_HEADER_SIZE: nat := 12
  const HN_SIGNATURE: Byte := 0xEC
  const MAX_BODY: nat := 8176
  const ALLOC_MAX: nat := 3580
  // Fill levels of an empty heap.
  const NO_FILL: seq<Byte> := [0, 0, 0, 0]
  // The largest heap end whose offsets still fit the 16-bit fields.
  const MAX_HEAP_END: nat := 65532

  /** Bytes that did not go into the heap: the caller stores them under the node id `nid`. */
  datatype SubnodeOut = SubnodeOut(nid: UInt32, tag: UInt16, data: seq<Byte>)

  // ---- Heap identifiers: type in bits 0-4, 1-based slot in bits 5-15, block in bits 16-31 ----

  function MakeHid(slot: UInt16): UInt32 {
    slot % 0x800 * 0x20
  }

  // ---- The layout as arithmetic on the allocation list ----

  function AlignUp4(n: nat): (r: nat)
    ensures n <= r < n + 4 && r % 4 == 0
  {
    (n + 3) / 4 * 4
  }

  function AllocStart(allocs: seq<seq<Byte>>, i: nat): nat
    requires i <= |allocs|
  {
    HN_HEADER_SIZE + |Flatten(allocs[..i])|
  }

  function HeapEnd(allocs: seq<seq<Byte>>): nat {
    HN_HEADER_SIZE + |Flatten(allocs)|
  }

  function PageMapOffset(allocs: seq<seq<Byte>>): nat {
    AlignUp4(HeapEnd(allocs))
  }

  /** User allocations, plus one filler slot when the heap end is not 4-byte aligned. */
  function SlotCount(allocs: seq<seq<Byte>>): nat {
    |allocs| + if HeapEnd(allocs) == PageMapOffset(allocs) then 0 else 1
  }

  function SlotOffset(allocs: seq<seq<Byte>>, i: nat): nat {
    if i <= |allocs| then AllocStart(allocs, i) else PageMapOffset(allocs)
  }

  function EmptyCount(allocs: seq<seq<Byte>>): (n: nat)
    ensures n <= |allocs|
  {
    if allocs == [] then 0 else (if allocs[0] == [] then 1 else 0) + EmptyCount(allocs[1..])
  }

  ghost predicate Fits(allocs: seq<seq<Byte>>) {
    HeapEnd(allocs) <= MAX_HEAP_END && |allocs| < 0xFFFF
  }

  lemma StartsAreOrdered(allocs: seq<seq<Byte>>, i: nat, j: nat)
    requires i <= j <= |allocs|
    ensures AllocStart(allocs, i) <= AllocStart(allocs, j) <= HeapEnd(allocs)
    ensures i < j ==> AllocStart(allocs, i) + |allocs[i]| <= AllocStart(allocs, j)
  {
    assert allocs[..j] == allocs[..i] + allocs[i..j];
    FlattenAppend(allocs[..i], allocs[i..j]);
    assert allocs == allocs[..j] + allocs[j..];
    FlattenAppend(allocs[..j], allocs[j..]);
  }

  lemma SlotOffsetFits(allocs: seq<seq<Byte>>, i: nat)
    requires HeapEnd(allocs) <= MAX_HEAP_END
    ensures SlotOffset(allocs, i) <= PageMapOffset(allocs) <= MAX_HEAP_END
  {
    if i <= |allocs| {
      StartsAreOrdered(allocs, i, |allocs|);
    }
  }

  // ---- The image ----

  function HeaderImage(ibHnpm: UInt16, clientSig: Byte, userRoot: UInt32, fill: seq<Byte>): (s: seq<Byte>)
    requires |fill| == 4
    ensures |s| == HN_HEADER_SIZE
  {
    Le16(ibHnpm) + [HN_SIGNATURE, clientSig] + Le32(userRoot) + fill
  }

  /** The first `n` entries of the offset table. */
  function OffsetEntries(allocs: seq<seq<Byte>>, n: nat): (t: seq<seq<Byte>>)
    requires HeapEnd(allocs) <= MAX_HEAP_END
    ensures |t| == n && forall i | 0 <= i < n :: |t[i]| == 2
  {
    seq(n, i requires 0 <= i => SlotOffsetFits(allocs, i); Le16(SlotOffset(allocs, i)))
  }

  function HeapBody(allocs: seq<seq<Byte>>, clientSig: Byte, userRoot: UInt32, fill: seq<Byte>): (s: seq<Byte>)
    requires Fits(allocs) && |fill| == 4
    ensures |s| == PageMapOffset(allocs)
  {
    HeaderImage(PageMapOffset(allocs), clientSig, userRoot, fill) + Flatten(allocs)
    + Zeros(PageMapOffset(allocs) - HeapEnd(allocs))
  }

  function PageMap(allocs: seq<seq<Byte>>): (s: seq<Byte>)
    requires Fits(allocs)
    ensures |s| == 4 + 2 * (SlotCount(allocs) + 1)
  {
    FlattenUniformLength(OffsetEntries(allocs, SlotCount(allocs) + 1), 2);
    Le16(SlotCount(allocs)) + Le16(EmptyCount(allocs))
    + Flatten(OffsetEntries(allocs, SlotCount(allocs) + 1))
  }

  function HeapImage(allocs: seq<seq<Byte>>, clientSig: Byte, userRoot: UInt32, fill: seq<Byte>): (s: seq<Byte>)
    requires Fits(allocs) && |fill| == 4
    ensures |s| == HeapImageSize(allocs)
  {
    HeapBody(allocs, clientSig, userRoot, fill) + PageMap(allocs)
  }

  function HeapImageSize(allocs: seq<seq<Byte>>): nat {
    PageMapOffset(allocs) + 4 + 2 * (SlotCount(allocs) + 1)
  }

  // ---- The builder ----

  method BuildHeapOnNode(allocs: seq<seq<Byte>>, clientSig: Byte, userRoot: UInt32, fill: seq<Byte>)
    returns (hn: seq<Byte>)
    requires |fill| == 4
    // Heap offsets and the slot count are 16-bit and nothing checks that they fit.
    requires Fits(allocs)
    ensures hn == HeapImage(allocs, clientSig, userRoot, fill) && HeapReads(hn, allocs, clientSig, userRoot, fill)
  {
    hide HeapReads;
    var cursorAfterUser: UInt16 := HN_HEADER_SIZE;
    for i := 0 to |allocs|
      invariant cursorAfterUser == AllocStart(allocs, i)
    {
      NextStart(allocs, i);
      cursorAfterUser := (cursorAfterUser + |allocs[i]|) % 0x1_0000;
    }
    assert allocs[..|allocs|] == allocs;
    var ibHnpm: UInt16 := AlignUp4(cursorAfterUser) % 0x1_0000;
    var hasPhantom := cursorAfterUser != ibHnpm;
    var cAlloc: UInt16 := (|allocs| + if hasPhantom then 1 else 0) % 0x1_0000;
    var ibAlloc := LayOut(allocs, ibHnpm, hasPhantom);

    hn := Fill(allocs, clientSig, userRoot, fill, ibHnpm, cAlloc, ibAlloc);
    HeapIsRead(allocs, clientSig, userRoot, fill, hn);
  }

  /** The buffer itself: header, allocations, map; the pad between them stays zero. */
  method Fill(allocs: seq<seq<Byte>>, clientSig: Byte, userRoot: UInt32, fill: seq<Byte>, ibHnpm: UInt16,
              cAlloc: UInt16, ibAlloc: seq<UInt16>)
    returns (hn: seq<Byte>)
    requires |fill| == 4 && Fits(allocs) && ibHnpm == PageMapOffset(allocs) && cAlloc == SlotCount(allocs)
    requires |ibAlloc| == cAlloc + 1 && forall k | 0 <= k < |ibAlloc| :: ibAlloc[k] == SlotOffset(allocs, k)
    ensures hn == HeapImage(allocs, clientSig, userRoot, fill)
  {
    hide Filled, Flatten, PageMap, EmptyCount;
    ghost var header := HeaderImage(ibHnpm, clientSig, userRoot, fill);
    hide HeaderImage;
    var out := new Byte[ibHnpm + 4 + (cAlloc + 1) * 2](_ => 0);
    ZeroBuffer(out[..]);
    WriteHeader(out, ibHnpm, clientSig, userRoot, fill);
    CopyAllocations(out, allocs, ibAlloc, header);
    FillZeros(out[..], header + Flatten(allocs), ibHnpm - HeapEnd(allocs));
    WritePageMap(out, allocs, ibAlloc, ibHnpm, cAlloc, header + Flatten(allocs) + Zeros(ibHnpm - HeapEnd(allocs)));
    hn := out[..];
  }

  /** The offset of every allocation, of the filler slot if there is one, and of the map itself. */
  method LayOut(allocs: seq<seq<Byte>>, ibHnpm: UInt16, hasPhantom: bool) returns (ibAlloc: seq<UInt16>)
    requires Fits(allocs)
    requires ibHnpm == PageMapOffset(allocs) && hasPhantom == (HeapEnd(allocs) != ibHnpm)
    ensures |ibAlloc| == SlotCount(allocs) + 1
    ensures forall k | 0 <= k < |ibAlloc| :: ibAlloc[k] == SlotOffset(allocs, k)
  {
    ibAlloc := [];
    var cursor: UInt16 := HN_HEADER_SIZE;
    for i := 0 to |allocs|
      invariant cursor == AllocStart(allocs, i)
      invariant |ibAlloc| == i
      invariant forall k | 0 <= k < i :: ibAlloc[k] == SlotOffset(allocs, k)
    {
      NextStart(allocs, i);
      ibAlloc := ibAlloc + [cursor];
      cursor := (cursor + |allocs[i]|) % 0x1_0000;
    }
    assert allocs[..|allocs|] == allocs;
    if hasPhantom {
      ibAlloc := ibAlloc + [cursor];
    }
    ibAlloc := ibAlloc + [ibHnpm];
  }

  method WriteHeader(out: array<Byte>, ibHnpm: UInt16, clientSig: Byte, userRoot: UInt32, fill: seq<Byte>)
    requires |fill| == 4 && out.Length >= HN_HEADER_SIZE && Filled(out[..], [])
    modifies out
    ensures Filled(out[..], HeaderImage(ibHnpm, clientSig, userRoot, fill))
  {
    FillNext(out[..], [], Le16(ibHnpm));
    WriteU16(out, 0, ibHnpm);
    FillNext(out[..], Le16(ibHnpm), [HN_SIGNATURE]);
    WriteU8(out, 2, HN_SIGNATURE);
    FillNext(out[..], Le16(ibHnpm) + [HN_SIGNATURE], [clientSig]);
    WriteU8(out, 3, clientSig);
    ghost var done := Le16(ibHnpm) + [HN_SIGNATURE, clientSig];
    assert Le16(ibHnpm) + [HN_SIGNATURE] + [clientSig] == done;
    FillNext(out[..], done, Le32(userRoot));
    WriteU32(out, 4, userRoot);
    FillNext(out[..], done + Le32(userRoot), fill);
    Copy(out, 8, fill);
  }

  method CopyAllocations(out: array<Byte>, allocs: seq<seq<Byte>>, ibAlloc: seq<UInt16>, ghost header: seq<Byte>)
    requires Fits(allocs) && out.Length >= HeapEnd(allocs)
    requires |ibAlloc| > |allocs| && forall k | 0 <= k < |allocs| :: ibAlloc[k] == AllocStart(allocs, k)
    requires |header| == HN_HEADER_SIZE && Filled(out[..], header)
    modifies out
    ensures Filled(out[..], header + Flatten(allocs))
  {
    for i := 0 to |allocs|
      invariant Filled(out[..], header + Flatten(allocs[..i]))
    {
      NextStart(allocs, i);
      FillNext(out[..], header + Flatten(allocs[..i]), allocs[i]);
      assert header + Flatten(allocs[..i]) + allocs[i] == header + Flatten(allocs[..i + 1]);
      if |allocs[i]| != 0 {
        Copy(out, ibAlloc[i], allocs[i]);
      }
    }
    assert allocs[..|allocs|] == allocs;
  }

  method WritePageMap(out: array<Byte>, allocs: seq<seq<Byte>>, ibAlloc: seq<UInt16>, ibHnpm: UInt16, cAlloc: UInt16,
                      ghost body: seq<Byte>)
    requires Fits(allocs) && cAlloc == SlotCount(allocs)
    requires |ibAlloc| == cAlloc + 1 && forall k | 0 <= k < |ibAlloc| :: ibAlloc[k] == SlotOffset(allocs, k)
    requires |body| == ibHnpm && out.Length == ibHnpm + 4 + 2 * (cAlloc + 1)
    requires Filled(out[..], body)
    modifies out
    ensures out[..] == body + PageMap(allocs)
  {
    hide Filled, Le16, SlotOffset, SlotCount, EmptyCount, Flatten;
    var cFree := CountEmpty(allocs);
    Append16(out, ibHnpm, cAlloc, body);
    Append16(out, ibHnpm + 2, cFree, body + Le16(cAlloc));
    WriteOffsets(allocs, out, ibAlloc, ibHnpm + 4, body + Le16(cAlloc) + Le16(cFree));
    Regroup(body, Le16(cAlloc), Le16(cFree));
    Regroup(body, Le16(cAlloc) + Le16(cFree), Flatten(OffsetEntries(allocs, |ibAlloc|)));
  }

  lemma NextStart(allocs: seq<seq<Byte>>, i: nat)
    requires i < |allocs|
    ensures AllocStart(allocs, i + 1) == AllocStart(allocs, i) + |allocs[i]| <= HeapEnd(allocs)
    ensures Flatten(allocs[..i + 1]) == Flatten(allocs[..i]) + allocs[i]
  {
    assert allocs[..i + 1] == allocs[..i] + [allocs[i]];
    FlattenSnoc(allocs[..i], allocs[i]);
    StartsAreOrdered(allocs, i + 1, |allocs|);
  }

  method CountEmpty(allocs: seq<seq<Byte>>) returns (cFree: UInt16)
    requires |allocs| < 0xFFFF
    ensures cFree == EmptyCount(allocs)
  {
    cFree := 0;
    for i := 0 to |allocs|
      invariant cFree + EmptyCount(allocs[i..]) == EmptyCount(allocs)
      invariant cFree <= i
    {
      assert allocs[i..][1..] == allocs[i + 1..];
      if |allocs[i]| == 0 {
        cFree := cFree + 1;
      }
    }
  }

  lemma NoOffsets(allocs: seq<seq<Byte>>, buf: seq<Byte>, done: seq<Byte>)
    requires Filled(buf, done) && Fits(allocs)
    ensures Filled(buf, done + Flatten(OffsetEntries(allocs, 0)))
  {
    assert done + Flatten(OffsetEntries(allocs, 0)) == done;
  }

  method WriteOffsets(allocs: seq<seq<Byte>>, out: array<Byte>, ibAlloc: seq<UInt16>, off: nat, ghost done: seq<Byte>)
    requires Fits(allocs)
    requires |ibAlloc| == SlotCount(allocs) + 1
    requires forall k | 0 <= k < |ibAlloc| :: ibAlloc[k] == SlotOffset(allocs, k)
    requires |done| == off && out.Length == off + 2 * |ibAlloc|
    requires Filled(out[..], done)
    modifies out
    ensures out[..] == done + Flatten(OffsetEntries(allocs, |ibAlloc|))
  {
    hide Le16, Flatten, Filled;
    NoOffsets(allocs, out[..], done);
    for i := 0 to |ibAlloc|
      invariant Filled(out[..], done + Flatten(OffsetEntries(allocs, i)))
    {
      FlattenUniformLength(OffsetEntries(allocs, i), 2);
      Append16(out, off + i * 2, ibAlloc[i], done + Flatten(OffsetEntries(allocs, i)));
      assert OffsetEntries(allocs, i + 1) == OffsetEntries(allocs, i) + [Le16(ibAlloc[i])];
      FlattenSnoc(OffsetEntries(allocs, i), Le16(ibAlloc[i]));
      Regroup(done, Flatten(OffsetEntries(allocs, i)), Le16(ibAlloc[i]));
    }
    FlattenUniformLength(OffsetEntries(allocs, |ibAlloc|), 2);
    FilledUp(out[..], done + Flatten(OffsetEntries(allocs, |ibAlloc|)));
  }

  // ---- Reading a heap back ----

  datatype HeapError =
    | NotAHeapId
    | SlotZero
    | OtherBlock
    | SlotBeyondMap
    | MapEntryOutOfRange
    | BadAllocationBounds

  datatype HnSlice = HnSlice(off: nat, size: nat)

  function ResolveHid(hid: UInt32, hn: seq<Byte>, hnpmOff: nat, cAlloc: UInt16): (r: Result<HnSlice, HeapError>)
    ensures r.Success? ==> r.value.off + r.value.size <= |hn|
  {
    var hType := hid % 0x20;
    var hIdx := hid / 0x20 % 0x800;
    var hBlk := hid / 0x1_0000;
    if hType != 0 then Failure(NotAHeapId)
    else if hIdx == 0 then Failure(SlotZero)
    else if hBlk != 0 then Failure(OtherBlock)
    else if hIdx > cAlloc then Failure(SlotBeyondMap)
    else
      var startOff := hnpmOff + 4 + (hIdx - 1) * 2;
      var endOff := hnpmOff + 4 + hIdx * 2;
      if endOff + 2 > |hn| then Failure(MapEntryOutOfRange)
      else
        var s := ReadU16(hn, startOff);
        var e := ReadU16(hn, endOff);
        if e < s || e > |hn| then Failure(BadAllocationBounds)
        else Success(HnSlice(s, e - s))
  }

  function SliceBytes(hn: seq<Byte>, s: HnSlice): seq<Byte>
    requires s.off + s.size <= |hn|
  {
    hn[s.off..s.off + s.size]
  }

  lemma MapEntry(allocs: seq<seq<Byte>>, clientSig: Byte, userRoot: UInt32, fill: seq<Byte>, hn: seq<Byte>, i: nat)
    requires Fits(allocs) && |fill| == 4
    requires hn == HeapImage(allocs, clientSig, userRoot, fill)
    requires i <= SlotCount(allocs)
    ensures var at := PageMapOffset(allocs) + 4 + 2 * i;
            at + 2 <= |hn| && ReadU16(hn, at) == SlotOffset(allocs, i)
  {
    var n := SlotCount(allocs) + 1;
    var entries := OffsetEntries(allocs, n);
    FlattenUniformSlice(entries, 2, i);
    SlotOffsetFits(allocs, i);
    var table := Flatten(entries);
    var at := PageMapOffset(allocs) + 4 + 2 * i;
    assert hn[at..at + 2] == table[i * 2..i * 2 + 2] == Le16(SlotOffset(allocs, i));
    ReadsBack16(hn, at, SlotOffset(allocs, i));
  }

  /** The header of a built heap says where the map is, and the map how many slots there are. */
  lemma HeaderFields(allocs: seq<seq<Byte>>, clientSig: Byte, userRoot: UInt32, fill: seq<Byte>, hn: seq<Byte>)
    requires Fits(allocs) && |fill| == 4
    requires hn == HeapImage(allocs, clientSig, userRoot, fill)
    ensures |hn| == HeapImageSize(allocs) >= HN_HEADER_SIZE + 4
    ensures ReadU16(hn, 0) == PageMapOffset(allocs)
    ensures hn[2] == HN_SIGNATURE && hn[3] == clientSig && ReadU32(hn, 4) == userRoot
    ensures ReadU16(hn, PageMapOffset(allocs)) == SlotCount(allocs)
  {
    var m := PageMapOffset(allocs);
    assert hn[0..2] == Le16(m);
    ReadsBack16(hn, 0, m);
    assert hn[4..8] == Le32(userRoot);
    ReadsBack32(hn, 4, userRoot);
    assert hn[m..m + 2] == PageMap(allocs)[..2] == Le16(SlotCount(allocs));
    ReadsBack16(hn, m, SlotCount(allocs));
  }

  lemma SlotBytes(allocs: seq<seq<Byte>>, clientSig: Byte, userRoot: UInt32, fill: seq<Byte>, hn: seq<Byte>, i: nat)
    requires Fits(allocs) && |fill| == 4 && i < |allocs|
    requires hn == HeapImage(allocs, clientSig, userRoot, fill)
    ensures AllocStart(allocs, i) + |allocs[i]| <= |hn|
    ensures SliceBytes(hn, HnSlice(AllocStart(allocs, i), |allocs[i]|)) == allocs[i]
  {
    FlattenSlice(allocs, i);
    hide Flatten, PageMap;
    var start, size, flat := AllocStart(allocs, i), |allocs[i]|, Flatten(allocs);
    assert hn[HN_HEADER_SIZE..HN_HEADER_SIZE + |flat|] == flat;
    SubSlice(hn, HN_HEADER_SIZE, HN_HEADER_SIZE + |flat|, start - HN_HEADER_SIZE, start - HN_HEADER_SIZE + size);
  }

  /** Every slot that an 11-bit identifier can name resolves to exactly the bytes allocated there. */
  lemma SlotResolves(allocs: seq<seq<Byte>>, clientSig: Byte, userRoot: UInt32, fill: seq<Byte>, hn: seq<Byte>,
                     slot: nat)
    requires Fits(allocs) && |fill| == 4
    requires hn == HeapImage(allocs, clientSig, userRoot, fill)
    requires 1 <= slot <= |allocs| && slot < 0x800
    ensures var slice := HnSlice(AllocStart(allocs, slot - 1), |allocs[slot - 1]|);
            ResolveHid(MakeHid(slot), hn, PageMapOffset(allocs), SlotCount(allocs)) == Success(slice) &&
            slice.off + slice.size <= |hn| && SliceBytes(hn, slice) == allocs[slot - 1]
  {
    SlotBytes(allocs, clientSig, userRoot, fill, hn, slot - 1);
    MapEntry(allocs, clientSig, userRoot, fill, hn, slot - 1);
    MapEntry(allocs, clientSig, userRoot, fill, hn, slot);
    NextStart(allocs, slot - 1);
    ResolveByEntries(slot, hn, PageMapOffset(allocs), SlotCount(allocs), AllocStart(allocs, slot - 1),
                     AllocStart(allocs, slot));
  }

  lemma ResolveByEntries(slot: nat, hn: seq<Byte>, m: nat, cAlloc: UInt16, s: nat, e: nat)
    requires 1 <= slot <= cAlloc && slot < 0x800
    requires m + 4 + 2 * slot + 2 <= |hn|
    requires ReadU16(hn, m + 4 + 2 * (slot - 1)) == s <= ReadU16(hn, m + 4 + 2 * slot) == e <= |hn|
    ensures ResolveHid(MakeHid(slot), hn, m, cAlloc) == Success(HnSlice(s, e - s))
  {
  }

  // ---- The whole heap, byte by byte ----

  /** Entry `i` of the offset table behind the page map at `m`. */
  function EntryAt(hn: seq<Byte>, m: nat, i: nat): nat
    requires m + 6 + 2 * i <= |hn|
  {
    ReadU16(hn, m + 4 + 2 * i)
  }

  ghost function EmptyOnes(allocs: seq<seq<Byte>>, n: nat): set<nat>
    requires n <= |allocs|
  {
    set i | 0 <= i < n && allocs[i] == []
  }

  /** Slot `i` of the heap begins where its entry says, holds `part`, and ends where the next one begins. */
  predicate SlotHolds(hn: seq<Byte>, m: nat, i: nat, part: seq<Byte>)
    requires m + 8 + 2 * i <= |hn|
  {
    var at := EntryAt(hn, m, i);
    at + |part| == EntryAt(hn, m, i + 1) && at + |part| <= |hn| && hn[at..at + |part|] == part
  }

  predicate HeaderReads(hn: seq<Byte>, clientSig: Byte, userRoot: UInt32, fill: seq<Byte>) {
    |hn| >= 12 && hn[2] == 0xEC && hn[3] == clientSig && ReadU32(hn, 4) == userRoot && hn[8..12] == fill
  }

  /** Zeros up to a multiple of four, which are a slot of their own if there are any, and the counts in the map. */
  ghost predicate MapReads(hn: seq<Byte>, m: nat, allocs: seq<seq<Byte>>)
    requires m + 6 + 2 * |allocs| <= |hn|
  {
    var end := EntryAt(hn, m, |allocs|);
    var slots := if end == m then |allocs| else |allocs| + 1;
    && m % 4 == 0 && end <= m < end + 4 && hn[end..m] == Zeros(m - end)
    && |hn| == m + 6 + 2 * slots && ReadU16(hn, m) as nat == slots && EntryAt(hn, m, slots) == m
    && ReadU16(hn, m + 2) as nat == |EmptyOnes(allocs, |allocs|)|
  }

  /** Twelve bytes of header, the allocations one after the other, and the map of their offsets. */
  ghost predicate HeapReads(hn: seq<Byte>, allocs: seq<seq<Byte>>, clientSig: Byte, userRoot: UInt32, fill: seq<Byte>) {
    && HeaderReads(hn, clientSig, userRoot, fill)
    && var m := ReadU16(hn, 0) as nat;
    && m + 6 + 2 * |allocs| <= |hn| && EntryAt(hn, m, 0) == 12
    && (forall i | 0 <= i < |allocs| :: SlotHolds(hn, m, i, allocs[i]))
    && MapReads(hn, m, allocs)
  }

  lemma {:induction false} EmptyCounted(allocs: seq<seq<Byte>>, n: nat)
    requires n <= |allocs|
    ensures |EmptyOnes(allocs, n)| + EmptyCount(allocs[n..]) == EmptyCount(allocs)
  {
    if n == 0 {
      assert allocs[0..] == allocs;
    } else {
      EmptyCounted(allocs, n - 1);
      assert allocs[n - 1..][1..] == allocs[n..];
      if allocs[n - 1] == [] {
        assert EmptyOnes(allocs, n) == EmptyOnes(allocs, n - 1) + {n - 1};
      } else {
        assert EmptyOnes(allocs, n) == EmptyOnes(allocs, n - 1);
      }
    }
  }

  lemma MapCounts(allocs: seq<seq<Byte>>, clientSig: Byte, userRoot: UInt32, fill: seq<Byte>, hn: seq<Byte>)
    requires Fits(allocs) && |fill| == 4
    requires hn == HeapImage(allocs, clientSig, userRoot, fill)
    ensures var m := PageMapOffset(allocs);
            m + 4 <= |hn| && ReadU16(hn, m + 2) as nat == |EmptyOnes(allocs, |allocs|)|
  {
    var m := PageMapOffset(allocs);
    assert hn[m + 2..m + 4] == PageMap(allocs)[2..4] == Le16(EmptyCount(allocs));
    ReadsBack16(hn, m + 2, EmptyCount(allocs));
    EmptyCounted(allocs, |allocs|);
  }

  lemma HeapPads(allocs: seq<seq<Byte>>, clientSig: Byte, userRoot: UInt32, fill: seq<Byte>, hn: seq<Byte>)
    requires Fits(allocs) && |fill| == 4
    requires hn == HeapImage(allocs, clientSig, userRoot, fill)
    ensures hn[8..12] == fill
    ensures var end, m := HeapEnd(allocs), PageMapOffset(allocs);
            end <= m <= |hn| && hn[end..m] == Zeros(m - end)
  {
    hide PageMap;
    var end, m := HeapEnd(allocs), PageMapOffset(allocs);
    var front := HeaderImage(m, clientSig, userRoot, fill) + Flatten(allocs);
    assert hn[..m] == front + Zeros(m - end);
    assert hn[end..m] == (front + Zeros(m - end))[|front|..];
    assert hn[8..12] == HeaderImage(m, clientSig, userRoot, fill)[8..12];
  }

  lemma SlotIsHeld(allocs: seq<seq<Byte>>, clientSig: Byte, userRoot: UInt32, fill: seq<Byte>, hn: seq<Byte>, i: nat)
    requires Fits(allocs) && |fill| == 4 && i < |allocs|
    requires hn == HeapImage(allocs, clientSig, userRoot, fill)
    ensures PageMapOffset(allocs) + 8 + 2 * i <= |hn| && SlotHolds(hn, PageMapOffset(allocs), i, allocs[i])
  {
    hide HeapImage, ReadU16, Flatten, PageMapOffset;
    MapEntry(allocs, clientSig, userRoot, fill, hn, i);
    MapEntry(allocs, clientSig, userRoot, fill, hn, i + 1);
    NextStart(allocs, i);
    SlotBytes(allocs, clientSig, userRoot, fill, hn, i);
  }

  lemma MapIsRead(allocs: seq<seq<Byte>>, clientSig: Byte, userRoot: UInt32, fill: seq<Byte>, hn: seq<Byte>)
    requires Fits(allocs) && |fill| == 4
    requires hn == HeapImage(allocs, clientSig, userRoot, fill)
    ensures PageMapOffset(allocs) + 6 + 2 * |allocs| <= |hn| && MapReads(hn, PageMapOffset(allocs), allocs)
    ensures EntryAt(hn, PageMapOffset(allocs), 0) == 12
  {
    hide HeapImage, ReadU16, Flatten, EmptyOnes;
    HeaderFields(allocs, clientSig, userRoot, fill, hn);
    MapCounts(allocs, clientSig, userRoot, fill, hn);
    HeapPads(allocs, clientSig, userRoot, fill, hn);
    FirstStart(allocs);
    MapEntry(allocs, clientSig, userRoot, fill, hn, 0);
    MapEntry(allocs, clientSig, userRoot, fill, hn, |allocs|);
    MapEntry(allocs, clientSig, userRoot, fill, hn, SlotCount(allocs));
  }

  /** What the builder returns, read byte by byte. */
  lemma HeapIsRead(allocs: seq<seq<Byte>>, clientSig: Byte, userRoot: UInt32, fill: seq<Byte>, hn: seq<Byte>)
    requires Fits(allocs) && |fill| == 4
    requires hn == HeapImage(allocs, clientSig, userRoot, fill)
    ensures HeapReads(hn, allocs, clientSig, userRoot, fill)
  {
    hide HeapImage, ReadU16, ReadU32, Flatten, PageMapOffset, SlotHolds, MapReads, EntryAt;
    HeaderFields(allocs, clientSig, userRoot, fill, hn);
    HeapPads(allocs, clientSig, userRoot, fill, hn);
    MapIsRead(allocs, clientSig, userRoot, fill, hn);
    forall i | 0 <= i < |allocs| ensures SlotHolds(hn, PageMapOffset(allocs), i, allocs[i]) {
      SlotIsHeld(allocs, clientSig, userRoot, fill, hn, i);
    }
  }

  lemma FirstStart(allocs: seq<seq<Byte>>)
    ensures AllocStart(allocs, 0) == HN_HEADER_SIZE && AllocStart(allocs, |allocs|) == HeapEnd(allocs)
  {
    assert allocs[..0] == [] && allocs[..|allocs|] == allocs;
  }

  /** How a built heap begins. */
  lemma HeapBegins(allocs: seq<seq<Byte>>, clientSig: Byte, userRoot: UInt32, hn: seq<Byte>)
    requires Fits(allocs) && hn == HeapImage(allocs, clientSig, userRoot, NO_FILL)
    requires allocs != [] && |allocs[0]| == 8
    ensures |hn| >= 20 && hn[2] == 0xEC && hn[3] == clientSig && ReadU32(hn, 4) == userRoot && hn[8..12] == Zeros(4)
    ensures hn[12..20] == allocs[0]
  {
    hide HeapImage, ReadU16, ReadU32, MapReads, Fits;
    HeapIsRead(allocs, clientSig, userRoot, NO_FILL, hn);
    assert SlotHolds(hn, ReadU16(hn, 0), 0, allocs[0]);
  }
}
