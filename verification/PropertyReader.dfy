/** Reading a Property Context back, and why it undoes the writer (src/ltp.cpp). */
module PropertyReader {
  import opened Bytes
  import opened Heap
  import opened PropertyContext
  import opened Sorting
  import opened Wrappers
  import Bth

  datatype ReadValue =
    | InlineValue(bits: UInt32)
    | HeapValue(bytes: seq<Byte>)
    | SubnodeValue(nid: UInt32)

  datatype ReadProp = ReadProp(tag: UInt16, ptype: PropType, value: ReadValue)

  datatype ReadError =
    | BodyTooSmall
    | BadSignature
    | NotAPropertyContext
    | PageMapOutOfRange
    | PageMapTooLong
    | InHeap(heap: HeapError)
    | BadHeaderSize
    | BadBthType
    | BadKeyWidth
    | BadEntryWidth
    | HasIndexLevels
    | PartialRecord

  function Resolve(hid: UInt32, hn: seq<Byte>, ibHnpm: nat, cAlloc: UInt16): (r: Result<HnSlice, ReadError>)
    ensures r.Success? ==> r.value.off + r.value.size <= |hn|
  {
    match ResolveHid(hid, hn, ibHnpm, cAlloc)
    case Success(s) => Success(s)
    case Failure(e) => Failure(InHeap(e))
  }

  /** Finds the leaf records: the slice of the body they fill, or None when there is no leaf. */
  function FindLeaf(hn: seq<Byte>): (r: Result<Option<HnSlice>, ReadError>)
    ensures r.Success? ==> HN_HEADER_SIZE <= |hn|
    ensures r.Success? ==> ReadU16(hn, 0) + 4 <= |hn|
    ensures r.Success? && r.value.Some? ==>
              r.value.value.off + r.value.value.size <= |hn| && r.value.value.size % 8 == 0
  {
    if |hn| < HN_HEADER_SIZE then Failure(BodyTooSmall)
    else if hn[2] != HN_SIGNATURE then Failure(BadSignature)
    else if hn[3] != PC_CLIENT_SIG then Failure(NotAPropertyContext)
    else
      var ibHnpm := ReadU16(hn, 0);
      if ibHnpm + 4 > |hn| then Failure(PageMapOutOfRange)
      else
        var cAlloc := ReadU16(hn, ibHnpm);
        if ibHnpm + 4 + (cAlloc + 1) * 2 > |hn| then Failure(PageMapTooLong)
        else
          var hdr :- Resolve(ReadU32(hn, 4), hn, ibHnpm, cAlloc);
          if hdr.size != 8 then Failure(BadHeaderSize)
          else if hn[hdr.off] != Bth.BTH_SIGNATURE then Failure(BadBthType)
          else if hn[hdr.off + 1] != 2 then Failure(BadKeyWidth)
          else if hn[hdr.off + 2] != 6 then Failure(BadEntryWidth)
          else if hn[hdr.off + 3] != 0 then Failure(HasIndexLevels)
          else
            var hidRoot := ReadU32(hn, hdr.off + 4);
            if hidRoot / 0x20 % 0x800 == 0 then Success(None)
            else
              var leaf :- Resolve(hidRoot, hn, ibHnpm, cAlloc);
              if leaf.size % 8 != 0 then Failure(PartialRecord) else Success(Some(leaf))
  }

  /** One record; how its last four bytes are meant follows from the property type alone. */
  function DecodeRecord(hn: seq<Byte>, recOff: nat, ibHnpm: nat, cAlloc: UInt16): Result<ReadProp, ReadError>
    requires recOff + 8 <= |hn|
  {
    var tag, ptype := ReadU16(hn, recOff), ReadU16(hn, recOff + 2);
    var dwValueHnid := ReadU32(hn, recOff + 4);
    if IsSmallFixed(ptype) then Success(ReadProp(tag, ptype, InlineValue(dwValueHnid)))
    else if dwValueHnid % 0x20 == 0 then
      var s :- Resolve(dwValueHnid, hn, ibHnpm, cAlloc);
      Success(ReadProp(tag, ptype, HeapValue(SliceBytes(hn, s))))
    else Success(ReadProp(tag, ptype, SubnodeValue(dwValueHnid)))
  }

  /** Records from number `i` on; the first bad one decides the outcome. */
  function DecodeRecords(hn: seq<Byte>, leaf: HnSlice, i: nat, ibHnpm: nat,
                         cAlloc: UInt16): Result<seq<ReadProp>, ReadError>
    requires leaf.off + leaf.size <= |hn| && i * 8 <= leaf.size && leaf.size % 8 == 0
    decreases leaf.size - i * 8
  {
    if i * 8 == leaf.size then Success([])
    else
      var p :- DecodeRecord(hn, leaf.off + i * 8, ibHnpm, cAlloc);
      var rest :- DecodeRecords(hn, leaf, i + 1, ibHnpm, cAlloc);
      Success([p] + rest)
  }

  function PcContents(hn: seq<Byte>): Result<seq<ReadProp>, ReadError> {
    var found :- FindLeaf(hn);
    match found
    case None => Success([])
    case Some(leaf) =>
      var ibHnpm := ReadU16(hn, 0);
      DecodeRecords(hn, leaf, 0, ibHnpm, ReadU16(hn, ibHnpm))
  }

  method ReadPropertyContext(hn: seq<Byte>) returns (r: Result<seq<ReadProp>, ReadError>)
    ensures r == PcContents(hn)
  {
    var found := FindLeaf(hn);
    if found.Failure? {
      return Failure(found.error);
    }
    if found.value.None? {
      return Success([]);
    }
    var ibHnpm := ReadU16(hn, 0);
    r := DecodeLeaf(hn, found.value.value, ibHnpm, ReadU16(hn, ibHnpm));
  }

  method DecodeLeaf(hn: seq<Byte>, leaf: HnSlice, ibHnpm: nat, cAlloc: UInt16)
    returns (r: Result<seq<ReadProp>, ReadError>)
    requires leaf.off + leaf.size <= |hn| && leaf.size % 8 == 0
    ensures r == DecodeRecords(hn, leaf, 0, ibHnpm, cAlloc)
  {
    hide DecodeRecord;
    var out: seq<ReadProp> := [];
    var i := 0;
    ghost var all := DecodeRecords(hn, leaf, 0, ibHnpm, cAlloc);
    assert all.Success? ==> out + all.value == all.value;
    while i < leaf.size / 8
      invariant 0 <= i <= leaf.size / 8
      invariant match DecodeRecords(hn, leaf, i, ibHnpm, cAlloc)
                case Success(rest) => all == Success(out + rest)
                case Failure(e) => all == Failure(e)
    {
      var p := DecodeRecord(hn, leaf.off + i * 8, ibHnpm, cAlloc);
      if p.Failure? {
        return Failure(p.error);
      }
      ghost var after := DecodeRecords(hn, leaf, i + 1, ibHnpm, cAlloc);
      assert after.Success? ==> out + ([p.value] + after.value) == out + [p.value] + after.value;
      out := out + [p.value];
      i := i + 1;
    }
    assert out + [] == out;
    return Success(out);
  }

  // ---- The round trip ----

  /** What a reader sees of the s-th property. */
  function ReadBack(ps: seq<PcProperty>, first: UInt32, s: nat): ReadProp
    requires s < |ps| && SizesAgree(ps)
  {
    ReadProp(ps[s].tag, ps[s].ptype,
             if IsSmallFixed(ps[s].ptype) then InlineValue(ValueHnid(ps, first, s))
             else if Class(ps[s]) == HnAlloc then HeapValue(ps[s].value)
             else SubnodeValue(NidOf(ps[..s], first)))
  }

  /** What the caller stored: the packed value, the value's bytes, or the id of the subnode that carries them. */
  function Intended(ps: seq<PcProperty>, first: UInt32, s: nat): ReadProp
    requires s < |ps| && SizesAgree(ps)
  {
    ReadProp(ps[s].tag, ps[s].ptype,
             match Class(ps[s])
             case Inline => InlineValue(PackInline(ps[s].value))
             case HnAlloc => HeapValue(ps[s].value)
             case Subnode => SubnodeValue(NidOf(ps[..s], first)))
  }

  predicate ForcedSmall(p: PcProperty) {
    p.hint == ForceSubnode && IsSmallFixed(p.ptype)
  }

  lemma {:induction false} HeapValuesPrefix(ps: seq<PcProperty>, i: nat, j: nat)
    requires i <= j <= |ps|
    ensures HeapValues(ps[..i]) <= HeapValues(ps[..j])
    decreases j - i
  {
    if i >= j {
    } else {
      hide HeapValues, Class;
      HeapValuesPrefix(ps, i, j - 1);
      PrefixStep(ps, 0, j - 1);
    }
  }

  /** The slot number handed to a property is the position of its value among the allocations. */
  lemma SlotHoldsValue(ps: seq<PcProperty>, first: UInt32, s: nat)
    requires SizesAgree(ps) && s < |ps| && Class(ps[s]) == HnAlloc
    ensures 3 <= SlotOf(ps, s) <= |Allocs(ps, first)|
    ensures Allocs(ps, first)[SlotOf(ps, s) - 1] == ps[s].value
  {
    PrefixStep(ps, first, s);
    HeapValuesPrefix(ps, s + 1, |ps|);
    assert ps[..|ps|] == ps;
  }

  lemma RecordFields(hn: seq<Byte>, at: nat, tag: UInt16, ptype: UInt16, v: UInt32)
    requires at + 8 <= |hn| && hn[at..at + 8] == Le16(tag) + (Le16(ptype) + Le32(v))
    ensures ReadU16(hn, at) == tag && ReadU16(hn, at + 2) == ptype && ReadU32(hn, at + 4) == v
  {
    SubSlice(hn, at, at + 8, 0, 2);
    SubSlice(hn, at, at + 8, 2, 4);
    SubSlice(hn, at, at + 8, 4, 8);
    assert (Le16(tag) + (Le16(ptype) + Le32(v)))[2..4] == Le16(ptype);
    ReadsBack16(hn, at, tag);
    ReadsBack16(hn, at + 2, ptype);
    ReadsBack32(hn, at + 4, v);
  }

  lemma LeafRecordBytes(ps: seq<PcProperty>, first: UInt32, hn: seq<Byte>, off: nat, s: nat)
    requires Writable(ps, first) && s < |ps|
    requires off + 8 * |ps| <= |hn|
    requires hn[off..off + 8 * |ps|] == Flatten(Bth.Packed(Records(ps, first)))
    ensures ReadU16(hn, off + s * 8) == ps[s].tag
    ensures ReadU16(hn, off + s * 8 + 2) == ps[s].ptype
    ensures ReadU32(hn, off + s * 8 + 4) == ValueHnid(ps, first, s)
  {
    hide ValueHnid, ReadU16, ReadU32, Le16, Le32;
    FlattenUniformSlice(Bth.Packed(Records(ps, first)), 8, s);
    var at := off + s * 8;
    SubSlice(hn, off, off + 8 * |ps|, s * 8, s * 8 + 8);
    RecordFields(hn, at, ps[s].tag, ps[s].ptype, ValueHnid(ps, first, s));
  }

  lemma FindsLeaf(ps: seq<PcProperty>, first: UInt32, hn: seq<Byte>)
    requires Writable(ps, first) && hn == PcImage(ps, first)
    ensures |Allocs(ps, first)| >= 2
    ensures var start := AllocStart(Allocs(ps, first), 1);
            FindLeaf(hn) == Success(Some(HnSlice(start, 8 * |ps|))) &&
            start + 8 * |ps| <= |hn| &&
            hn[start..start + 8 * |ps|] == Flatten(Bth.Packed(Records(ps, first)))
    ensures |hn| >= PageMapOffset(Allocs(ps, first)) + 2 && ReadU16(hn, 0) == PageMapOffset(Allocs(ps, first))
    ensures ReadU16(hn, PageMapOffset(Allocs(ps, first))) == SlotCount(Allocs(ps, first))
  {
    var allocs := Allocs(ps, first);
    AllocsEnd(ps, first);
    FlattenUniformLength(Bth.Packed(Records(ps, first)), 8);
    FindsAllocated(allocs, hn, |ps|);
  }

  lemma FindsAllocated(allocs: seq<seq<Byte>>, hn: seq<Byte>, n: nat)
    requires Fits(allocs) && hn == HeapImage(allocs, PC_CLIENT_SIG, MakeHid(1), NO_FILL)
    requires |allocs| >= 2 && allocs[0] == Bth.Header(2, 6, 0, MakeHid(2)) && |allocs[1]| == 8 * n
    ensures var start := AllocStart(allocs, 1);
            FindLeaf(hn) == Success(Some(HnSlice(start, 8 * n))) &&
            start + 8 * n <= |hn| && hn[start..start + 8 * n] == allocs[1]
    ensures |hn| >= PageMapOffset(allocs) + 2 && ReadU16(hn, 0) == PageMapOffset(allocs)
    ensures ReadU16(hn, PageMapOffset(allocs)) == SlotCount(allocs)
  {
    hide HeapImage, ReadU16, ReadU32, ResolveHid, PageMapOffset, FindLeaf, AllocStart, SlotCount;
    HeaderFields(allocs, PC_CLIENT_SIG, MakeHid(1), NO_FILL, hn);
    SlotResolves(allocs, PC_CLIENT_SIG, MakeHid(1), NO_FILL, hn, 1);
    SlotResolves(allocs, PC_CLIENT_SIG, MakeHid(1), NO_FILL, hn, 2);
    FindLeafFrom(hn, PageMapOffset(allocs), SlotCount(allocs), HnSlice(AllocStart(allocs, 0), 8),
                 HnSlice(AllocStart(allocs, 1), 8 * n));
  }

  lemma FindLeafFrom(hn: seq<Byte>, m: UInt16, cAlloc: UInt16, hdr: HnSlice, leaf: HnSlice)
    requires |hn| >= HN_HEADER_SIZE && hn[2] == HN_SIGNATURE && hn[3] == PC_CLIENT_SIG
    requires ReadU16(hn, 0) == m && m + 4 + (cAlloc + 1) * 2 <= |hn| && ReadU16(hn, m) == cAlloc
    requires ReadU32(hn, 4) == MakeHid(1)
    requires ResolveHid(MakeHid(1), hn, m, cAlloc) == Success(hdr) && hdr.size == 8 && hdr.off + 8 <= |hn|
    requires SliceBytes(hn, hdr) == Bth.Header(2, 6, 0, MakeHid(2))
    requires ResolveHid(MakeHid(2), hn, m, cAlloc) == Success(leaf) && leaf.size % 8 == 0
    ensures FindLeaf(hn) == Success(Some(leaf))
  {
    hide ResolveHid;
    var h := SliceBytes(hn, hdr);
    assert hn[hdr.off] == h[0] && hn[hdr.off + 1] == h[1] && hn[hdr.off + 2] == h[2] && hn[hdr.off + 3] == h[3];
    assert hn[hdr.off + 4..hdr.off + 8] == h[4..8] == Le32(MakeHid(2));
    ReadsBack32(hn, hdr.off + 4, MakeHid(2));
  }

  lemma NidIsNotHid(before: seq<PcProperty>, first: UInt32)
    requires first % 0x20 != 0
    ensures NidOf(before, first) % 0x20 != 0
  {
    hide SubnodeCount;
    WrapKeepsLowBits(first, SubnodeCount(before));
  }

  lemma WrapKeepsLowBits(first: UInt32, n: nat)
    ensures (first + 0x20 * n) % 0x1_0000_0000 % 0x20 == first % 0x20
  {
    var q := (first + 0x20 * n) / 0x1_0000_0000;
    assert (first + 0x20 * n) % 0x1_0000_0000 == first + 0x20 * (n - 0x800_0000 * q);
  }

  lemma HidIsHid(slot: nat)
    requires slot < 0x1_0000
    ensures MakeHid(slot) % 0x20 == 0
  {
  }

  /** How a record decodes, by its type and its last four bytes. */
  lemma DecodesTo(hn: seq<Byte>, at: nat, m: nat, cAlloc: UInt16, tag: UInt16, ptype: UInt16, v: UInt32)
    requires at + 8 <= |hn|
    requires ReadU16(hn, at) == tag && ReadU16(hn, at + 2) == ptype && ReadU32(hn, at + 4) == v
    ensures IsSmallFixed(ptype) ==> DecodeRecord(hn, at, m, cAlloc) == Success(ReadProp(tag, ptype, InlineValue(v)))
    ensures !IsSmallFixed(ptype) && v % 0x20 == 0 && ResolveHid(v, hn, m, cAlloc).Success? ==>
              DecodeRecord(hn, at, m, cAlloc)
              == Success(ReadProp(tag, ptype, HeapValue(SliceBytes(hn, ResolveHid(v, hn, m, cAlloc).value))))
    ensures !IsSmallFixed(ptype) && v % 0x20 != 0 ==>
              DecodeRecord(hn, at, m, cAlloc) == Success(ReadProp(tag, ptype, SubnodeValue(v)))
  {
    hide ResolveHid, ReadU16, ReadU32, IsSmallFixed, SliceBytes;
  }

  lemma SmallSlotNumber(ps: seq<PcProperty>, first: UInt32, s: nat)
    requires Writable(ps, first) && s < |ps|
    ensures SlotOf(ps, s) < 0x800
  {
  }

  lemma RecordReadsBack(ps: seq<PcProperty>, first: UInt32, hn: seq<Byte>, s: nat)
    requires Writable(ps, first) && hn == PcImage(ps, first) && s < |ps|
    ensures var allocs := Allocs(ps, first);
            |allocs| >= 2 &&
            AllocStart(allocs, 1) + s * 8 + 8 <= |hn| &&
            DecodeRecord(hn, AllocStart(allocs, 1) + s * 8, PageMapOffset(allocs), SlotCount(allocs))
            == Success(ReadBack(ps, first, s))
  {
    hide DecodeRecord, ReadU16, ReadU32, ResolveHid, SliceBytes, HeapImage, FindLeaf, Flatten, AllocStart,
         PageMapOffset, SlotCount, IsSmallFixed, NidOf, MakeHid, PackInline, SlotOf, ResolveStorage, Allocs;
    var allocs := Allocs(ps, first);
    FindsLeaf(ps, first, hn);
    AllocsEnd(ps, first);
    var at, m, cAlloc := AllocStart(allocs, 1) + s * 8, PageMapOffset(allocs), SlotCount(allocs);
    LeafRecordBytes(ps, first, hn, AllocStart(allocs, 1), s);
    DecodesTo(hn, at, m, cAlloc, ps[s].tag, ps[s].ptype, ValueHnid(ps, first, s));
    if !IsSmallFixed(ps[s].ptype) {
      NotSmallNotInline(ps[s]);
      if Class(ps[s]) == HnAlloc {
        SlotHoldsValue(ps, first, s);
        SmallSlotNumber(ps, first, s);
        HidIsHid(SlotOf(ps, s));
        SlotResolves(allocs, PC_CLIENT_SIG, MakeHid(1), NO_FILL, hn, SlotOf(ps, s));
      } else {
        NidIsNotHid(ps[..s], first);
      }
    }
  }

  lemma NotSmallNotInline(p: PcProperty)
    requires !IsSmallFixed(p.ptype)
    ensures Class(p) != Inline
  {
  }

  function AllReadBack(ps: seq<PcProperty>, first: UInt32, i: nat): (rs: seq<ReadProp>)
    requires i <= |ps| && SizesAgree(ps)
    ensures |rs| == |ps| - i && forall k | 0 <= k < |rs| :: rs[k] == ReadBack(ps, first, i + k)
  {
    seq(|ps| - i, k requires 0 <= k < |ps| - i => ReadBack(ps, first, i + k))
  }

  lemma {:induction false} RecordsReadBack(ps: seq<PcProperty>, first: UInt32, hn: seq<Byte>, leaf: HnSlice, i: nat)
    requires Writable(ps, first) && hn == PcImage(ps, first) && i <= |ps|
    requires |Allocs(ps, first)| >= 2 && leaf == HnSlice(AllocStart(Allocs(ps, first), 1), 8 * |ps|)
    requires leaf.off + leaf.size <= |hn|
    ensures DecodeRecords(hn, leaf, i, PageMapOffset(Allocs(ps, first)), SlotCount(Allocs(ps, first)))
            == Success(AllReadBack(ps, first, i))
    decreases |ps| - i
  {
    hide DecodeRecord, Allocs, ReadBack;
    if i >= |ps| {
    } else {
      RecordReadsBack(ps, first, hn, i);
      RecordsReadBack(ps, first, hn, leaf, i + 1);
      assert AllReadBack(ps, first, i) == [ReadBack(ps, first, i)] + AllReadBack(ps, first, i + 1);
    }
  }

  /** Reading a written context gives its properties in ascending tag order. */
  lemma RoundTrip(ps: seq<PcProperty>, first: UInt32)
    requires Writable(ps, first)
    ensures PcContents(PcImage(ps, first)) == Success(AllReadBack(ps, first, 0))
  {
    var hn := PcImage(ps, first);
    FindsLeaf(ps, first, hn);
    RecordsReadBack(ps, first, hn, HnSlice(AllocStart(Allocs(ps, first), 1), 8 * |ps|), 0);
  }

  // ---- The same, for the lists callers pass ----

  function AllIntended(ps: seq<PcProperty>, first: UInt32): (rs: seq<ReadProp>)
    requires SizesAgree(ps)
    ensures |rs| == |ps| && forall s | 0 <= s < |ps| :: rs[s] == Intended(ps, first, s)
  {
    seq(|ps|, s requires 0 <= s < |ps| => Intended(ps, first, s))
  }

  lemma AcceptedIsWritable(props: seq<PcProperty>, first: UInt32)
    requires OffsetsFit(props, first) && PcOutcome(props, first).Success?
    ensures var ps := SortedCopy(props, Tag);
            Writable(ps, first) && PcOutcome(props, first).value == PcResult(PcImage(ps, first), Subnodes(ps, first)) &&
            |PcImage(ps, first)| <= MAX_BODY
  {
    SortedInput(props, SortedCopy(props, Tag), first);
  }

  /**
   What the reader recovers from any accepted list: every property, in ascending tag order, as it was stored --
   if and only if no small fixed-size property was forced into a subnode.
   */
  lemma WrittenIsRead(props: seq<PcProperty>, first: UInt32)
    requires OffsetsFit(props, first) && PcOutcome(props, first).Success?
    ensures var ps := SortedCopy(props, Tag);
            Writable(ps, first) &&
            (PcContents(PcOutcome(props, first).value.hn) == Success(AllIntended(ps, first))
             <==> forall p | p in props :: !ForcedSmall(p))
  {
    var ps := SortedCopy(props, Tag);
    AcceptedIsWritable(props, first);
    RoundTrip(ps, first);
    ListStoredAsRead(props, ps, first);
  }

  lemma ForcedSizes(p: PcProperty, first: UInt32)
    requires p.hint == ForceSubnode && SizesAgree([p])
    ensures HeapBytes([p]) == HN_HEADER_SIZE + 16 && HeapImageSize(Allocs([p], first)) <= MAX_BODY
  {
    assert [p][..0] == [];
    assert HeapBytes([]) == HN_HEADER_SIZE + 8;
    assert HeapValues([]) == HeapValues([p]) == [];
    AllocsEnd([p], first);
  }

  lemma ForcedIsAccepted(p: PcProperty, first: UInt32)
    requires p.hint == ForceSubnode && SizesAgree([p]) && p.value != [] && first % 0x20 != 0
    ensures OffsetsFit([p], first) && Writable([p], first)
    ensures PcOutcome([p], first) == Success(PcResult(PcImage([p], first), Subnodes([p], first)))
  {
    hide PcImage, HeapBytes, HeapImageSize, Allocs, Subnodes, FixedSize;
    ForcedSizes(p, first);
    assert [p][1..] == [] && [p][0] == p;
    assert ValueError([p][1..]).None?;
    SortedInput([p], [p], first);
  }

  /**
   The writer accepts a four-byte integer that is forced into a subnode, but the reader goes by the type and takes
   the subnode's id for the integer.
   */
  lemma ForcedIntegerIsLost(v: seq<Byte>, first: UInt32)
    requires |v| == 4 && first % 0x20 != 0
    ensures var forced := PcProperty(0x3001, 0x0003, v, ForceSubnode);
            OffsetsFit([forced], first) && PcOutcome([forced], first).Success? && Writable([forced], first) &&
            Intended([forced], first, 0) == ReadProp(0x3001, 0x0003, SubnodeValue(first)) &&
            PcContents(PcOutcome([forced], first).value.hn) == Success([ReadProp(0x3001, 0x0003, InlineValue(first))])
  {
    hide PcImage, PcContents, PcOutcome, Writable, OffsetsFit, FixedSize;
    var forced := PcProperty(0x3001, 0x0003, v, ForceSubnode);
    ThreeIsInteger();
    ForcedIsAccepted(forced, first);
    assert [forced][..0] == [];
    assert SubnodeCount([]) == 0;
    RoundTrip([forced], first);
    assert AllReadBack([forced], first, 0) == [ReadBack([forced], first, 0)];
  }

  lemma ThreeIsInteger()
    ensures FixedSize(0x0003) == 4
  {
  }

  /** The four bytes of an inline slot start with the caller's value; the rest are zeros. */
  lemma PackInlineKeepsBytes(value: seq<Byte>)
    requires |value| <= 4
    ensures Le32(PackInline(value)) == value + Zeros(4 - |value|)
    ensures Le32(PackInline(value))[..|value|] == value
  {
    var padded := value + Zeros(4 - |value|);
    WritesBack32(padded, 0);
    assert padded[0..4] == padded;
  }

  lemma ListStoredAsRead(props: seq<PcProperty>, ps: seq<PcProperty>, first: UInt32)
    requires SizesAgree(ps) && multiset(ps) == multiset(props)
    ensures AllReadBack(ps, first, 0) == AllIntended(ps, first) <==> forall p | p in props :: !ForcedSmall(p)
  {
    hide ReadBack, Intended, ForcedSmall;
    SameElements(ps, props);
    forall s | 0 <= s < |ps|
      ensures ReadBack(ps, first, s) == Intended(ps, first, s) <==> !ForcedSmall(ps[s])
    {
      StoredAsRead(ps, first, s);
    }
    if forall p | p in props :: !ForcedSmall(p) {
      assert forall s | 0 <= s < |ps| :: ps[s] in props;
      assert AllReadBack(ps, first, 0) == AllIntended(ps, first);
    } else {
      var p :| p in props && ForcedSmall(p);
      assert p in ps;
      var s :| 0 <= s < |ps| && ps[s] == p;
      assert AllReadBack(ps, first, 0)[s] != AllIntended(ps, first)[s];
    }
  }

  lemma StoredAsRead(ps: seq<PcProperty>, first: UInt32, s: nat)
    requires s < |ps| && SizesAgree(ps)
    ensures ReadBack(ps, first, s) == Intended(ps, first, s) <==> !ForcedSmall(ps[s])
  {
    hide PackInline, NidOf;
  }

  /** The id read for a promoted property names exactly the output entry that carries its value. */
  lemma SubnodeIdNamesEntry(ps: seq<PcProperty>, first: UInt32, s: nat)
    requires Writable(ps, first) && s < |ps| && Class(ps[s]) == Subnode
    ensures SubnodeOut(NidOf(ps[..s], first), ps[s].tag, ps[s].value) in Subnodes(ps, first)
    ensures forall e | e in Subnodes(ps, first) && e.nid == NidOf(ps[..s], first) ::
              e.tag == ps[s].tag && e.data == ps[s].value
  {
    hide Subnodes, NidOf, Class, Writable;
    var out, own := Subnodes(ps, first), SubnodeOut(NidOf(ps[..s], first), ps[s].tag, ps[s].value);
    assert own in out by {
      PrefixStep(ps, first, s);
      SubnodesPrefix(ps, first, s + 1, |ps|);
      assert ps[..|ps|] == ps;
      assert Subnodes(ps[..s + 1], first)[|Subnodes(ps[..s], first)|] == own;
    }
    assert |ps| < 0x800_0000 by { assert 8 * |ps| <= ALLOC_MAX by { WritableSize(ps, first); } }
    SubnodeIds(ps, first);
    IdsAreUnique(out, first, own);
  }

  lemma WritableSize(ps: seq<PcProperty>, first: UInt32)
    requires Writable(ps, first)
    ensures 8 * |ps| <= ALLOC_MAX
  {
  }

  lemma IdsAreUnique(out: seq<SubnodeOut>, first: UInt32, own: SubnodeOut)
    requires |out| < 0x800_0000 && own in out
    requires forall k | 0 <= k < |out| :: out[k].nid == (first + 0x20 * k) % 0x1_0000_0000
    ensures forall e | e in out && e.nid == own.nid :: e == own
  {
    var k :| 0 <= k < |out| && out[k] == own;
    forall e | e in out && e.nid == own.nid ensures e == own {
      var j :| 0 <= j < |out| && out[j] == e;
      IdsDiffer(first, j, k);
    }
  }

  lemma {:induction false} SubnodesPrefix(ps: seq<PcProperty>, first: UInt32, i: nat, j: nat)
    requires i <= j <= |ps|
    ensures Subnodes(ps[..i], first) <= Subnodes(ps[..j], first)
    decreases j - i
  {
    if i >= j {
    } else {
      hide Subnodes, NidOf, Class;
      SubnodesPrefix(ps, first, i, j - 1);
      PrefixStep(ps, first, j - 1);
      assert Subnodes(ps[..j - 1], first) <= Subnodes(ps[..j], first);
    }
  }

  /** The k-th subnode's id is k steps after the first. */
  lemma {:induction false} SubnodeIds(ps: seq<PcProperty>, first: UInt32)
    ensures |Subnodes(ps, first)| == SubnodeCount(ps)
    ensures forall k | 0 <= k < |Subnodes(ps, first)| ::
              Subnodes(ps, first)[k].nid == (first + 0x20 * k) % 0x1_0000_0000
  {
    if ps == [] {
    } else {
      SubnodeIds(ps[..|ps| - 1], first);
    }
  }

  lemma IdsDiffer(first: UInt32, j: nat, k: nat)
    requires j < 0x800_0000 && k < 0x800_0000
    requires (first + 0x20 * j) % 0x1_0000_0000 == (first + 0x20 * k) % 0x1_0000_0000
    ensures j == k
  {
  }

  /** Permuting an accepted list changes nothing in the outcome. */
  lemma OrderIsIrrelevant(a: seq<PcProperty>, b: seq<PcProperty>, first: UInt32)
    requires multiset(a) == multiset(b)
    requires OffsetsFit(a, first) && PcOutcome(a, first).Success?
    ensures OffsetsFit(b, first) && PcOutcome(b, first) == PcOutcome(a, first)
  {
    HeapBytesPermuted(a, b);
    SameElements(a, b);
    DistinctPermuted(a, b);
    NoValueError(a);
    NoValueError(b);
    SortForgetsOrder(a, b, Tag);
  }
}
