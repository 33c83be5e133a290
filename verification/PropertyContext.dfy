/** The Property Context writer and its reader (src/ltp.cpp; section 2.3.3 of [MS-PST]). */
module PropertyContext {
  import opened Bytes
  import opened Heap
  import opened Sorting
  import opened Wrappers
  import Bth

  const PC_CLIENT_SIG: Byte := 0xBC

  // ---- Property types and storage classes ----

  type PropType = UInt16

  /** The stored size of a fixed-size type; 0 for every other type. */
  function FixedSize(t: PropType): (n: nat)
    ensures n in {0, 1, 2, 4, 8, 16}
  {
    match t
    case 0x000B => 1
    case 0x0002 => 2
    case 0x0003 => 4
    case 0x0004 => 4
    case 0x000A => 4
    case 0x0014 => 8
    case 0x0005 => 8
    case 0x0006 => 8
    case 0x0007 => 8
    case 0x0040 => 8
    case 0x0048 => 16
    case _ => 0
  }

  predicate IsSmallFixed(t: PropType) {
    1 <= FixedSize(t) <= 4
  }

  datatype StorageHint = Auto | ForceSubnode

  datatype Storage = Inline | HnAlloc | Subnode

  datatype PcProperty = PcProperty(tag: UInt16, ptype: PropType, value: seq<Byte>, hint: StorageHint)

  datatype PcResult = PcResult(hn: seq<Byte>, subnodes: seq<SubnodeOut>)

  datatype PcError =
    | SubnodeNidIsHid
    | DuplicateTag
    | WrongFixedSize
    | EmptySubnode
    | LeafTooLarge
    | BodyTooLarge

  function ResolveStorage(t: PropType, size: nat, hint: StorageHint): Storage {
    if hint == ForceSubnode then Subnode
    else if FixedSize(t) != 0 then (if FixedSize(t) <= 4 then Inline else HnAlloc)
    else if size <= ALLOC_MAX then HnAlloc
    else Subnode
  }

  function Class(p: PcProperty): Storage {
    ResolveStorage(p.ptype, |p.value|, p.hint)
  }

  /** A small fixed-size value, zero-extended to its four-byte slot. */
  function PackInline(value: seq<Byte>): UInt32
    requires |value| <= 4
  {
    ReadU32(value + Zeros(4 - |value|), 0)
  }

  // ---- What the writer must produce, for properties in ascending tag order ----

  ghost const Tag: PcProperty -> int := (p: PcProperty) => p.tag

  /** The values that get a heap slot, in order. */
  function HeapValues(ps: seq<PcProperty>): (vs: seq<seq<Byte>>)
    ensures |vs| <= |ps|
  {
    if ps == [] then []
    else
      var p := ps[|ps| - 1];
      HeapValues(ps[..|ps| - 1]) + if Class(p) == HnAlloc then [p.value] else []
  }

  function SlotOf(ps: seq<PcProperty>, s: nat): nat
    requires s <= |ps|
  {
    3 + |HeapValues(ps[..s])|
  }

  /** The properties that become subnodes, numbered from `first` in steps of one node index. */
  function Subnodes(ps: seq<PcProperty>, first: UInt32): (out: seq<SubnodeOut>)
    ensures |out| <= |ps|
  {
    if ps == [] then []
    else
      var before := ps[..|ps| - 1];
      var p := ps[|ps| - 1];
      Subnodes(before, first) +
      if Class(p) == Subnode then [SubnodeOut(NidOf(before, first), p.tag, p.value)] else []
  }

  function SubnodeCount(ps: seq<PcProperty>): (n: nat)
    ensures n <= |ps|
  {
    if ps == [] then 0
    else SubnodeCount(ps[..|ps| - 1]) + if Class(ps[|ps| - 1]) == Subnode then 1 else 0
  }

  /** The node id the next subnode after `before` gets; the counter is 32 bits wide. */
  function NidOf(before: seq<PcProperty>, first: UInt32): UInt32 {
    (first + 0x20 * SubnodeCount(before)) % 0x1_0000_0000
  }

  ghost predicate SizesAgree(ps: seq<PcProperty>) {
    forall i | 0 <= i < |ps| :: FixedSize(ps[i].ptype) != 0 ==> |ps[i].value| == FixedSize(ps[i].ptype)
  }

  function ValueHnid(ps: seq<PcProperty>, first: UInt32, s: nat): UInt32
    requires s < |ps| && SizesAgree(ps)
  {
    match Class(ps[s])
    case Inline => PackInline(ps[s].value)
    case HnAlloc => MakeHid(SlotOf(ps, s) % 0x1_0000)
    case Subnode => NidOf(ps[..s], first)
  }

  function Record(ps: seq<PcProperty>, first: UInt32, s: nat): Bth.BthRecord
    requires s < |ps| && SizesAgree(ps)
  {
    Bth.BthRecord(Le16(ps[s].tag), Le16(ps[s].ptype) + Le32(ValueHnid(ps, first, s)))
  }

  function Records(ps: seq<PcProperty>, first: UInt32): (rs: seq<Bth.BthRecord>)
    requires SizesAgree(ps)
    ensures |rs| == |ps|
    ensures forall s | 0 <= s < |ps| :: rs[s] == Record(ps, first, s)
  {
    seq(|ps|, s requires 0 <= s < |ps| => Record(ps, first, s))
  }

  function Allocs(ps: seq<PcProperty>, first: UInt32): seq<seq<Byte>>
    requires SizesAgree(ps)
  {
    [Bth.Header(2, 6, 0, MakeHid(2)), Flatten(Bth.Packed(Records(ps, first)))] + HeapValues(ps)
  }

  /** The bytes the heap holds ahead of its map. */
  function HeapBytes(ps: seq<PcProperty>): nat {
    if ps == [] then HN_HEADER_SIZE + 8
    else
      var p := ps[|ps| - 1];
      HeapBytes(ps[..|ps| - 1]) + 8 + if Class(p) == HnAlloc then |p.value| else 0
  }

  lemma AllocsEnd(ps: seq<PcProperty>, first: UInt32)
    requires SizesAgree(ps)
    ensures HeapEnd(Allocs(ps, first)) == HeapBytes(ps)
    ensures |Allocs(ps, first)| == 2 + |HeapValues(ps)|
  {
    var packed := Bth.Packed(Records(ps, first));
    FlattenUniformLength(packed, 8);
    var hdr, leaf := Bth.Header(2, 6, 0, MakeHid(2)), Flatten(packed);
    FlattenAppend([hdr, leaf], HeapValues(ps));
    FlattenSnoc([hdr], leaf);
    FlattenOne(hdr);
    assert [hdr, leaf] == [hdr] + [leaf];
    HeapBytesSplit(ps);
  }

  lemma {:induction false} HeapBytesSplit(ps: seq<PcProperty>)
    ensures HeapBytes(ps) == HN_HEADER_SIZE + 8 + 8 * |ps| + |Flatten(HeapValues(ps))|
  {
    if ps != [] {
      var p := ps[|ps| - 1];
      HeapBytesSplit(ps[..|ps| - 1]);
      if Class(p) == HnAlloc {
        FlattenSnoc(HeapValues(ps[..|ps| - 1]), p.value);
      } else {
        assert HeapValues(ps) == HeapValues(ps[..|ps| - 1]);
      }
    }
  }

  ghost const LeafAndValue: PcProperty -> nat := (p: PcProperty) => 8 + if Class(p) == HnAlloc then |p.value| else 0

  lemma {:induction false} HeapBytesTotal(ps: seq<PcProperty>)
    ensures HeapBytes(ps) == HN_HEADER_SIZE + 8 + Total(ps, LeafAndValue)
  {
    hide Class;
    if ps == [] {
    } else {
      HeapBytesTotal(ps[..|ps| - 1]);
    }
  }

  /** The total does not depend on the order of the properties. */
  lemma HeapBytesPermuted(a: seq<PcProperty>, b: seq<PcProperty>)
    requires multiset(a) == multiset(b)
    ensures HeapBytes(a) == HeapBytes(b)
  {
    HeapBytesTotal(a);
    HeapBytesTotal(b);
    TotalPermuted(a, b, LeafAndValue);
  }

  // ---- The writer ----

  /** The first check that an input fails, in the order the writer makes them. */
  ghost function InputError(props: seq<PcProperty>, first: UInt32): Option<PcError> {
    if first % 0x20 == 0 then Some(SubnodeNidIsHid)
    else if !DistinctKeys(props, Tag) then Some(DuplicateTag)
    else ValueError(props)
  }

  function ValueError(props: seq<PcProperty>): Option<PcError> {
    if props == [] then None
    else if FixedSize(props[0].ptype) != 0 && |props[0].value| != FixedSize(props[0].ptype) then Some(WrongFixedSize)
    else if props[0].hint == ForceSubnode && |props[0].value| == 0 then Some(EmptySubnode)
    else ValueError(props[1..])
  }

  /**
   A list that passes all checks before the heap is laid out has room in it: heap offsets are 16-bit, and beyond
   them the writer copies outside its buffer. The body cap is only checked afterwards.
   */
  ghost predicate OffsetsFit(props: seq<PcProperty>, first: UInt32) {
    InputError(props, first).None? && 8 * |props| <= ALLOC_MAX ==> HeapBytes(props) <= MAX_HEAP_END
  }

  /** The writer's whole outcome as a function of its input. */
  ghost function PcOutcome(props: seq<PcProperty>, first: UInt32): (r: Result<PcResult, PcError>)
    requires OffsetsFit(props, first)
  {
    if InputError(props, first).Some? then Failure(InputError(props, first).value)
    else if 8 * |props| > ALLOC_MAX then Failure(LeafTooLarge)
    else
      var ps := SortedCopy(props, Tag);
      SortedInput(props, ps, first);
      if HeapImageSize(Allocs(ps, first)) > MAX_BODY then Failure(BodyTooLarge)
      else Success(PcResult(PcImage(ps, first), Subnodes(ps, first)))
  }

  ghost predicate Writable(ps: seq<PcProperty>, first: UInt32) {
    && first % 0x20 != 0
    && StrictlyAscending(ps, Tag)
    && SizesAgree(ps)
    && 8 * |ps| <= ALLOC_MAX
    && HeapBytes(ps) <= MAX_HEAP_END
  }

  function PcImage(ps: seq<PcProperty>, first: UInt32): seq<Byte>
    requires SizesAgree(ps) && 8 * |ps| <= ALLOC_MAX && HeapBytes(ps) <= MAX_HEAP_END
  {
    AllocsEnd(ps, first);
    HeapImage(Allocs(ps, first), PC_CLIENT_SIG, MakeHid(1), NO_FILL)
  }

  predicate ValueOk(p: PcProperty) {
    (FixedSize(p.ptype) != 0 ==> |p.value| == FixedSize(p.ptype)) && !(p.hint == ForceSubnode && |p.value| == 0)
  }

  lemma {:induction false} NoValueError(props: seq<PcProperty>)
    ensures ValueError(props).None? <==> forall p | p in props :: ValueOk(p)
    ensures ValueError(props).None? ==> SizesAgree(props)
  {
    if props == [] {
    } else {
      NoValueError(props[1..]);
      assert props == [props[0]] + props[1..];
      assert forall p | p in props :: p == props[0] || p in props[1..];
      assert props[0] in props && forall p | p in props[1..] :: p in props;
      assert ValueError(props).None? <==> ValueOk(props[0]) && forall p | p in props[1..] :: ValueOk(p);
      assert forall i | 0 <= i < |props| :: props[i] in props;
    }
  }

  lemma SortedInput(props: seq<PcProperty>, ps: seq<PcProperty>, first: UInt32)
    requires InputError(props, first).None? && 8 * |props| <= ALLOC_MAX && HeapBytes(props) <= MAX_HEAP_END
    requires Ascending(ps, Tag) && multiset(ps) == multiset(props)
    ensures Writable(ps, first) && ps == SortedCopy(props, Tag) && |ps| == |props|
  {
    SortedIsUnique(props, ps, Tag);
    HeapBytesPermuted(ps, props);
    NoValueError(props);
    SameElements(ps, props);
    forall i | 0 <= i < |ps| && FixedSize(ps[i].ptype) != 0 ensures |ps[i].value| == FixedSize(ps[i].ptype) {
      assert ps[i] in props;
    }
  }

  method BuildPropertyContext(props: seq<PcProperty>, first: UInt32) returns (r: Result<PcResult, PcError>)
    requires OffsetsFit(props, first)
    ensures r == PcOutcome(props, first)
  {
    if first % 0x20 == 0 {
      return Failure(SubnodeNidIsHid);
    }
    var sorted := Sort(props, (p: PcProperty) => p.tag);
    assert Ascending(sorted, Tag);
    var duplicate := HasEqualNeighbours(sorted);
    NeighboursDecide(props, sorted);
    if duplicate {
      return Failure(DuplicateTag);
    }
    var bad := CheckValues(props);
    if bad.Some? {
      return Failure(bad.value);
    }
    r := StoreSorted(props, sorted, first);
  }

  lemma SizesAgreeSorted(props: seq<PcProperty>, sorted: seq<PcProperty>)
    requires ValueError(props).None? && multiset(sorted) == multiset(props)
    ensures |sorted| == |props| && SizesAgree(sorted)
  {
    NoValueError(props);
    SameElements(sorted, props);
    forall i | 0 <= i < |sorted| && FixedSize(sorted[i].ptype) != 0
      ensures |sorted[i].value| == FixedSize(sorted[i].ptype)
    {
      assert sorted[i] in props;
    }
  }

  method StoreSorted(ghost props: seq<PcProperty>, sorted: seq<PcProperty>, first: UInt32)
    returns (r: Result<PcResult, PcError>)
    requires InputError(props, first).None? && OffsetsFit(props, first)
    requires Ascending(sorted, Tag) && multiset(sorted) == multiset(props)
    ensures r == PcOutcome(props, first)
  {
    assert ValueError(props).None?;
    hide InputError, ValueError, HeapBytes, Subnodes, HeapValues, SortedCopy;
    SizesAgreeSorted(props, sorted);
    var records, values, subnodes := Assign(sorted, first);
    var leaf := Bth.BuildLeafRecords(records, 2, 6);
    if leaf.Failure? {
      return Failure(LeafTooLarge);
    }
    SortedInput(props, sorted, first);
    LeafIsPacked(sorted, first, leaf.value);
    AllocsEnd(sorted, first);
    var hn := BuildHeapOnNode([Bth.Header(2, 6, 0, MakeHid(2)), leaf.value] + values, PC_CLIENT_SIG, MakeHid(1),
                              NO_FILL);
    if |hn| > MAX_BODY {
      return Failure(BodyTooLarge);
    }
    return Success(PcResult(hn, subnodes));
  }

  method HasEqualNeighbours(sorted: seq<PcProperty>) returns (found: bool)
    ensures found <==> exists i | 1 <= i < |sorted| :: sorted[i].tag == sorted[i - 1].tag
  {
    var i := 1;
    while i < |sorted|
      invariant forall k | 1 <= k < i && k < |sorted| :: sorted[k].tag != sorted[k - 1].tag
    {
      if sorted[i].tag == sorted[i - 1].tag {
        return true;
      }
      i := i + 1;
    }
    return false;
  }

  lemma NeighboursDecide(props: seq<PcProperty>, sorted: seq<PcProperty>)
    requires Ascending(sorted, Tag) && multiset(sorted) == multiset(props)
    ensures DistinctKeys(props, Tag) <==> forall i | 1 <= i < |sorted| :: sorted[i].tag != sorted[i - 1].tag
  {
    if DistinctKeys(props, Tag) {
      AscendingDistinct(props, sorted, Tag);
    }
    if forall i | 1 <= i < |sorted| :: sorted[i].tag != sorted[i - 1].tag {
      assert forall i | 1 <= i < |sorted| :: Tag(sorted[i - 1]) <= Tag(sorted[i]);
      forall i, j | 0 <= i < j < |sorted| ensures Tag(sorted[i]) < Tag(sorted[j]) {
        assert Tag(sorted[i]) <= Tag(sorted[j - 1]) < Tag(sorted[j]);
      }
      assert DistinctKeys(sorted, Tag);
      DistinctPermuted(sorted, props);
    }
  }

  lemma DistinctPermuted(a: seq<PcProperty>, b: seq<PcProperty>)
    requires multiset(a) == multiset(b) && DistinctKeys(a, Tag)
    ensures DistinctKeys(b, Tag)
  {
    forall i, j | 0 <= i < j < |b| ensures Tag(b[i]) != Tag(b[j]) {
      NoTwins(a, b, Tag, i, j);
    }
  }

  method CheckValues(props: seq<PcProperty>) returns (bad: Option<PcError>)
    ensures bad == ValueError(props)
  {
    for i := 0 to |props|
      invariant ValueError(props) == ValueError(props[i..])
    {
      var p := props[i];
      assert props[i..][0] == p && props[i..][1..] == props[i + 1..];
      if FixedSize(p.ptype) != 0 && |p.value| != FixedSize(p.ptype) {
        return Some(WrongFixedSize);
      }
      if p.hint == ForceSubnode && |p.value| == 0 {
        return Some(EmptySubnode);
      }
    }
    return None;
  }

  /** Hands out heap slots and subnode ids and encodes the leaf records, in one pass over the sorted list. */
  method Assign(ps: seq<PcProperty>, first: UInt32)
    returns (records: seq<Bth.BthRecord>, values: seq<seq<Byte>>, subnodes: seq<SubnodeOut>)
    requires SizesAgree(ps)
    ensures records == Records(ps, first) && values == HeapValues(ps) && subnodes == Subnodes(ps, first)
  {
    ghost var all := Records(ps, first);
    hide Class, NidOf, MakeHid, PackInline, HeapValues, Subnodes, ValueHnid, Le16, Le32, SlotOf, SizesAgree;
    records, values, subnodes := [], [], [];
    var nextHidIndex: nat := 3;
    var nextNid: UInt32 := first;
    NothingAssigned(ps, first);
    for s := 0 to |ps|
      invariant records == all[..s]
      invariant values == HeapValues(ps[..s]) && subnodes == Subnodes(ps[..s], first)
      invariant nextHidIndex == SlotOf(ps, s) && nextNid == NidOf(ps[..s], first)
    {
      assert all[s] == Record(ps, first, s);
      var dwValueHnid, valueOut, subnodeOut := AssignOne(ps, first, s, nextHidIndex, nextNid);
      if valueOut != [] {
        nextHidIndex := nextHidIndex + 1;
      }
      if subnodeOut != [] {
        nextNid := (nextNid + 0x20) % 0x1_0000_0000;
      }
      values, subnodes := values + valueOut, subnodes + subnodeOut;
      records := records + [Bth.BthRecord(Le16(ps[s].tag), Le16(ps[s].ptype) + Le32(dwValueHnid))];
    }
    assert ps[..|ps|] == ps;
  }

  lemma NothingAssigned(ps: seq<PcProperty>, first: UInt32)
    ensures HeapValues(ps[..0]) == [] && Subnodes(ps[..0], first) == []
    ensures SlotOf(ps, 0) == 3 && NidOf(ps[..0], first) == first
  {
  }

  method AssignOne(ps: seq<PcProperty>, first: UInt32, s: nat, nextHidIndex: nat, nextNid: UInt32)
    returns (dwValueHnid: UInt32, valueOut: seq<seq<Byte>>, subnodeOut: seq<SubnodeOut>)
    requires s < |ps| && SizesAgree(ps)
    requires nextHidIndex == SlotOf(ps, s) && nextNid == NidOf(ps[..s], first)
    ensures dwValueHnid == ValueHnid(ps, first, s)
    ensures HeapValues(ps[..s + 1]) == HeapValues(ps[..s]) + valueOut
    ensures SlotOf(ps, s + 1) == if valueOut == [] then nextHidIndex else nextHidIndex + 1
    ensures Subnodes(ps[..s + 1], first) == Subnodes(ps[..s], first) + subnodeOut
    ensures NidOf(ps[..s + 1], first) == if subnodeOut == [] then nextNid else (nextNid + 0x20) % 0x1_0000_0000
  {
    hide ResolveStorage, NidOf, MakeHid, PackInline, HeapValues, Subnodes;
    var p := ps[s];
    PrefixStep(ps, first, s);
    NidSteps(ps[..s], ps[..s + 1], first);
    valueOut, subnodeOut := [], [];
    match Class(p) {
      case Inline =>
        InlineIsSmall(p);
        dwValueHnid := PackInline(p.value);
      case HnAlloc =>
        dwValueHnid := MakeHid(nextHidIndex % 0x1_0000);
        valueOut := [p.value];
      case Subnode =>
        dwValueHnid := nextNid;
        subnodeOut := [SubnodeOut(nextNid, p.tag, p.value)];
    }
  }

  lemma PrefixStep(ps: seq<PcProperty>, first: UInt32, s: nat)
    requires s < |ps|
    ensures HeapValues(ps[..s + 1]) == HeapValues(ps[..s]) + if Class(ps[s]) == HnAlloc then [ps[s].value] else []
    ensures Subnodes(ps[..s + 1], first) == Subnodes(ps[..s], first) +
              if Class(ps[s]) == Subnode then [SubnodeOut(NidOf(ps[..s], first), ps[s].tag, ps[s].value)] else []
    ensures SubnodeCount(ps[..s + 1]) == SubnodeCount(ps[..s]) + if Class(ps[s]) == Subnode then 1 else 0
  {
    hide NidOf, ResolveStorage, Class;
    var upTo := ps[..s + 1];
    assert upTo[..|upTo| - 1] == ps[..s] && upTo[|upTo| - 1] == ps[s];
  }

  lemma NidSteps(before: seq<PcProperty>, upTo: seq<PcProperty>, first: UInt32)
    ensures NidOf([], first) == first
    ensures SubnodeCount(upTo) == SubnodeCount(before) ==> NidOf(upTo, first) == NidOf(before, first)
    ensures SubnodeCount(upTo) == SubnodeCount(before) + 1 ==>
              NidOf(upTo, first) == (NidOf(before, first) + 0x20) % 0x1_0000_0000
  {
  }

  lemma InlineIsSmall(p: PcProperty)
    requires FixedSize(p.ptype) != 0 ==> |p.value| == FixedSize(p.ptype)
    requires Class(p) == Inline
    ensures |p.value| <= 4 && IsSmallFixed(p.ptype)
  {
  }

  lemma LeafIsPacked(ps: seq<PcProperty>, first: UInt32, leaf: seq<Byte>)
    requires Writable(ps, first)
    requires exists order: seq<Bth.BthRecord> ::
               multiset(order) == multiset(Records(ps, first)) && Ascending(order, Bth.RecordKey) &&
               leaf == Flatten(Bth.Packed(order))
    ensures leaf == Flatten(Bth.Packed(Records(ps, first)))
  {
    var rs := Records(ps, first);
    var order: seq<Bth.BthRecord> :|
      multiset(order) == multiset(rs) && Ascending(order, Bth.RecordKey) && leaf == Flatten(Bth.Packed(order));
    forall i, j | 0 <= i < j < |rs| ensures Bth.RecordKey(rs[i]) < Bth.RecordKey(rs[j]) {
      TagKey(ps[i].tag);
      TagKey(ps[j].tag);
      assert Tag(ps[i]) < Tag(ps[j]);
    }
    Bth.PackedInOrder(rs, order);
  }

  lemma TagKey(tag: UInt16)
    ensures Bth.KeyValue(Le16(tag)) == tag
  {
    var k := Le16(tag);
    assert k[1..] == [k[1]] && [k[1]][1..] == [];
    assert Bth.KeyValue([k[1]]) == k[1];
  }
}
