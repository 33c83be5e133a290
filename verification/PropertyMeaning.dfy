/**
 What a property list means on disk, said of the finished heap and the reader alone: which values leave the heap,
 what every property reads back as, and which lists are accepted (src/ltp.cpp; section 2.3.3.3 of [MS-PST]).
 */
module PropertyMeaning {
  import opened Bytes
  import opened Heap
  import opened PropertyContext
  import opened PropertyReader
  import opened Sorting
  import opened Wrappers

  // ---- Types and widths ----

  /** Every fixed-size type with its width; all other types have values of any length. */
  const FIXED_TYPES: set<(int, int)> := {
    (0x000B, 1), (0x0002, 2), (0x0003, 4), (0x0004, 4), (0x000A, 4),
    (0x0014, 8), (0x0005, 8), (0x0006, 8), (0x0007, 8), (0x0040, 8), (0x0048, 16)}

  predicate HasWidth(t: PropType, w: int) {
    (t as int, w) in FIXED_TYPES
  }

  predicate Variable(t: PropType) {
    forall x | x in FIXED_TYPES :: x.0 != t as int
  }

  predicate Small(t: PropType) {
    HasWidth(t, 1) || HasWidth(t, 2) || HasWidth(t, 4)
  }

  lemma WidthsAre(t: PropType)
    ensures Variable(t) <==> FixedSize(t) == 0
    ensures forall w :: HasWidth(t, w) <==> w == FixedSize(t) && w != 0
    ensures Small(t) <==> IsSmallFixed(t)
  {
    if FixedSize(t) != 0 {
      assert (t as int, FixedSize(t)) in FIXED_TYPES;
    }
  }

  // ---- Which values leave the heap ----

  /** Forced out, or of no fixed size and longer than 3580 bytes. */
  predicate LeavesHeap(p: PcProperty) {
    p.hint == ForceSubnode || (Variable(p.ptype) && |p.value| > 3580)
  }

  lemma ClassIs(p: PcProperty)
    ensures Class(p) == Subnode <==> LeavesHeap(p)
    ensures Class(p) == Inline <==> !LeavesHeap(p) && Small(p.ptype)
  {
    WidthsAre(p.ptype);
  }

  /** Every output entry comes from a property whose value leaves the heap. */
  lemma {:induction false} SubnodesFrom(ps: seq<PcProperty>, first: UInt32, e: SubnodeOut)
    requires e in Subnodes(ps, first)
    ensures exists s :: 0 <= s < |ps| && LeavesHeap(ps[s]) && ps[s].tag == e.tag && ps[s].value == e.data
  {
    hide Class, LeavesHeap, NidOf;
    var n := |ps| - 1;
    ClassIs(ps[n]);
    if e in Subnodes(ps[..n], first) {
      SubnodesFrom(ps[..n], first, e);
      var s :| 0 <= s < n && LeavesHeap(ps[..n][s]) && ps[..n][s].tag == e.tag && ps[..n][s].value == e.data;
      assert ps[s] == ps[..n][s];
    }
  }

  lemma SamePlace(ps: seq<PcProperty>, i: nat, j: nat)
    requires StrictlyAscending(ps, Tag) && i < |ps| && j < |ps| && ps[i].tag == ps[j].tag
    ensures i == j
  {
    var ti, tj := Tag(ps[i]), Tag(ps[j]);
    assert ti == tj;
  }

  /** Output entries are numbered from `first` in steps of 32, in the order of their tags. */
  lemma {:induction false} SubnodesNumbered(ps: seq<PcProperty>, first: UInt32)
    ensures |Subnodes(ps, first)| == SubnodeCount(ps)
    ensures forall k | 0 <= k < |Subnodes(ps, first)| ::
              Subnodes(ps, first)[k].nid as int == (first + 32 * k) % 0x1_0000_0000
  {
    hide Class;
    if ps == [] {
    } else {
      SubnodesNumbered(ps[..|ps| - 1], first);
    }
  }

  lemma {:induction false} SubnodesAscend(ps: seq<PcProperty>, first: UInt32)
    requires StrictlyAscending(ps, Tag)
    ensures forall i, j | 0 <= i < j < |Subnodes(ps, first)| :: Subnodes(ps, first)[i].tag < Subnodes(ps, first)[j].tag
  {
    hide Class, NidOf;
    if ps == [] {
    } else {
      var n := |ps| - 1;
      var before, out := Subnodes(ps[..n], first), Subnodes(ps, first);
      SubnodesAscend(ps[..n], first);
      forall i, j | 0 <= i < j < |out| ensures out[i].tag < out[j].tag {
        if j >= |before| {
          SubnodesFrom(ps[..n], first, before[i]);
          var s :| 0 <= s < n && ps[..n][s].tag == before[i].tag;
          assert Tag(ps[s]) < Tag(ps[n]);
        }
      }
    }
  }

  /** A tag is among the output entries exactly when its value leaves the heap, and then with that value. */
  lemma SubnodesExactly(props: seq<PcProperty>, first: UInt32)
    requires OffsetsFit(props, first) && PcOutcome(props, first).Success?
    ensures var out := PcOutcome(props, first).value.subnodes;
            && (forall p | p in props :: LeavesHeap(p) <==> exists e :: e in out && e.tag == p.tag)
            && (forall p, e | p in props && e in out && e.tag == p.tag :: e.data == p.value)
            && (forall e | e in out :: exists p :: p in props && p.tag == e.tag)
            && (forall i, j | 0 <= i < j < |out| :: out[i].tag < out[j].tag)
            && (forall k | 0 <= k < |out| :: out[k].nid as int == (first + 32 * k) % 0x1_0000_0000)
  {
    hide Subnodes, PcImage, LeavesHeap, Class, NidOf, Writable, SortedCopy, SubnodeCount;
    SubnodesNumbered(SortedCopy(props, Tag), first);
    var ps := SortedCopy(props, Tag);
    AcceptedIsWritable(props, first);
    WritableAscends(ps, first);
    SubnodesAscend(ps, first);
    SameElements(ps, props);
    var out := Subnodes(ps, first);
    forall p | p in props ensures LeavesHeap(p) <==> exists e :: e in out && e.tag == p.tag {
      var s :| 0 <= s < |ps| && ps[s] == p;
      ClassIs(p);
      if LeavesHeap(p) {
        SubnodeIdNamesEntry(ps, first, s);
        assert SubnodeOut(NidOf(ps[..s], first), p.tag, p.value) in out;
      }
      forall e | e in out && e.tag == p.tag ensures LeavesHeap(p) && e.data == p.value {
        SubnodesFrom(ps, first, e);
        var k :| 0 <= k < |ps| && LeavesHeap(ps[k]) && ps[k].tag == e.tag && ps[k].value == e.data;
        SamePlace(ps, s, k);
      }
    }
    forall p, e | p in props && e in out && e.tag == p.tag ensures e.data == p.value {
      var s :| 0 <= s < |ps| && ps[s] == p;
      SubnodesFrom(ps, first, e);
      var k :| 0 <= k < |ps| && LeavesHeap(ps[k]) && ps[k].tag == e.tag && ps[k].value == e.data;
      SamePlace(ps, s, k);
    }
    forall e | e in out ensures exists p :: p in props && p.tag == e.tag {
      SubnodesFrom(ps, first, e);
      var k :| 0 <= k < |ps| && LeavesHeap(ps[k]) && ps[k].tag == e.tag && ps[k].value == e.data;
      assert ps[k] in props;
    }
  }

  lemma WritableAscends(ps: seq<PcProperty>, first: UInt32)
    requires Writable(ps, first)
    ensures StrictlyAscending(ps, Tag) && SizesAgree(ps)
  {
  }

  // ---- What every property reads back as ----

  /** The property as a reader finds it, its promoted value among the output entries. */
  ghost predicate ReadsFor(p: PcProperty, r: ReadProp, out: seq<SubnodeOut>) {
    && r.tag == p.tag && r.ptype == p.ptype
    && if Small(p.ptype) then
         && r.value.InlineValue?
         && (!LeavesHeap(p) ==> |p.value| <= 4 && Le32(r.value.bits) == p.value + Zeros(4 - |p.value|))
       else if LeavesHeap(p) then
         && r.value.SubnodeValue?
         && (exists e :: e in out && e.nid == r.value.nid)
         && (forall e | e in out && e.nid == r.value.nid :: e.tag == p.tag && e.data == p.value)
       else r.value == HeapValue(p.value)
  }

  lemma PropertyReads(ps: seq<PcProperty>, first: UInt32, s: nat)
    requires Writable(ps, first) && SizesAgree(ps) && s < |ps|
    ensures ReadsFor(ps[s], ReadBack(ps, first, s), Subnodes(ps, first))
  {
    hide Subnodes, NidOf, Writable, PackInline, ResolveStorage, LeavesHeap, FixedSize, MakeHid;
    var p := ps[s];
    ClassIs(p);
    WidthsAre(p.ptype);
    if Small(p.ptype) {
      if !LeavesHeap(p) {
        InlineIsSmall(p);
        PackInlineKeepsBytes(p.value);
      }
    } else if LeavesHeap(p) {
      SubnodeIdNamesEntry(ps, first, s);
    }
  }

  /**
   Reading an accepted list: its properties in strictly ascending order of their tags, small fixed values inline,
   values that left the heap by the id of their subnode, all others byte for byte from the heap.
   */
  lemma ListReads(props: seq<PcProperty>, first: UInt32)
    requires OffsetsFit(props, first) && PcOutcome(props, first).Success?
    ensures var res := PcOutcome(props, first).value;
            match PcContents(res.hn)
            case Failure(_) => false
            case Success(rs) =>
              && |rs| == |props|
              && (forall i, j | 0 <= i < j < |rs| :: rs[i].tag < rs[j].tag)
              && forall p | p in props :: exists i :: 0 <= i < |rs| && ReadsFor(p, rs[i], res.subnodes)
  {
    hide PcImage, Subnodes, ReadsFor, Writable, SortedCopy, PcContents, ReadBack;
    var ps := SortedCopy(props, Tag);
    AcceptedIsWritable(props, first);
    WritableAscends(ps, first);
    RoundTrip(ps, first);
    SameElements(ps, props);
    var rs := AllReadBack(ps, first, 0);
    forall i, j | 0 <= i < j < |rs| ensures rs[i].tag < rs[j].tag {
      ReadTag(ps, first, i);
      ReadTag(ps, first, j);
      assert Tag(ps[i]) < Tag(ps[j]);
    }
    forall p | p in props ensures exists i :: 0 <= i < |rs| && ReadsFor(p, rs[i], Subnodes(ps, first)) {
      var s :| 0 <= s < |ps| && ps[s] == p;
      PropertyReads(ps, first, s);
      assert ReadsFor(p, rs[s], Subnodes(ps, first));
    }
  }

  lemma ReadTag(ps: seq<PcProperty>, first: UInt32, s: nat)
    requires s < |ps| && SizesAgree(ps)
    ensures ReadBack(ps, first, s).tag == ps[s].tag
  {
    hide ValueHnid, NidOf, Class;
  }

  // ---- Which lists are accepted ----

  /** The value is kept in the heap, in a slot of its own. */
  predicate KeptInHeap(p: PcProperty) {
    !LeavesHeap(p) && !Small(p.ptype)
  }

  ghost const KeptBytes: PcProperty -> nat := (p: PcProperty) => if KeptInHeap(p) then |p.value| else 0
  ghost const KeptSlots: PcProperty -> nat := (p: PcProperty) => if KeptInHeap(p) then 1 else 0

  /** Header, index header, eight bytes a property and the kept values, padded to four; then the map of the slots. */
  ghost function HeapLength(props: seq<PcProperty>): nat {
    var end := 12 + 8 + 8 * |props| + Total(props, KeptBytes);
    var pad := (4 - end % 4) % 4;
    var slots := 2 + Total(props, KeptSlots) + if pad > 0 then 1 else 0;
    end + pad + 4 + 2 * (slots + 1)
  }

  predicate ValueFits(p: PcProperty) {
    && (forall x | x in FIXED_TYPES && x.0 == p.ptype as int :: |p.value| == x.1)
    && (p.hint == ForceSubnode ==> p.value != [])
  }

  lemma ValueFitsIs(p: PcProperty)
    ensures ValueFits(p) <==> ValueOk(p)
  {
    WidthsAre(p.ptype);
    if FixedSize(p.ptype) != 0 {
      assert HasWidth(p.ptype, FixedSize(p.ptype));
    }
    forall x | x in FIXED_TYPES && x.0 == p.ptype as int ensures x.1 == FixedSize(p.ptype) {
      assert HasWidth(p.ptype, x.1);
    }
  }

  lemma {:induction false} SlotsCounted(ps: seq<PcProperty>)
    ensures |HeapValues(ps)| == Total(ps, KeptSlots) && HeapBytes(ps) == 20 + 8 * |ps| + Total(ps, KeptBytes)
  {
    hide Class, LeavesHeap, Small;
    if ps == [] {
    } else {
      SlotsCounted(ps[..|ps| - 1]);
      ClassIs(ps[|ps| - 1]);
    }
  }

  lemma HeapLengthIs(props: seq<PcProperty>, ps: seq<PcProperty>, first: UInt32)
    requires multiset(ps) == multiset(props) && SizesAgree(ps)
    ensures HeapImageSize(Allocs(ps, first)) == HeapLength(props)
  {
    hide Allocs, HeapValues, HeapBytes, Total, KeptBytes, KeptSlots, Class;
    SameLength(ps, props);
    SlotsCounted(ps);
    TotalPermuted(ps, props, KeptBytes);
    TotalPermuted(ps, props, KeptSlots);
    AllocsEnd(ps, first);
    var end := HeapEnd(Allocs(ps, first));
    PaddedTo4(end);
  }

  lemma PaddedTo4(end: nat)
    ensures AlignUp4(end) == end + (4 - end % 4) % 4
  {
  }

  predicate DistinctTags(props: seq<PcProperty>) {
    forall i, j | 0 <= i < j < |props| :: props[i].tag != props[j].tag
  }

  /** The first reason to refuse a list, in the order in which the writer looks; none when it is written. */
  ghost function Refusal(props: seq<PcProperty>, first: UInt32): Option<PcError> {
    if first % 32 == 0 then Some(SubnodeNidIsHid)
    else if !DistinctTags(props) then Some(DuplicateTag)
    else if exists i :: 0 <= i < |props| && !ValueFits(props[i]) then Some(FirstMisfit(props))
    else if |props| > 447 then Some(LeafTooLarge)
    else if HeapLength(props) > 8176 then Some(BodyTooLarge)
    else None
  }

  /** What is wrong with the first property whose value does not fit. */
  function FirstMisfit(props: seq<PcProperty>): PcError {
    if props == [] then EmptySubnode
    else if exists x :: x in FIXED_TYPES && x.0 == props[0].ptype as int && |props[0].value| != x.1 then WrongFixedSize
    else if props[0].hint == ForceSubnode && props[0].value == [] then EmptySubnode
    else FirstMisfit(props[1..])
  }

  lemma {:induction false} MisfitIs(props: seq<PcProperty>)
    ensures match ValueError(props)
            case None => forall i | 0 <= i < |props| :: ValueFits(props[i])
            case Some(e) => (exists i :: 0 <= i < |props| && !ValueFits(props[i])) && e == FirstMisfit(props)
  {
    if props == [] {
    } else {
      var p := props[0];
      ValueFitsIs(p);
      WidthsAre(p.ptype);
      MisfitIs(props[1..]);
      assert (exists x :: x in FIXED_TYPES && x.0 == p.ptype as int && |p.value| != x.1)
             <==> FixedSize(p.ptype) != 0 && |p.value| != FixedSize(p.ptype) by {
        WrongSizeIs(p);
      }
      assert forall i | 1 <= i < |props| :: props[i] == props[1..][i - 1];
      assert forall i | 0 <= i < |props[1..]| :: props[1..][i] == props[i + 1];
    }
  }

  lemma WrongSizeIs(p: PcProperty)
    ensures (exists x :: x in FIXED_TYPES && x.0 == p.ptype as int && |p.value| != x.1)
            <==> FixedSize(p.ptype) != 0 && |p.value| != FixedSize(p.ptype)
  {
    WidthsAre(p.ptype);
    if FixedSize(p.ptype) != 0 {
      assert HasWidth(p.ptype, FixedSize(p.ptype));
    }
    forall x | x in FIXED_TYPES && x.0 == p.ptype as int ensures x.1 == FixedSize(p.ptype) {
      assert HasWidth(p.ptype, x.1);
    }
  }

  lemma TagsAreKeys(props: seq<PcProperty>)
    ensures DistinctTags(props) <==> DistinctKeys(props, Tag)
  {
    if DistinctTags(props) {
      forall i, j | 0 <= i < j < |props| ensures Tag(props[i]) != Tag(props[j]) {
        assert props[i].tag != props[j].tag;
      }
    } else {
      var i, j :| 0 <= i < j < |props| && props[i].tag == props[j].tag;
      assert Tag(props[i]) == Tag(props[j]);
    }
  }

  /** Every outcome, from the list as given. */
  lemma OutcomeExactly(props: seq<PcProperty>, first: UInt32)
    requires OffsetsFit(props, first)
    ensures match Refusal(props, first)
            case None => PcOutcome(props, first).Success? && |PcOutcome(props, first).value.hn| == HeapLength(props)
            case Some(e) => PcOutcome(props, first) == Failure(e)
  {
    hide ValueError, FirstMisfit, HeapLength, PcImage, Subnodes, Allocs, HeapBytes, ValueFits, SortedCopy, DistinctTags;
    TagsAreKeys(props);
    MisfitIs(props);
    if InputError(props, first).None? && 8 * |props| <= ALLOC_MAX {
      var ps := SortedCopy(props, Tag);
      SortedInput(props, ps, first);
      WritableAscends(ps, first);
      HeapLengthIs(props, ps, first);
      ImageLength(ps, first);
    }
  }

  lemma ImageLength(ps: seq<PcProperty>, first: UInt32)
    requires Writable(ps, first)
    ensures |PcImage(ps, first)| == HeapImageSize(Allocs(ps, first))
  {
    AllocsEnd(ps, first);
  }

  /** How every property heap begins: its signatures, its root, and the header of its one-level tree. */
  lemma HeapStart(props: seq<PcProperty>, first: UInt32)
    requires OffsetsFit(props, first) && PcOutcome(props, first).Success?
    ensures var hn := PcOutcome(props, first).value.hn;
            && |hn| >= 20 && hn[2] == 0xEC && hn[3] == 0xBC && ReadU32(hn, 4) == 0x20 && hn[8..12] == Zeros(4)
            && hn[12..20] == [0xB5, 2, 6, 0, 0x40, 0, 0, 0]
  {
    hide HeapImage, ReadU32, Writable, SortedCopy, Fits, PcOutcome;
    AcceptedIsWritable(props, first);
    var ps := SortedCopy(props, Tag);
    WritableFits(ps, first);
    HeapBegins(Allocs(ps, first), 0xBC, 0x20, PcImage(ps, first));
  }

  lemma WritableFits(ps: seq<PcProperty>, first: UInt32)
    requires Writable(ps, first)
    ensures Fits(Allocs(ps, first)) && PcImage(ps, first) == HeapImage(Allocs(ps, first), 0xBC, 0x20, NO_FILL)
    ensures Allocs(ps, first)[0] == [0xB5, 2, 6, 0, 0x40, 0, 0, 0]
  {
    hide HeapImage, HeapValues;
    AllocsEnd(ps, first);
  }
}
