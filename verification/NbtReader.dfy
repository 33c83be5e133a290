/** Looking nodes up and listing them (src/nbt.cpp), and why the two agree. */
module NbtReader {
  import opened Bytes
  import opened Ndb
  import opened Page
  import opened Nbt
  import opened Wrappers
  import Crc

  datatype ReadError =
    | PageBeyondFile
    | NotAnNbtPage
    | TypeRepeatDiffers
    | CountAboveMaximum
    | BadLeafEntrySize
    | BadIndexEntrySize
    | TooDeep
    | CrcMismatch
    | EmptyIndex
    | ChildIsNotLeaf
    // An entry count above the page's capacity makes the source read on into the file; past its end it is undefined.
    | EntryBeyondFile

  function CEnt(file: seq<Byte>, at: nat): Byte
    requires at + PAGE_SIZE <= |file|
  {
    file[at + 488]
  }

  function CLevel(file: seq<Byte>, at: nat): Byte
    requires at + PAGE_SIZE <= |file|
  {
    file[at + 491]
  }

  function PageError(file: seq<Byte>, at: nat, strictCrc: bool): Option<ReadError> {
    if at + PAGE_SIZE > |file| then Some(PageBeyondFile)
    else if file[at + 496] != PTYPE_NBT then Some(NotAnNbtPage)
    else if file[at + 496] != file[at + 497] then Some(TypeRepeatDiffers)
    else if CEnt(file, at) > file[at + 489] then Some(CountAboveMaximum)
    else if CLevel(file, at) == 0 && file[at + 490] != 32 then Some(BadLeafEntrySize)
    else if CLevel(file, at) != 0 && file[at + 490] != 24 then Some(BadIndexEntrySize)
    else if CLevel(file, at) > 1 then Some(TooDeep)
    else if strictCrc && ReadU32(file, at + 500) != Crc.Checksum(file[at..at + PAGE_BODY_SIZE]) then Some(CrcMismatch)
    else None
  }

  method FetchAndValidatePage(file: seq<Byte>, ib: Ib, strictCrc: bool) returns (error: Option<ReadError>)
    ensures error == PageError(file, ib, strictCrc)
  {
    if ib > |file| || ib + PAGE_SIZE > |file| {
      return Some(PageBeyondFile);
    }
    var pType, pTypeRepeat := file[ib + 496], file[ib + 497];
    if pType != PTYPE_NBT {
      return Some(NotAnNbtPage);
    }
    if pType != pTypeRepeat {
      return Some(TypeRepeatDiffers);
    }
    var cEnt, cEntMax, cbEnt, cLevel := file[ib + 488], file[ib + 489], file[ib + 490], file[ib + 491];
    if cEnt > cEntMax {
      return Some(CountAboveMaximum);
    }
    if cLevel == 0 {
      if cbEnt != 32 {
        return Some(BadLeafEntrySize);
      }
    } else {
      if cbEnt != 24 {
        return Some(BadIndexEntrySize);
      }
      if cLevel > 1 {
        return Some(TooDeep);
      }
    }
    if strictCrc {
      var computed := Crc.ComputeChecksum(file[ib..ib + PAGE_BODY_SIZE]);
      if ReadU32(file, ib + 500) != computed {
        return Some(CrcMismatch);
      }
    }
    return None;
  }

  function DecodeNbtEntry(file: seq<Byte>, off: nat): NbtEntry
    requires off + 32 <= |file|
  {
    NbtEntry(ReadU32(file, off), ReadU64(file, off + 8), ReadU64(file, off + 16), ReadU32(file, off + 24))
  }

  // ---- Scanning a leaf ----

  function SearchFrom(file: seq<Byte>, at: nat, i: nat, n: nat, target: Nid): Result<Option<NbtEntry>, ReadError>
    requires i <= n
    decreases n - i
  {
    if i == n then Success(None)
    else if at + i * 32 + 32 > |file| then Failure(EntryBeyondFile)
    else
      var r := DecodeNbtEntry(file, at + i * 32);
      if r.nid == target then Success(Some(r)) else SearchFrom(file, at, i + 1, n, target)
  }

  method SearchLeaf(file: seq<Byte>, at: nat, cEnt: Byte, target: Nid) returns (r: Result<Option<NbtEntry>, ReadError>)
    ensures r == SearchFrom(file, at, 0, cEnt, target)
  {
    hide DecodeNbtEntry;
    for i := 0 to cEnt
      invariant SearchFrom(file, at, 0, cEnt, target) == SearchFrom(file, at, i, cEnt, target)
    {
      if at + i * 32 + 32 > |file| {
        return Failure(EntryBeyondFile);
      }
      var rec := DecodeNbtEntry(file, at + i * 32);
      if rec.nid == target {
        return Success(Some(rec));
      }
    }
    return Success(None);
  }

  /** All entries from number `i` on. */
  function LeafFrom(file: seq<Byte>, at: nat, i: nat, n: nat): Result<seq<NbtEntry>, ReadError>
    requires i <= n
    decreases n - i
  {
    if i == n then Success([])
    else if at + i * 32 + 32 > |file| then Failure(EntryBeyondFile)
    else
      var rest :- LeafFrom(file, at, i + 1, n);
      Success([DecodeNbtEntry(file, at + i * 32)] + rest)
  }

  method EnumerateLeaf(file: seq<Byte>, at: nat, cEnt: Byte, out: seq<NbtEntry>)
    returns (r: Result<seq<NbtEntry>, ReadError>)
    ensures match LeafFrom(file, at, 0, cEnt)
            case Success(es) => r == Success(out + es)
            case Failure(e) => r == Failure(e)
  {
    hide DecodeNbtEntry;
    var acc := out;
    ghost var all := LeafFrom(file, at, 0, cEnt);
    for i := 0 to cEnt
      invariant match LeafFrom(file, at, i, cEnt)
                case Success(rest) => all.Success? && out + all.value == acc + rest
                case Failure(e) => all == Failure(e)
    {
      if at + i * 32 + 32 > |file| {
        return Failure(EntryBeyondFile);
      }
      ghost var rest := LeafFrom(file, at, i + 1, cEnt);
      ghost var e := DecodeNbtEntry(file, at + i * 32);
      assert rest.Success? ==> acc + ([e] + rest.value) == (acc + [e]) + rest.value;
      acc := acc + [DecodeNbtEntry(file, at + i * 32)];
    }
    assert acc + [] == acc;
    return Success(acc);
  }

  // ---- Descending through an index page ----

  function Key(file: seq<Byte>, at: nat, i: nat): UInt64
    requires at + i * 24 + 24 <= |file|
  {
    ReadU64(file, at + i * 24)
  }

  function Child(file: seq<Byte>, at: nat, i: nat): Bref
    requires at + i * 24 + 24 <= |file|
  {
    Bref(ReadU64(file, at + i * 24 + 8), ReadU64(file, at + i * 24 + 16))
  }

  /** The last entry before the first key above the target, looking from entry `i` on; `chosen` if there is none. */
  function ChooseFrom(file: seq<Byte>, at: nat, i: nat, n: nat, target: Nid,
                      chosen: Option<nat>): Result<Option<nat>, ReadError>
    requires i <= n
    decreases n - i
  {
    if i == n then Success(chosen)
    else if at + i * 24 + 24 > |file| then Failure(EntryBeyondFile)
    else if Key(file, at, i) <= target then ChooseFrom(file, at, i + 1, n, target, Some(i))
    else Success(chosen)
  }

  const NO_CHILD := Bref(0, 0)

  function Descend(file: seq<Byte>, at: nat, cEnt: Byte, target: Nid): Result<Bref, ReadError> {
    if cEnt == 0 then Failure(EmptyIndex)
    else
      var chosen :- ChooseFrom(file, at, 0, cEnt, target, None);
      match chosen
      case None => Success(NO_CHILD)
      case Some(i) => if at + i * 24 + 24 > |file| then Failure(EntryBeyondFile) else Success(Child(file, at, i))
  }

  method DescendIntermediate(file: seq<Byte>, at: nat, cEnt: Byte, target: Nid) returns (r: Result<Bref, ReadError>)
    ensures r == Descend(file, at, cEnt, target)
  {
    hide Key, Child;
    if cEnt == 0 {
      return Failure(EmptyIndex);
    }
    var chosen := -1;
    var i := 0;
    while i < cEnt
      invariant 0 <= i <= cEnt && -1 <= chosen < i
      invariant ChooseFrom(file, at, 0, cEnt, target, None)
                == ChooseFrom(file, at, i, cEnt, target, if chosen < 0 then None else Some(chosen))
    {
      if at + i * 24 + 24 > |file| {
        return Failure(EntryBeyondFile);
      }
      if Key(file, at, i) <= target {
        chosen := i;
      } else {
        break;
      }
      i := i + 1;
    }
    if chosen < 0 {
      return Success(NO_CHILD);
    }
    if at + chosen * 24 + 24 > |file| {
      return Failure(EntryBeyondFile);
    }
    return Success(Child(file, at, chosen));
  }

  // ---- Find and enumerate ----

  function FindInChild(file: seq<Byte>, child: Bref, target: Nid,
                       strictCrc: bool): Result<Option<NbtEntry>, ReadError> {
    if child == NO_CHILD then Success(None)
    else if PageError(file, child.ib, strictCrc).Some? then Failure(PageError(file, child.ib, strictCrc).value)
    else if CLevel(file, child.ib) != 0 then Failure(ChildIsNotLeaf)
    else SearchFrom(file, child.ib, 0, CEnt(file, child.ib), target)
  }

  function Find(file: seq<Byte>, root: Bref, target: Nid, strictCrc: bool): Result<Option<NbtEntry>, ReadError> {
    if PageError(file, root.ib, strictCrc).Some? then Failure(PageError(file, root.ib, strictCrc).value)
    else if CLevel(file, root.ib) == 0 then SearchFrom(file, root.ib, 0, CEnt(file, root.ib), target)
    else
      var child :- Descend(file, root.ib, CEnt(file, root.ib), target);
      FindInChild(file, child, target, strictCrc)
  }

  method NbtFind(file: seq<Byte>, root: Bref, target: Nid, strictCrc: bool)
    returns (r: Result<Option<NbtEntry>, ReadError>)
    ensures r == Find(file, root, target, strictCrc)
  {
    hide PageError, SearchFrom, Descend;
    var bad := FetchAndValidatePage(file, root.ib, strictCrc);
    if bad.Some? {
      return Failure(bad.value);
    }
    ValidPageFits(file, root.ib, strictCrc);
    if file[root.ib + 491] == 0 {
      r := SearchLeaf(file, root.ib, file[root.ib + 488], target);
      return;
    }
    var child := DescendIntermediate(file, root.ib, file[root.ib + 488], target);
    if child.Failure? {
      return Failure(child.error);
    }
    if child.value.bid == 0 && child.value.ib == 0 {
      return Success(None);
    }
    var badChild := FetchAndValidatePage(file, child.value.ib, strictCrc);
    if badChild.Some? {
      return Failure(badChild.value);
    }
    ValidPageFits(file, child.value.ib, strictCrc);
    if file[child.value.ib + 491] != 0 {
      return Failure(ChildIsNotLeaf);
    }
    r := SearchLeaf(file, child.value.ib, file[child.value.ib + 488], target);
  }

  lemma ValidPageFits(file: seq<Byte>, at: nat, strictCrc: bool)
    requires PageError(file, at, strictCrc).None?
    ensures at + PAGE_SIZE <= |file|
  {
  }

  /** The entries of the leaf that index entry `i` names. */
  function ChildEntries(file: seq<Byte>, at: nat, i: nat, strictCrc: bool): Result<seq<NbtEntry>, ReadError> {
    if at + i * 24 + 24 > |file| then Failure(EntryBeyondFile)
    else
      var ib := Child(file, at, i).ib;
      if PageError(file, ib, strictCrc).Some? then Failure(PageError(file, ib, strictCrc).value)
      else if CLevel(file, ib) != 0 then Failure(ChildIsNotLeaf)
      else LeafFrom(file, ib, 0, CEnt(file, ib))
  }

  /** The entries of the leaves from index entry `i` on. */
  function ChildrenFrom(file: seq<Byte>, at: nat, i: nat, n: nat, strictCrc: bool): Result<seq<NbtEntry>, ReadError>
    requires i <= n
    decreases n - i
  {
    if i == n then Success([])
    else
      var here :- ChildEntries(file, at, i, strictCrc);
      var rest :- ChildrenFrom(file, at, i + 1, n, strictCrc);
      Success(here + rest)
  }

  function Listed(file: seq<Byte>, root: Bref, strictCrc: bool): Result<seq<NbtEntry>, ReadError> {
    if PageError(file, root.ib, strictCrc).Some? then Failure(PageError(file, root.ib, strictCrc).value)
    else if CLevel(file, root.ib) == 0 then LeafFrom(file, root.ib, 0, CEnt(file, root.ib))
    else ChildrenFrom(file, root.ib, 0, CEnt(file, root.ib), strictCrc)
  }

  method NbtForEach(file: seq<Byte>, root: Bref, strictCrc: bool) returns (r: Result<seq<NbtEntry>, ReadError>)
    ensures r == Listed(file, root, strictCrc)
  {
    hide PageError, LeafFrom, ChildrenFrom;
    var bad := FetchAndValidatePage(file, root.ib, strictCrc);
    if bad.Some? {
      return Failure(bad.value);
    }
    ValidPageFits(file, root.ib, strictCrc);
    if file[root.ib + 491] == 0 {
      r := EnumerateLeaf(file, root.ib, file[root.ib + 488], []);
      ghost var es := LeafFrom(file, root.ib, 0, CEnt(file, root.ib));
      assert es.Success? ==> [] + es.value == es.value;
      return;
    }
    r := EnumerateChildren(file, root.ib, file[root.ib + 488], strictCrc);
  }

  method EnumerateChildren(file: seq<Byte>, at: nat, cEnt: Byte, strictCrc: bool)
    returns (r: Result<seq<NbtEntry>, ReadError>)
    ensures r == ChildrenFrom(file, at, 0, cEnt, strictCrc)
  {
    hide ChildEntries, ChildrenFrom;
    var acc: seq<NbtEntry> := [];
    ghost var all := ChildrenFrom(file, at, 0, cEnt, strictCrc);
    assert all.Success? ==> [] + all.value == all.value;
    for i := 0 to cEnt
      invariant match ChildrenFrom(file, at, i, cEnt, strictCrc)
                case Success(rest) => all == Success(acc + rest)
                case Failure(e) => all == Failure(e)
    {
      ChildrenStep(file, at, i, cEnt, strictCrc, acc);
      var next := EnumerateChild(file, at, i, strictCrc, acc);
      if next.Failure? {
        return Failure(next.error);
      }
      acc := next.value;
    }
    ChildrenEnd(file, at, cEnt, strictCrc, acc);
    return Success(acc);
  }

  lemma ChildrenStep(file: seq<Byte>, at: nat, i: nat, n: nat, strictCrc: bool, acc: seq<NbtEntry>)
    requires i < n
    ensures var here, rest := ChildEntries(file, at, i, strictCrc), ChildrenFrom(file, at, i + 1, n, strictCrc);
            match ChildrenFrom(file, at, i, n, strictCrc)
            case Success(es) => here.Success? && rest.Success? && acc + es == acc + here.value + rest.value
            case Failure(e) => here == Failure(e) || (here.Success? && rest == Failure(e))
  {
    hide ChildEntries;
    var here, rest := ChildEntries(file, at, i, strictCrc), ChildrenFrom(file, at, i + 1, n, strictCrc);
    if here.Success? && rest.Success? {
      assert acc + (here.value + rest.value) == acc + here.value + rest.value;
    }
  }

  lemma ChildrenEnd(file: seq<Byte>, at: nat, n: nat, strictCrc: bool, acc: seq<NbtEntry>)
    ensures ChildrenFrom(file, at, n, n, strictCrc) == Success([])
    ensures acc + [] == acc
  {
  }

  method EnumerateChild(file: seq<Byte>, at: nat, i: nat, strictCrc: bool, acc: seq<NbtEntry>)
    returns (r: Result<seq<NbtEntry>, ReadError>)
    ensures match ChildEntries(file, at, i, strictCrc)
            case Success(es) => r == Success(acc + es)
            case Failure(e) => r == Failure(e)
  {
    hide PageError, LeafFrom;
    if at + i * 24 + 24 > |file| {
      return Failure(EntryBeyondFile);
    }
    var ib := Child(file, at, i).ib;
    var bad := FetchAndValidatePage(file, ib, strictCrc);
    if bad.Some? {
      return Failure(bad.value);
    }
    ValidPageFits(file, ib, strictCrc);
    if file[ib + 491] != 0 {
      return Failure(ChildIsNotLeaf);
    }
    r := EnumerateLeaf(file, ib, file[ib + 488], acc);
  }

  // ---- The index agrees with the scan ----

  /** What a lookup means: the first listed entry with that NID. */
  function FirstWith(es: seq<NbtEntry>, target: Nid): Option<NbtEntry> {
    if es == [] then None
    else if es[0].nid == target then Some(es[0])
    else FirstWith(es[1..], target)
  }

  /** Leaf `i` is readable and its NIDs lie between key `i` and the next key. */
  ghost predicate LeafInRange(file: seq<Byte>, at: nat, n: nat, i: nat, strictCrc: bool)
    requires at + n * 24 <= |file| && i < n
  {
    var es := ChildEntries(file, at, i, strictCrc);
    && es.Success?
    && (forall e | e in es.value :: Key(file, at, i) <= e.nid)
    && (i + 1 < n ==> forall e | e in es.value :: e.nid < Key(file, at, i + 1))
  }

  ghost predicate KeysSeparate(file: seq<Byte>, at: nat, n: nat, strictCrc: bool)
    requires at + n * 24 <= |file|
  {
    && (forall i | 0 < i < n :: Key(file, at, i - 1) <= Key(file, at, i))
    && (forall i | 0 <= i < n :: Child(file, at, i) != NO_CHILD)
    && (forall i | 0 <= i < n :: LeafInRange(file, at, n, i, strictCrc))
  }

  /** A tree whose root is a readable leaf, or an index page whose keys separate its leaves. */
  ghost predicate ValidTree(file: seq<Byte>, root: Bref, strictCrc: bool) {
    && Listed(file, root, strictCrc).Success?
    && (CLevel(file, root.ib) != 0 ==>
          var n := CEnt(file, root.ib) as nat;
          n > 0 && root.ib + n * 24 <= |file| && KeysSeparate(file, root.ib, n, strictCrc))
  }

  lemma {:induction false} SearchIsFirst(file: seq<Byte>, at: nat, i: nat, n: nat, target: Nid)
    requires i <= n && LeafFrom(file, at, i, n).Success?
    ensures SearchFrom(file, at, i, n, target) == Success(FirstWith(LeafFrom(file, at, i, n).value, target))
    decreases n - i
  {
    hide DecodeNbtEntry;
    if i >= n {
    } else {
      SearchIsFirst(file, at, i + 1, n, target);
      var es := LeafFrom(file, at, i, n).value;
      assert es[1..] == LeafFrom(file, at, i + 1, n).value;
    }
  }

  lemma {:induction false} FirstInAppend(a: seq<NbtEntry>, b: seq<NbtEntry>, target: Nid)
    ensures (forall e | e in a :: e.nid != target) ==> FirstWith(a + b, target) == FirstWith(b, target)
    ensures (forall e | e in b :: e.nid != target) ==> FirstWith(a + b, target) == FirstWith(a, target)
  {
    if a == [] {
      assert a + b == b;
      NotListed(b, target);
    } else {
      assert (a + b)[1..] == a[1..] + b;
      FirstInAppend(a[1..], b, target);
    }
  }

  lemma {:induction false} NotListed(es: seq<NbtEntry>, target: Nid)
    ensures (forall e | e in es :: e.nid != target) ==> FirstWith(es, target) == None
  {
    if es == [] {
    } else {
      NotListed(es[1..], target);
    }
  }

  /** Which leaf the descent picks: the last whose key does not exceed the target. */
  lemma {:induction false} ChoiceIsLast(file: seq<Byte>, at: nat, i: nat, n: nat, target: Nid, chosen: Option<nat>)
    requires i <= n && at + n * 24 <= |file|
    requires forall k | 0 < k < n :: Key(file, at, k - 1) <= Key(file, at, k)
    requires if i == 0 then chosen.None? else chosen == Some(i - 1) && Key(file, at, i - 1) <= target
    ensures ChooseFrom(file, at, i, n, target, chosen).Success?
    ensures match ChooseFrom(file, at, i, n, target, chosen).value
            case None => n > 0 ==> target < Key(file, at, 0)
            case Some(c) => c < n && Key(file, at, c) <= target && (c + 1 < n ==> target < Key(file, at, c + 1))
    decreases n - i
  {
    hide Key;
    if i < n && Key(file, at, i) <= target {
      ChoiceIsLast(file, at, i + 1, n, target, Some(i));
    } else {
    }
  }

  lemma {:induction false} KeysOrdered(file: seq<Byte>, at: nat, n: nat, i: nat, j: nat)
    requires at + n * 24 <= |file| && i <= j < n
    requires forall k | 0 < k < n :: Key(file, at, k - 1) <= Key(file, at, k)
    ensures Key(file, at, i) <= Key(file, at, j)
    decreases j - i
  {
    hide Key;
    if i >= j {
    } else {
      KeysOrdered(file, at, n, i, j - 1);
    }
  }

  /** Leaf `i` can hold the target only if it is the chosen one. */
  lemma OtherLeavesMiss(file: seq<Byte>, at: nat, n: nat, strictCrc: bool, target: Nid, c: nat, i: nat)
    requires at + n * 24 <= |file| && KeysSeparate(file, at, n, strictCrc) && c < n && i < n && i != c
    requires Key(file, at, c) <= target && (c + 1 < n ==> target < Key(file, at, c + 1))
    ensures ChildEntries(file, at, i, strictCrc).Success?
    ensures forall e | e in ChildEntries(file, at, i, strictCrc).value :: e.nid != target
  {
    hide Key, ChildEntries;
    assert LeafInRange(file, at, n, i, strictCrc);
    if i < c {
      KeysOrdered(file, at, n, i + 1, c);
    } else {
      KeysOrdered(file, at, n, c + 1, i);
    }
  }

  lemma {:induction false} FirstIsInChosen(file: seq<Byte>, at: nat, n: nat, strictCrc: bool, target: Nid, c: nat,
                                           i: nat)
    requires at + n * 24 <= |file| && KeysSeparate(file, at, n, strictCrc) && c < n && i <= n
    requires Key(file, at, c) <= target && (c + 1 < n ==> target < Key(file, at, c + 1))
    requires ChildrenFrom(file, at, i, n, strictCrc).Success?
    ensures ChildEntries(file, at, c, strictCrc).Success?
    ensures FirstWith(ChildrenFrom(file, at, i, n, strictCrc).value, target)
            == if i <= c then FirstWith(ChildEntries(file, at, c, strictCrc).value, target) else None
    decreases n - i
  {
    hide Key, ChildEntries;
    assert LeafInRange(file, at, n, c, strictCrc);
    if i < n {
      FirstIsInChosen(file, at, n, strictCrc, target, c, i + 1);
      var here := ChildEntries(file, at, i, strictCrc).value;
      var rest := ChildrenFrom(file, at, i + 1, n, strictCrc).value;
      if i == c {
        RestMisses(file, at, n, strictCrc, target, c, i + 1);
      } else {
        OtherLeavesMiss(file, at, n, strictCrc, target, c, i);
      }
      FirstInAppend(here, rest, target);
    }
  }

  lemma {:induction false} RestMisses(file: seq<Byte>, at: nat, n: nat, strictCrc: bool, target: Nid, c: nat, i: nat)
    requires at + n * 24 <= |file| && KeysSeparate(file, at, n, strictCrc) && c < i <= n
    requires Key(file, at, c) <= target && (c + 1 < n ==> target < Key(file, at, c + 1))
    requires ChildrenFrom(file, at, i, n, strictCrc).Success?
    ensures forall e | e in ChildrenFrom(file, at, i, n, strictCrc).value :: e.nid != target
    decreases n - i
  {
    hide Key, ChildEntries;
    if i >= n {
    } else {
      RestMisses(file, at, n, strictCrc, target, c, i + 1);
      OtherLeavesMiss(file, at, n, strictCrc, target, c, i);
    }
  }

  lemma {:induction false} AllLeavesMiss(file: seq<Byte>, at: nat, n: nat, strictCrc: bool, target: Nid, i: nat)
    requires at + n * 24 <= |file| && KeysSeparate(file, at, n, strictCrc) && 0 < n && i <= n
    requires target < Key(file, at, 0)
    requires ChildrenFrom(file, at, i, n, strictCrc).Success?
    ensures forall e | e in ChildrenFrom(file, at, i, n, strictCrc).value :: e.nid != target
    decreases n - i
  {
    hide Key, ChildEntries;
    if i >= n {
    } else {
      AllLeavesMiss(file, at, n, strictCrc, target, i + 1);
      KeysOrdered(file, at, n, 0, i);
      assert LeafInRange(file, at, n, i, strictCrc);
    }
  }

  /** On every valid tree a lookup gives exactly the first listed entry with that NID, or nothing. */
  lemma IndexAgreesWithScan(file: seq<Byte>, root: Bref, target: Nid, strictCrc: bool)
    requires ValidTree(file, root, strictCrc)
    ensures Find(file, root, target, strictCrc) == Success(FirstWith(Listed(file, root, strictCrc).value, target))
  {
    hide PageError, Key, Child, LeafFrom, SearchFrom, KeysSeparate, ChildEntries;
    ValidPageFits(file, root.ib, strictCrc);
    var n := CEnt(file, root.ib) as nat;
    if CLevel(file, root.ib) == 0 {
      SearchIsFirst(file, root.ib, 0, n, target);
    } else {
      DescentAgrees(file, root.ib, n, target, strictCrc);
    }
  }

  lemma DescentAgrees(file: seq<Byte>, at: nat, n: Byte, target: Nid, strictCrc: bool)
    requires n > 0 && at + n * 24 <= |file| && KeysSeparate(file, at, n, strictCrc)
    requires ChildrenFrom(file, at, 0, n, strictCrc).Success?
    ensures Descend(file, at, n, target).Success?
    ensures FindInChild(file, Descend(file, at, n, target).value, target, strictCrc)
            == Success(FirstWith(ChildrenFrom(file, at, 0, n, strictCrc).value, target))
  {
    hide PageError, Key, Child, LeafFrom, SearchFrom, ChildrenFrom;
    ChoiceIsLast(file, at, 0, n, target, None);
    var chosen := ChooseFrom(file, at, 0, n, target, None).value;
    if chosen.None? {
      AllLeavesMiss(file, at, n, strictCrc, target, 0);
      NotListed(ChildrenFrom(file, at, 0, n, strictCrc).value, target);
    } else {
      FirstIsInChosen(file, at, n, strictCrc, target, chosen.value, 0);
      ChildSearched(file, at, chosen.value, target, strictCrc);
    }
  }

  lemma ChildSearched(file: seq<Byte>, at: nat, c: nat, target: Nid, strictCrc: bool)
    requires at + c * 24 + 24 <= |file| && ChildEntries(file, at, c, strictCrc).Success?
    requires Child(file, at, c) != NO_CHILD
    ensures FindInChild(file, Child(file, at, c), target, strictCrc)
            == Success(FirstWith(ChildEntries(file, at, c, strictCrc).value, target))
  {
    hide PageError, Child, LeafFrom, SearchFrom;
    var ib := Child(file, at, c).ib;
    ValidPageFits(file, ib, strictCrc);
    SearchIsFirst(file, ib, 0, CEnt(file, ib), target);
  }
}
