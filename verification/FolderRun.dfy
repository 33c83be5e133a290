/**
 The node ids of a whole run: baseline, folders with their three sibling tables, messages
 (src/mail.cpp, src/pst_baseline.cpp).
 */
module FolderRun {
  import opened Allocator
  import opened Bytes
  import opened Ndb
  import opened Sorting
  import opened Wrappers

  const NORMAL_FOLDER: Byte := 0x02
  const NORMAL_MESSAGE: Byte := 0x04
  const HIERARCHY_TABLE: Byte := 0x0D
  const CONTENTS_TABLE: Byte := 0x0E
  const ASSOC_CONTENTS_TABLE: Byte := 0x0F

  // ---- The baseline ----

  const LOW_RESERVED: seq<Nid> := [0x12D, 0x12E, 0x12F, 0x60D, 0x60E, 0x60F, 0x610, 0x617, 0x671, 0x692, 0x2223]

  const HIGH_RESERVED: seq<Nid> :=
    [0x8022, 0x802D, 0x802E, 0x802F, 0x8042, 0x804D, 0x804E, 0x804F, 0x8062, 0x806D, 0x806E, 0x806F]

  /** What registerBaselineReservedNids registers, in its order. */
  const BASELINE_RESERVED: seq<Nid> := LOW_RESERVED + HIGH_RESERVED

  /** The nodes buildPstBaselineEntries schedules. */
  const BASELINE_ENTRIES: seq<Nid> :=
    [0x21, 0x61, 0x122, 0x12D, 0x12E, 0x12F, 0x617, 0x1E1, 0x201, 0x60D, 0x60E, 0x60F, 0x610, 0x671, 0x692, 0x2223,
     0x8022, 0x8042, 0x804D, 0x804E, 0x804F, 0x8062, 0x806D, 0x806E, 0x806F]

  /** Everything taken once the baseline is registered; 0x617 has no valid node type and stays out. */
  function BaselineTaken(): set<Nid> {
    RESERVED + ValidOnes(BASELINE_RESERVED)
  }

  function ValidOnes(nids: seq<Nid>): set<Nid> {
    if nids == [] then {}
    else ValidOnes(nids[..|nids| - 1]) + if IsValidNidType(TypeOf(nids[|nids| - 1])) then {nids[|nids| - 1]} else {}
  }

  method RegisterBaselineReservedNids(alloc: M5Allocator)
    requires alloc.Valid()
    modifies alloc`taken
    ensures alloc.Valid()
    ensures alloc.Current() == old(alloc.Current()).(taken := old(alloc.taken) + ValidOnes(BASELINE_RESERVED))
  {
    for i := 0 to |BASELINE_RESERVED|
      invariant alloc.Valid()
      invariant alloc.Current() == old(alloc.Current()).(taken := old(alloc.taken) + ValidOnes(BASELINE_RESERVED[..i]))
    {
      var v := BASELINE_RESERVED[i];
      assert BASELINE_RESERVED[..i + 1][..i] == BASELINE_RESERVED[..i];
      if IsValidNidType(TypeOf(v)) {
        if v !in alloc.taken {
          var _ := alloc.RegisterExternal(v);
        }
      }
    }
    assert BASELINE_RESERVED[..|BASELINE_RESERVED|] == BASELINE_RESERVED;
  }

  // ---- Folders and messages ----

  datatype FolderRecord = FolderRecord(folderNid: Nid, hierarchyNid: Nid, contentsNid: Nid, faiNid: Nid)

  datatype MessageRecord = MessageRecord(folder: nat, messageNid: Nid)

  function FolderAt(index: nat): FolderRecord {
    FolderRecord(MakeNid(NORMAL_FOLDER, index), MakeNid(HIERARCHY_TABLE, index), MakeNid(CONTENTS_TABLE, index),
                 MakeNid(ASSOC_CONTENTS_TABLE, index))
  }

  /** The index of the k-th folder: the baseline holds 0x401 to 0x403. */
  function FolderIndex(k: nat): nat {
    if k == 0 then 0x400 else 0x403 + k
  }

  function MessageIndex(k: nat): nat {
    USER_ALLOC_START + k
  }

  /** No id of type `t` with an index from `from` on is taken. */
  ghost predicate FreeFrom(taken: set<Nid>, t: nat, from: nat) {
    forall i | from <= i < MAX_NID_INDEX :: MakeNid(t, i) !in taken
  }

  /** Above the reserved range, sibling ids are taken only together with their folder's. */
  ghost predicate Paired(taken: set<Nid>) {
    forall t, i | t in {HIERARCHY_TABLE, CONTENTS_TABLE, ASSOC_CONTENTS_TABLE} && 0x400 <= i < MAX_NID_INDEX
      && MakeNid(t, i) in taken ::
      MakeNid(NORMAL_FOLDER, i) in taken
  }

  lemma LowIds(n: Nid)
    requires n in RESERVED || n in LOW_RESERVED
    ensures n < 0x8000 && TypeOf(n) != NORMAL_MESSAGE
  {
    if n in RESERVED {
      assert n in {0x21, 0x61, 0xA1, 0xC1, 0x122, 0x1E1, 0x201, 0x241, 0x261, 0x281, 0x2A1, 0x2E1, 0x301, 0x321};
    }
  }

  lemma HighIds(n: Nid)
    requires n in HIGH_RESERVED
    ensures 0x8020 <= n < 0x8080 && TypeOf(n) != NORMAL_MESSAGE && IsValidNidType(TypeOf(n))
  {
  }

  /** A baseline id is below 0x8000 or has one of the indices 0x401 to 0x403; none is a message. */
  lemma BaselineIds(n: Nid)
    requires n in BaselineTaken()
    ensures TypeOf(n) != NORMAL_MESSAGE && (IndexOf(n) < 0x400 || 0x401 <= IndexOf(n) < 0x404)
  {
    ValidOnesAre(BASELINE_RESERVED);
    if n in HIGH_RESERVED {
      HighIds(n);
    } else {
      LowIds(n);
    }
  }

  lemma HighIsTaken(n: Nid)
    requires n in HIGH_RESERVED
    ensures n in BaselineTaken()
  {
    ValidOnesAre(BASELINE_RESERVED);
    HighIds(n);
    assert n in BASELINE_RESERVED;
  }

  lemma BaselineFolders()
    ensures forall i | 0x401 <= i < 0x404 :: MakeNid(NORMAL_FOLDER, i) in BaselineTaken()
  {
    hide BaselineTaken;
    var h := HIGH_RESERVED;
    assert h[0] == 0x8022 && h[4] == 0x8042 && h[8] == 0x8062;
    HighIsTaken(0x8022);
    HighIsTaken(0x8042);
    HighIsTaken(0x8062);
  }

  lemma BaselineFacts()
    ensures Paired(BaselineTaken())
    ensures FreeFrom(BaselineTaken(), NORMAL_FOLDER, 0x404) && MakeNid(NORMAL_FOLDER, 0x400) !in BaselineTaken()
    ensures FreeFrom(BaselineTaken(), NORMAL_MESSAGE, USER_ALLOC_START)
  {
    hide MakeNid, TypeOf, IndexOf, BaselineTaken;
    BaselineFolders();
    forall t, i | t in {NORMAL_FOLDER, HIERARCHY_TABLE, CONTENTS_TABLE, ASSOC_CONTENTS_TABLE}
      && 0x400 <= i < MAX_NID_INDEX
                  && MakeNid(t, i) in BaselineTaken()
      ensures 0x401 <= i < 0x404
    {
      NidParts(t, i);
      BaselineIds(MakeNid(t, i));
    }
    forall i | USER_ALLOC_START <= i < MAX_NID_INDEX ensures MakeNid(NORMAL_MESSAGE, i) !in BaselineTaken() {
      NidParts(NORMAL_MESSAGE, i);
      if MakeNid(NORMAL_MESSAGE, i) in BaselineTaken() {
        BaselineIds(MakeNid(NORMAL_MESSAGE, i));
      }
    }
  }

  lemma {:induction false} ValidOnesAre(nids: seq<Nid>)
    ensures forall n :: n in ValidOnes(nids) <==> n in nids && IsValidNidType(TypeOf(n))
  {
    hide TypeOf, IsValidNidType;
    if nids == [] {
    } else {
      var n := |nids| - 1;
      assert nids == nids[..n] + [nids[n]];
      ValidOnesAre(nids[..n]);
    }
  }

  // ---- The folder loop ----

  /** After `n` folders: their ids are taken, pairing holds, and the next free folder index is known. */
  ghost predicate FoldersTaken(s: State, n: nat) {
    && Sound(s) && BaselineTaken() <= s.taken && Paired(s.taken)
    && s.next[NORMAL_FOLDER] == (if n == 0 then 0x400 else FolderIndex(n - 1) + 1)
    && (n == 0 ==> MakeNid(NORMAL_FOLDER, 0x400) !in s.taken)
    && FreeFrom(s.taken, NORMAL_FOLDER, FolderIndex(if n == 0 then 1 else n))
    && s.next[NORMAL_MESSAGE] == USER_ALLOC_START && FreeFrom(s.taken, NORMAL_MESSAGE, USER_ALLOC_START)
  }

  lemma {:induction false} FirstFreeIs(taken: set<Nid>, t: nat, from: nat, k: nat)
    requires from <= k < MAX_NID_INDEX && MakeNid(t, k) !in taken
    requires forall i | from <= i < k :: MakeNid(t, i) in taken
    ensures FirstFree(taken, t, from) == Some(k)
    decreases k - from
  {
    hide MakeNid;
    if from >= k {
    } else {
      FirstFreeIs(taken, t, from + 1, k);
    }
  }

  lemma {:induction false} NoneFree(taken: set<Nid>, t: nat, from: nat)
    requires from >= MAX_NID_INDEX
    ensures FirstFree(taken, t, from) == None
  {
  }

  /** The state once the `n`-th folder and its three siblings are taken. */
  function AfterFolder(s: State, n: nat): State
    requires |s.next| == 0x20 && FolderIndex(n) < MAX_NID_INDEX
  {
    var f := FolderAt(FolderIndex(n));
    State(s.taken + {f.folderNid} + {f.hierarchyNid} + {f.contentsNid} + {f.faiNid},
          s.next[NORMAL_FOLDER as nat := FolderIndex(n) + 1])
  }

  lemma DifferentNids(t: nat, i: nat, u: nat, j: nat)
    requires i < MAX_NID_INDEX && j < MAX_NID_INDEX && t < 0x20 && u < 0x20
    ensures MakeNid(t, i) == MakeNid(u, j) <==> t == u && i == j
  {
  }

  /** The next folder gets the next index, and none of its sibling ids has been taken. */
  lemma FolderAllocated(s: State, n: nat)
    requires FoldersTaken(s, n) && FolderIndex(n) < MAX_NID_INDEX
    ensures var f := FolderAt(FolderIndex(n));
            && Allocated(s, NORMAL_FOLDER)
               == (State(s.taken + {f.folderNid}, s.next[NORMAL_FOLDER as nat := FolderIndex(n) + 1]),
                   Success(f.folderNid))
            && f.hierarchyNid !in s.taken && f.contentsNid !in s.taken && f.faiNid !in s.taken
  {
    hide MakeNid, BaselineTaken, FirstFree;
    BaselineFolders();
    FirstFreeIs(s.taken, NORMAL_FOLDER, s.next[NORMAL_FOLDER], FolderIndex(n));
  }

  lemma FoldersExhausted(s: State, n: nat)
    requires FoldersTaken(s, n) && FolderIndex(n) >= MAX_NID_INDEX
    ensures Allocated(s, NORMAL_FOLDER).1 == Failure(Exhausted)
  {
    hide MakeNid, BaselineTaken, FirstFree, FreeFrom, Paired;
    assert n >= 1;
    NoneFree(s.taken, NORMAL_FOLDER, s.next[NORMAL_FOLDER]);
  }

  lemma FolderKeeps(s: State, n: nat)
    requires FoldersTaken(s, n) && FolderIndex(n) < MAX_NID_INDEX
    ensures FoldersTaken(AfterFolder(s, n), n + 1)
  {
    hide MakeNid, BaselineTaken;
    var s', k := AfterFolder(s, n), FolderIndex(n);
    forall i | FolderIndex(n + 1) <= i < MAX_NID_INDEX ensures MakeNid(NORMAL_FOLDER, i) !in s'.taken {
      DifferentNids(NORMAL_FOLDER, i, NORMAL_FOLDER, k);
      DifferentNids(NORMAL_FOLDER, i, HIERARCHY_TABLE, k);
      DifferentNids(NORMAL_FOLDER, i, CONTENTS_TABLE, k);
      DifferentNids(NORMAL_FOLDER, i, ASSOC_CONTENTS_TABLE, k);
    }
    forall i | USER_ALLOC_START <= i < MAX_NID_INDEX ensures MakeNid(NORMAL_MESSAGE, i) !in s'.taken {
      DifferentNids(NORMAL_MESSAGE, i, NORMAL_FOLDER, k);
      DifferentNids(NORMAL_MESSAGE, i, HIERARCHY_TABLE, k);
      DifferentNids(NORMAL_MESSAGE, i, CONTENTS_TABLE, k);
      DifferentNids(NORMAL_MESSAGE, i, ASSOC_CONTENTS_TABLE, k);
    }
    forall t, i | t in {HIERARCHY_TABLE, CONTENTS_TABLE, ASSOC_CONTENTS_TABLE} && 0x400 <= i < MAX_NID_INDEX
      && MakeNid(t, i) in s'.taken
      ensures MakeNid(NORMAL_FOLDER, i) in s'.taken
    {
      DifferentNids(t, i, NORMAL_FOLDER, k);
      DifferentNids(t, i, HIERARCHY_TABLE, k);
      DifferentNids(t, i, CONTENTS_TABLE, k);
      DifferentNids(t, i, ASSOC_CONTENTS_TABLE, k);
    }
  }

  lemma RunStarts()
    ensures FoldersTaken(Fresh().(taken := BaselineTaken()), 0)
  {
    hide MakeNid, BaselineTaken;
    BaselineFacts();
  }

  // ---- The message loop ----

  ghost predicate MessagesTaken(s: State, base: set<Nid>, n: nat) {
    && Sound(s) && base <= s.taken && s.next[NORMAL_MESSAGE] == MessageIndex(n)
    && FreeFrom(s.taken, NORMAL_MESSAGE, MessageIndex(n))
  }

  function AfterMessage(s: State, n: nat): State
    requires |s.next| == 0x20 && MessageIndex(n) < MAX_NID_INDEX
  {
    State(s.taken + {MakeNid(NORMAL_MESSAGE, MessageIndex(n))}, s.next[NORMAL_MESSAGE as nat := MessageIndex(n) + 1])
  }

  lemma MessageAllocated(s: State, base: set<Nid>, n: nat)
    requires MessagesTaken(s, base, n) && MessageIndex(n) < MAX_NID_INDEX
    ensures Allocated(s, NORMAL_MESSAGE) == (AfterMessage(s, n), Success(MakeNid(NORMAL_MESSAGE, MessageIndex(n))))
    ensures MessagesTaken(AfterMessage(s, n), base, n + 1)
  {
    hide MakeNid, FirstFree;
    FirstFreeIs(s.taken, NORMAL_MESSAGE, s.next[NORMAL_MESSAGE], MessageIndex(n));
    forall i | MessageIndex(n + 1) <= i < MAX_NID_INDEX
      ensures MakeNid(NORMAL_MESSAGE, i) !in AfterMessage(s, n).taken
    {
      DifferentNids(NORMAL_MESSAGE, i, NORMAL_MESSAGE, MessageIndex(n));
    }
  }

  lemma MessagesExhausted(s: State, base: set<Nid>, n: nat)
    requires MessagesTaken(s, base, n) && MessageIndex(n) >= MAX_NID_INDEX
    ensures Allocated(s, NORMAL_MESSAGE).1 == Failure(Exhausted)
  {
    hide MakeNid, FirstFree, FreeFrom;
    NoneFree(s.taken, NORMAL_MESSAGE, s.next[NORMAL_MESSAGE]);
  }

  // ---- The run ----

  function FoldersUpTo(n: nat): (fs: seq<FolderRecord>)
    ensures |fs| == n && forall k | 0 <= k < n :: fs[k] == FolderAt(FolderIndex(k))
  {
    seq(n, k requires 0 <= k => FolderAt(FolderIndex(k)))
  }

  /** How many messages all folders have together. */
  function MessageCount(counts: seq<nat>): nat {
    Total(counts, (count: nat) => count)
  }

  lemma CountStep(counts: seq<nat>, f: nat)
    requires f < |counts|
    ensures counts[..f + 1][..f] == counts[..f]
    ensures MessageCount(counts[..f + 1]) == MessageCount(counts[..f]) + counts[f] <= MessageCount(counts)
  {
    TotalStep(counts, f, (count: nat) => count);
  }

  /** The records of one folder's messages, numbered from `from`. */
  function MessageRun(f: nat, from: nat, count: nat): (ms: seq<MessageRecord>)
    ensures |ms| == count
    ensures forall j | 0 <= j < count :: ms[j] == MessageRecord(f, MakeNid(NORMAL_MESSAGE, MessageIndex(from + j)))
  {
    seq(count, j requires 0 <= j => MessageRecord(f, MakeNid(NORMAL_MESSAGE, MessageIndex(from + j))))
  }

  /** `counts[f]` records for folder `f`, numbered on through all folders. */
  function MessagesUpTo(counts: seq<nat>): (ms: seq<MessageRecord>)
    ensures |ms| == MessageCount(counts)
  {
    if counts == [] then []
    else
      var f := |counts| - 1;
      MessagesUpTo(counts[..f]) + MessageRun(f, MessageCount(counts[..f]), counts[f])
  }

  /** The k-th message of the run gets the k-th message index. */
  lemma {:induction false} MessageAt(counts: seq<nat>, k: nat)
    requires k < |MessagesUpTo(counts)|
    ensures MessagesUpTo(counts)[k].folder < |counts|
    ensures MessagesUpTo(counts)[k].messageNid == MakeNid(NORMAL_MESSAGE, MessageIndex(k))
  {
    hide MakeNid;
    var f := |counts| - 1;
    if k < MessageCount(counts[..f]) {
      MessageAt(counts[..f], k);
    } else {
      assert MessagesUpTo(counts)[k]
             == MessageRun(f, MessageCount(counts[..f]), counts[f])[k - MessageCount(counts[..f])];
    }
  }

  predicate Enough(folders: nat, messages: nat) {
    (folders > 0 ==> FolderIndex(folders - 1) < MAX_NID_INDEX)
      && (messages > 0 ==> MessageIndex(messages - 1) < MAX_NID_INDEX)
  }

  method AllocateFolders(alloc: M5Allocator, count: nat) returns (r: Result<seq<FolderRecord>, AllocError>)
    requires alloc.Valid() && FoldersTaken(alloc.Current(), 0)
    modifies alloc, alloc.nextIndex
    ensures alloc.Valid()
    ensures r == if count == 0 || FolderIndex(count - 1) < MAX_NID_INDEX then Success(FoldersUpTo(count))
                 else Failure(Exhausted)
    ensures r.Success? ==> FoldersTaken(alloc.Current(), count)
  {
    hide MakeNid, FoldersTaken, M5Allocator.Valid;
    var recs: seq<FolderRecord> := [];
    for n := 0 to count
      invariant alloc.Valid() && FoldersTaken(alloc.Current(), n)
      invariant recs == FoldersUpTo(n) && (n > 0 ==> FolderIndex(n - 1) < MAX_NID_INDEX)
    {
      var rec := AllocateFolder(alloc, n);
      if rec.Failure? {
        return Failure(rec.error);
      }
      recs := recs + [rec.value];
    }
    return Success(recs);
  }

  /** One folder: its own id, then the same index registered under the three sibling types; that never fails. */
  method AllocateFolder(alloc: M5Allocator, ghost n: nat) returns (r: Result<FolderRecord, AllocError>)
    requires alloc.Valid() && FoldersTaken(alloc.Current(), n)
    modifies alloc, alloc.nextIndex
    ensures alloc.Valid()
    ensures r == if FolderIndex(n) < MAX_NID_INDEX then Success(FolderAt(FolderIndex(n))) else Failure(Exhausted)
    ensures r.Success? ==> FoldersTaken(alloc.Current(), n + 1)
  {
    hide FoldersTaken, FirstFree, Allocated;
    ghost var before := alloc.Current();
    if FolderIndex(n) < MAX_NID_INDEX {
      FolderAllocated(before, n);
      FolderKeeps(before, n);
      NidParts(NORMAL_FOLDER, FolderIndex(n));
      SiblingsDiffer(FolderIndex(n));
    } else {
      FoldersExhausted(before, n);
    }
    var folderNid := alloc.Allocate(NORMAL_FOLDER);
    if folderNid.Failure? {
      return Failure(folderNid.error);
    }
    var idx := IndexOf(folderNid.value);
    var rec := FolderAt(idx);
    hide MakeNid, TypeOf, IndexOf;
    var a := alloc.RegisterExternal(rec.hierarchyNid);
    var b := alloc.RegisterExternal(rec.contentsNid);
    var c := alloc.RegisterExternal(rec.faiNid);
    if a.Failure? || b.Failure? || c.Failure? {
      return Failure(AlreadyAllocated);
    }
    return Success(rec);
  }

  lemma SiblingsDiffer(i: nat)
    requires i < MAX_NID_INDEX
    ensures var f := FolderAt(i);
            && f.folderNid != f.hierarchyNid && f.folderNid != f.contentsNid && f.folderNid != f.faiNid
            && f.hierarchyNid != f.contentsNid && f.hierarchyNid != f.faiNid && f.contentsNid != f.faiNid
            && IsValidNidType(TypeOf(f.hierarchyNid)) && IsValidNidType(TypeOf(f.contentsNid))
            && IsValidNidType(TypeOf(f.faiNid))
  {
    hide MakeNid, TypeOf, IndexOf;
    NidParts(NORMAL_FOLDER, i);
    NidParts(HIERARCHY_TABLE, i);
    NidParts(CONTENTS_TABLE, i);
    NidParts(ASSOC_CONTENTS_TABLE, i);
  }

  method AllocateMessages(alloc: M5Allocator, counts: seq<nat>) returns (r: Result<seq<MessageRecord>, AllocError>)
    requires alloc.Valid() && MessagesTaken(alloc.Current(), alloc.taken, 0)
    modifies alloc, alloc.nextIndex
    ensures alloc.Valid()
    ensures r == if MessageCount(counts) == 0 || MessageIndex(MessageCount(counts) - 1) < MAX_NID_INDEX
                 then Success(MessagesUpTo(counts))
                 else Failure(Exhausted)
  {
    hide MessagesTaken, M5Allocator.Valid, MessageRun;
    ghost var base := alloc.taken;
    var recs: seq<MessageRecord> := [];
    for f := 0 to |counts|
      invariant alloc.Valid() && MessagesTaken(alloc.Current(), base, MessageCount(counts[..f]))
      invariant recs == MessagesUpTo(counts[..f])
      invariant MessageCount(counts[..f]) > 0 ==> MessageIndex(MessageCount(counts[..f]) - 1) < MAX_NID_INDEX
    {
      CountStep(counts, f);
      var these := AllocateFolderMessages(alloc, f, counts[f], MessageCount(counts[..f]), base);
      if these.Failure? {
        return Failure(these.error);
      }
      recs := recs + these.value;
    }
    assert counts[..|counts|] == counts;
    return Success(recs);
  }

  method AllocateFolderMessages(alloc: M5Allocator, f: nat, count: nat, ghost before: nat, ghost base: set<Nid>)
    returns (r: Result<seq<MessageRecord>, AllocError>)
    requires alloc.Valid() && MessagesTaken(alloc.Current(), base, before)
    modifies alloc, alloc.nextIndex
    ensures alloc.Valid()
    ensures r == if count == 0 || MessageIndex(before + count - 1) < MAX_NID_INDEX
                 then Success(MessageRun(f, before, count))
                 else Failure(Exhausted)
    ensures r.Success? ==> MessagesTaken(alloc.Current(), base, before + count)
  {
    hide MakeNid, MessagesTaken, M5Allocator.Valid, Allocated;
    var these: seq<MessageRecord> := [];
    for j := 0 to count
      invariant alloc.Valid() && MessagesTaken(alloc.Current(), base, before + j)
      invariant these == MessageRun(f, before, j)
      invariant j > 0 ==> MessageIndex(before + j - 1) < MAX_NID_INDEX
    {
      if MessageIndex(before + j) < MAX_NID_INDEX {
        MessageAllocated(alloc.Current(), base, before + j);
      } else {
        MessagesExhausted(alloc.Current(), base, before + j);
      }
      var nid := alloc.Allocate(NORMAL_MESSAGE);
      if nid.Failure? {
        return Failure(nid.error);
      }
      these := these + [MessageRecord(f, nid.value)];
    }
    return Success(these);
  }

  datatype Plan = Plan(folders: seq<FolderRecord>, messages: seq<MessageRecord>)

  /** Where message `j` of folder `f` comes among all messages. */
  function Place(counts: seq<nat>, f: nat, j: nat): nat
    requires f <= |counts|
  {
    MessageCount(counts[..f]) + j
  }

  /**
   The first folder takes the index below the baseline's own folders, the others those above, each with its three
   tables; messages take consecutive indices, folder by folder.
   */
  ghost predicate PlanNumbers(counts: seq<nat>, plan: Plan) {
    && |plan.folders| == |counts| && |plan.messages| == MessageCount(counts)
    && (forall k | 0 <= k < |counts| :: FolderNumbers(k, plan.folders[k]))
    && forall f, j: nat | 0 <= f < |counts| && j < counts[f] ::
         Place(counts, f, j) < |plan.messages|
           && MessageNumber(f, Place(counts, f, j), plan.messages[Place(counts, f, j)])
  }

  predicate FolderNumbers(k: nat, f: FolderRecord) {
    var at := if k == 0 then 0x8000 else 0x8060 + 0x20 * k;
    && f.folderNid as int == at + 0x02 && f.hierarchyNid as int == at + 0x0D
    && f.contentsNid as int == at + 0x0E && f.faiNid as int == at + 0x0F
  }

  predicate MessageNumber(f: nat, place: nat, m: MessageRecord) {
    m.folder == f && m.messageNid as int == 0x8004 + 0x20 * place
  }

  lemma FolderIsNumbered(k: nat)
    requires FolderIndex(k) < MAX_NID_INDEX
    ensures FolderNumbers(k, FolderAt(FolderIndex(k)))
  {
  }

  lemma {:induction false} MessageOfFolder(counts: seq<nat>, f: nat, j: nat)
    requires f < |counts| && j < counts[f]
    ensures Place(counts, f, j) < |MessagesUpTo(counts)|
    ensures MessagesUpTo(counts)[Place(counts, f, j)]
            == MessageRecord(f, MakeNid(NORMAL_MESSAGE, MessageIndex(Place(counts, f, j))))
  {
    hide MakeNid, MessageCount;
    var n := |counts| - 1;
    CountStep(counts, f);
    if f < n {
      assert counts[..n][..f] == counts[..f];
      MessageOfFolder(counts[..n], f, j);
    } else {
      assert MessagesUpTo(counts)[Place(counts, f, j)] == MessageRun(f, MessageCount(counts[..f]), counts[f])[j];
    }
  }

  lemma PlanIsNumbered(counts: seq<nat>)
    requires Enough(|counts|, MessageCount(counts))
    ensures PlanNumbers(counts, Plan(FoldersUpTo(|counts|), MessagesUpTo(counts)))
  {
    hide MessagesUpTo, MessageCount, Place, FolderNumbers, FolderAt;
    forall k: nat | k < |counts| ensures FolderNumbers(k, FoldersUpTo(|counts|)[k]) {
      FolderIsNumbered(k);
    }
    forall f, j: nat | 0 <= f < |counts| && j < counts[f]
      ensures Place(counts, f, j) < |MessagesUpTo(counts)|
      ensures MessageNumber(f, Place(counts, f, j), MessagesUpTo(counts)[Place(counts, f, j)])
    {
      MessageOfFolder(counts, f, j);
    }
  }

  /** Registers the baseline, then allocates every folder and every message. */
  method AllocateRun(counts: seq<nat>) returns (r: Result<Plan, AllocError>)
    ensures r.Success? ==> PlanNumbers(counts, r.value)
    ensures r.Failure? ==> r.error == Exhausted
    ensures r.Success? <==> |counts| <= 0x7FF_FBFD && MessageCount(counts) <= 0x7FF_FC00
    ensures r == if Enough(|counts|, MessageCount(counts))
                 then Success(Plan(FoldersUpTo(|counts|), MessagesUpTo(counts)))
                 else Failure(Exhausted)
  {
    var alloc := new M5Allocator();
    RegisterBaselineReservedNids(alloc);
    RunStarts();
    assert alloc.Current() == Fresh().(taken := BaselineTaken());
    var folders := AllocateFolders(alloc, |counts|);
    if folders.Failure? {
      return Failure(folders.error);
    }
    var messages := AllocateMessages(alloc, counts);
    if messages.Failure? {
      return Failure(messages.error);
    }
    PlanIsNumbered(counts);
    return Success(Plan(folders.value, messages.value));
  }

  // ---- All node ids of the run are distinct ----

  /** Folder, hierarchy and associated-contents nodes, folder by folder. */
  function FolderNodes(n: nat): seq<Nid> {
    if n == 0 then []
    else
      var f := FolderAt(FolderIndex(n - 1));
      FolderNodes(n - 1) + [f.folderNid, f.hierarchyNid, f.faiNid]
  }

  function ContentsNodes(n: nat): (s: seq<Nid>)
    ensures |s| == n && forall k | 0 <= k < n :: s[k] == MakeNid(CONTENTS_TABLE, FolderIndex(k))
  {
    seq(n, k requires 0 <= k => MakeNid(CONTENTS_TABLE, FolderIndex(k)))
  }

  function MessageNodes(n: nat): (s: seq<Nid>)
    ensures |s| == n && forall k | 0 <= k < n :: s[k] == MakeNid(NORMAL_MESSAGE, MessageIndex(k))
  {
    seq(n, k requires 0 <= k => MakeNid(NORMAL_MESSAGE, MessageIndex(k)))
  }

  /** Every node of a run with that many folders and messages, in the order they are scheduled. */
  function ScheduledNids(folders: nat, messages: nat): seq<Nid> {
    BASELINE_ENTRIES + FolderNodes(folders) + ContentsNodes(folders) + [0x802D] + MessageNodes(messages)
  }

  ghost predicate Distinct(s: seq<Nid>) {
    forall i, j | 0 <= i < j < |s| :: s[i] != s[j]
  }

  lemma DistinctAppend(a: seq<Nid>, b: seq<Nid>)
    requires Distinct(a) && Distinct(b) && forall x | x in a :: x !in b
    ensures Distinct(a + b)
  {
    var s := a + b;
    forall i, j | 0 <= i < j < |s| ensures s[i] != s[j] {
      if i < |a| <= j {
        assert s[i] in a && s[j] == b[j - |a|] && b[j - |a|] in b;
      }
    }
  }

  predicate LowOrBaseline(n: Nid) {
    IndexOf(n) < 0x400 || 0x401 <= IndexOf(n) < 0x404
  }

  /** Where each baseline entry stands. */
  function Position(n: Nid): nat {
    match n
    case 0x21 => 0 case 0x61 => 1 case 0x122 => 2 case 0x12D => 3 case 0x12E => 4 case 0x12F => 5 case 0x617 => 6
    case 0x1E1 => 7 case 0x201 => 8 case 0x60D => 9 case 0x60E => 10 case 0x60F => 11 case 0x610 => 12
    case 0x671 => 13 case 0x692 => 14 case 0x2223 => 15 case 0x8022 => 16 case 0x8042 => 17 case 0x804D => 18
    case 0x804E => 19 case 0x804F => 20 case 0x8062 => 21
    case 0x806D => 22 case 0x806E => 23 case 0x806F => 24 case _ => 25
  }

  lemma BaselineDistinct()
    ensures Distinct(BASELINE_ENTRIES) && 0x802D !in BASELINE_ENTRIES
    ensures forall n | n in BASELINE_ENTRIES :: LowOrBaseline(n)
  {
    assert forall i | 0 <= i < 25 :: Position(BASELINE_ENTRIES[i]) == i && LowOrBaseline(BASELINE_ENTRIES[i]);
    assert Position(0x802D) == 25;
  }

  lemma {:induction false} FolderNodesAre(n: nat, x: Nid)
    requires n > 0 ==> FolderIndex(n - 1) < MAX_NID_INDEX
    ensures x in FolderNodes(n) ==>
              TypeOf(x) in {2, 0xD, 0xF} && exists k | 0 <= k < n :: IndexOf(x) == FolderIndex(k)
  {
    if n > 0 && x in FolderNodes(n) {
      var i := FolderIndex(n - 1);
      NidParts(NORMAL_FOLDER, i);
      NidParts(HIERARCHY_TABLE, i);
      NidParts(ASSOC_CONTENTS_TABLE, i);
      hide MakeNid, TypeOf, IndexOf;
      FolderNodesAre(n - 1, x);
      if x !in FolderNodes(n - 1) {
        assert IndexOf(x) == FolderIndex(n - 1);
      }
    } else {
    }
  }

  lemma {:induction false} FolderNodesDistinct(n: nat)
    requires n > 0 ==> FolderIndex(n - 1) < MAX_NID_INDEX
    ensures Distinct(FolderNodes(n))
  {
    if n == 0 {
    } else {
      FolderNodesDistinct(n - 1);
      var i, before := FolderIndex(n - 1), FolderNodes(n - 1);
      var f := FolderAt(i);
      SiblingsDiffer(i);
      NidParts(NORMAL_FOLDER, i);
      NidParts(HIERARCHY_TABLE, i);
      NidParts(ASSOC_CONTENTS_TABLE, i);
      hide MakeNid, TypeOf, IndexOf;
      forall x | x in before ensures x !in [f.folderNid, f.hierarchyNid, f.faiNid] {
        FolderNodesAre(n - 1, x);
        var k :| 0 <= k < n - 1 && IndexOf(x) == FolderIndex(k);
        assert FolderIndex(k) < FolderIndex(n - 1);
      }
      DistinctAppend(before, [f.folderNid, f.hierarchyNid, f.faiNid]);
    }
  }

  lemma ContentsDistinct(n: nat)
    requires n > 0 ==> FolderIndex(n - 1) < MAX_NID_INDEX
    ensures Distinct(ContentsNodes(n))
    ensures forall x | x in ContentsNodes(n) :: TypeOf(x) == 0xE && !LowOrBaseline(x)
  {
    hide MakeNid, TypeOf, IndexOf;
    var s := ContentsNodes(n);
    forall i, j | 0 <= i < j < n ensures s[i] != s[j] {
      DifferentNids(CONTENTS_TABLE, FolderIndex(i), CONTENTS_TABLE, FolderIndex(j));
    }
    forall x | x in s ensures TypeOf(x) == 0xE && !LowOrBaseline(x) {
      var k :| 0 <= k < n && s[k] == x;
      NidParts(CONTENTS_TABLE, FolderIndex(k));
    }
  }

  lemma MessagesDistinct(n: nat)
    requires n > 0 ==> MessageIndex(n - 1) < MAX_NID_INDEX
    ensures Distinct(MessageNodes(n)) && forall x | x in MessageNodes(n) :: TypeOf(x) == 4 && IndexOf(x) >= 0x400
  {
    hide MakeNid, TypeOf, IndexOf;
    var s := MessageNodes(n);
    forall i, j | 0 <= i < j < n ensures s[i] != s[j] {
      DifferentNids(NORMAL_MESSAGE, MessageIndex(i), NORMAL_MESSAGE, MessageIndex(j));
    }
    forall x | x in s ensures TypeOf(x) == 4 && IndexOf(x) >= 0x400 {
      var k :| 0 <= k < n && s[k] == x;
      NidParts(NORMAL_MESSAGE, MessageIndex(k));
    }
  }

  lemma NotAMessage(n: Nid)
    requires n in BASELINE_ENTRIES
    ensures TypeOf(n) != NORMAL_MESSAGE
  {
    assert forall i | 0 <= i < 25 :: TypeOf(BASELINE_ENTRIES[i]) != 4;
  }

  /** Whatever the numbers of folders and messages, no two scheduled nodes share an id. */
  lemma ScheduledAreDistinct(folders: nat, messages: nat)
    requires Enough(folders, messages)
    ensures Distinct(ScheduledNids(folders, messages))
  {
    BaselineDistinct();
    FolderNodesDistinct(folders);
    ContentsDistinct(folders);
    MessagesDistinct(messages);
    assert TypeOf(0x802D) == 0xD && IndexOf(0x802D) == 0x401;
    hide TypeOf, IndexOf, MakeNid;
    var a, b, c := BASELINE_ENTRIES, FolderNodes(folders), ContentsNodes(folders);
    var d, e := [0x802D], MessageNodes(messages);
    forall x | x in b ensures TypeOf(x) in {2, 0xD, 0xF} && !LowOrBaseline(x) {
      FolderNodesAre(folders, x);
    }
    forall x | x in a ensures TypeOf(x) != 4 {
      NotAMessage(x);
    }
    DistinctAppend(a, b);
    DistinctAppend(a + b, c);
    DistinctAppend(a + b + c, d);
    DistinctAppend(a + b + c + d, e);
  }

  /** The first three nodes of every folder record. */
  function RecordNodes(fs: seq<FolderRecord>): seq<Nid> {
    if fs == [] then []
    else
      var f := fs[|fs| - 1];
      RecordNodes(fs[..|fs| - 1]) + [f.folderNid, f.hierarchyNid, f.faiNid]
  }

  function RecordContents(fs: seq<FolderRecord>): (s: seq<Nid>)
    ensures |s| == |fs| && forall k | 0 <= k < |fs| :: s[k] == fs[k].contentsNid
  {
    seq<Nid>(|fs|, k requires 0 <= k < |fs| => fs[k].contentsNid)
  }

  function RecordMessages(ms: seq<MessageRecord>): (s: seq<Nid>)
    ensures |s| == |ms| && forall k | 0 <= k < |ms| :: s[k] == ms[k].messageNid
  {
    seq<Nid>(|ms|, k requires 0 <= k < |ms| => ms[k].messageNid)
  }

  /** The nodes writeM7Pst schedules for a plan, in its order. */
  function NodesOf(plan: Plan): seq<Nid> {
    BASELINE_ENTRIES + RecordNodes(plan.folders) + RecordContents(plan.folders) + [0x802D]
      + RecordMessages(plan.messages)
  }

  lemma ContentsAre(n: nat)
    ensures RecordContents(FoldersUpTo(n)) == ContentsNodes(n)
  {
    hide MakeNid;
  }

  lemma MessagesAre(counts: seq<nat>)
    ensures RecordMessages(MessagesUpTo(counts)) == MessageNodes(MessageCount(counts))
  {
    hide MakeNid, MessagesUpTo;
    var ms := MessagesUpTo(counts);
    forall k | 0 <= k < |ms| ensures RecordMessages(ms)[k] == MessageNodes(MessageCount(counts))[k] {
      MessageAt(counts, k);
    }
  }

  lemma {:induction false} RecordNodesAre(n: nat)
    ensures RecordNodes(FoldersUpTo(n)) == FolderNodes(n)
  {
    if n == 0 {
    } else {
      RecordNodesAre(n - 1);
      assert FoldersUpTo(n)[..n - 1] == FoldersUpTo(n - 1);
    }
  }

  /** Every plan a run ends with names pairwise distinct nodes. */
  lemma PlanIsDistinct(counts: seq<nat>)
    requires Enough(|counts|, MessageCount(counts))
    ensures Distinct(NodesOf(Plan(FoldersUpTo(|counts|), MessagesUpTo(counts))))
  {
    hide MakeNid, RecordNodes, FolderNodes, FoldersUpTo, MessagesUpTo, Distinct, MessageCount;
    RecordNodesAre(|counts|);
    ContentsAre(|counts|);
    MessagesAre(counts);
    ScheduledAreDistinct(|counts|, MessageCount(counts));
  }
}
