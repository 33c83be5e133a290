/**
 Node id allocation: M5Allocator as a state machine (src/m5_allocator.cpp; sections 2.2.2.1 and 2.4.1 of [MS-PST]).
 */
module Allocator {
  import opened Bytes
  import opened Ndb
  import opened Wrappers

  const MAX_NID_INDEX: nat := 0x800_0000
  const USER_ALLOC_START: nat := 0x400

  const NID_HID: nat := 0x00
  const NID_INTERNAL: nat := 0x01

  /** Type in the low 5 bits, index in the 27 bits above. */
  function MakeNid(t: nat, index: nat): Nid {
    index % MAX_NID_INDEX * 0x20 + t % 0x20
  }

  function TypeOf(nid: Nid): nat {
    nid % 0x20
  }

  function IndexOf(nid: Nid): nat {
    nid / 0x20
  }

  lemma NidParts(t: nat, index: nat)
    requires index < MAX_NID_INDEX
    ensures TypeOf(MakeNid(t, index)) == t % 0x20 && IndexOf(MakeNid(t, index)) == index
  {
  }

  predicate IsValidNidType(t: nat) {
    var v := t % 0x20;
    v == 0x00 || v == 0x1F || 0x01 <= v <= 0x08 || 0x0A <= v <= 0x13
  }

  const RESERVED: set<Nid> :=
    {0x21, 0x61, 0xA1, 0xC1, 0x122, 0x1E1, 0x201, 0x241, 0x261, 0x281, 0x2A1, 0x2E1, 0x301, 0x321}

  datatype AllocError = InvalidType | Exhausted | AlreadyAllocated

  // ---- The machine on values ----

  /** The ids taken so far and, per type, the next index to try. */
  datatype State = State(taken: set<Nid>, next: seq<UInt32>)

  ghost predicate Sound(s: State) {
    |s.next| == 0x20 && forall t | 0 <= t < 0x20 :: s.next[t] <= MAX_NID_INDEX
  }

  function Fresh(): State {
    State(RESERVED, seq(0x20, t => if t == NID_HID || t == NID_INTERNAL then 1 else USER_ALLOC_START))
  }

  /** The least index from `from` on whose id is not taken. */
  function FirstFree(taken: set<Nid>, t: nat, from: nat): (r: Option<nat>)
    ensures r.Some? ==> from <= r.value < MAX_NID_INDEX && MakeNid(t, r.value) !in taken
    decreases MAX_NID_INDEX - from
  {
    if from >= MAX_NID_INDEX then None
    else if MakeNid(t, from) !in taken then Some(from)
    else FirstFree(taken, t, from + 1)
  }

  /** Nothing between the counter and the result is free. */
  lemma {:induction false} FirstFreeIsLeast(taken: set<Nid>, t: nat, from: nat, i: nat)
    requires from <= i < match FirstFree(taken, t, from) case Some(k) => k case None => MAX_NID_INDEX
    ensures MakeNid(t, i) in taken
    decreases MAX_NID_INDEX - from
  {
    if from >= i {
    } else {
      FirstFreeIsLeast(taken, t, from + 1, i);
    }
  }

  function Allocated(s: State, t: nat): (State, Result<Nid, AllocError>)
    requires |s.next| == 0x20
  {
    if !IsValidNidType(t) then (s, Failure(InvalidType))
    else
      var b := t % 0x20;
      match FirstFree(s.taken, t, s.next[b])
      case None => (s.(next := s.next[b := if s.next[b] > MAX_NID_INDEX then s.next[b] else MAX_NID_INDEX]),
                    Failure(Exhausted))
      case Some(k) => (State(s.taken + {MakeNid(t, k)}, s.next[b := k + 1]), Success(MakeNid(t, k)))
  }

  function Registered(s: State, nid: Nid): (State, Result<Nid, AllocError>) {
    if !IsValidNidType(TypeOf(nid)) then (s, Failure(InvalidType))
    else if nid in s.taken then (s, Failure(AlreadyAllocated))
    else (s.(taken := s.taken + {nid}), Success(nid))
  }

  /** What one allocation does, without naming how it searches. */
  lemma AllocationMeans(s: State, t: nat)
    requires Sound(s)
    ensures var (s', r) := Allocated(s, t);
            && Sound(s')
            && (r.Failure? && r.error == InvalidType <==> !IsValidNidType(t))
            && (r.Failure? ==> s'.taken == s.taken && r.error != AlreadyAllocated)
            && (r.Failure? && r.error == Exhausted ==>
                  forall i | s.next[t % 0x20] <= i < MAX_NID_INDEX :: MakeNid(t, i) in s.taken)
            && (r.Success? ==>
                  var k := IndexOf(r.value);
                  && TypeOf(r.value) == t % 0x20 && r.value !in s.taken && s'.taken == s.taken + {r.value}
                  && s.next[t % 0x20] <= k < MAX_NID_INDEX && s'.next[t % 0x20] == k + 1
                  && forall i | s.next[t % 0x20] <= i < k :: MakeNid(t, i) in s.taken)
            && (forall u | 0 <= u < 0x20 && u != t % 0x20 :: s'.next[u] == s.next[u])
  {
    hide MakeNid, TypeOf, IndexOf;
    if IsValidNidType(t) {
      var from, free := s.next[t % 0x20], FirstFree(s.taken, t, s.next[t % 0x20]);
      forall i | from <= i < match free case Some(k) => k case None => MAX_NID_INDEX ensures MakeNid(t, i) in s.taken {
        FirstFreeIsLeast(s.taken, t, from, i);
      }
      if free.Some? {
        NidParts(t, free.value);
      }
    }
  }

  // ---- The class ----

  class M5Allocator {
    var taken: set<Nid>
    const nextIndex: array<UInt32>

    function Current(): State
      reads this, nextIndex
    {
      State(taken, nextIndex[..])
    }

    ghost predicate Valid()
      reads this, nextIndex
    {
      Sound(Current())
    }

    constructor ()
      ensures Valid() && fresh(nextIndex) && Current() == Fresh()
    {
      nextIndex := new UInt32[0x20](t => USER_ALLOC_START);
      taken := {};
      new;
      nextIndex[NID_HID] := 1;
      nextIndex[NID_INTERNAL] := 1;
      var table: seq<Nid> := [0x21, 0x61, 0xA1, 0xC1, 0x122, 0x1E1, 0x201, 0x241, 0x261, 0x281, 0x2A1, 0x2E1, 0x301,
                              0x321];
      for i := 0 to |table|
        invariant taken == set k | 0 <= k < i :: table[k]
        invariant nextIndex[..] == Fresh().next
      {
        taken := taken + {table[i]};
      }
      TableIsReserved(table);
    }

    method Allocate(t: Byte) returns (r: Result<Nid, AllocError>)
      requires Valid()
      modifies this, nextIndex
      ensures Valid() && (Current(), r) == Allocated(old(Current()), t)
    {
      AllocationMeans(Current(), t);
      if !IsValidNidType(t) {
        return Failure(InvalidType);
      }
      var typeBits := t % 0x20;
      ghost var before := Current();
      while true
        invariant taken == before.taken && |before.next| == nextIndex.Length
        invariant nextIndex[typeBits] <= MAX_NID_INDEX
        invariant nextIndex[..] == before.next[typeBits := nextIndex[typeBits]]
        invariant FirstFree(before.taken, t, before.next[typeBits]) == FirstFree(before.taken, t, nextIndex[typeBits])
        decreases MAX_NID_INDEX - nextIndex[typeBits]
      {
        var idx := nextIndex[typeBits];
        if idx >= MAX_NID_INDEX {
          return Failure(Exhausted);
        }
        nextIndex[typeBits] := idx + 1;
        var candidate := MakeNid(t, idx);
        if candidate !in taken {
          assert FirstFree(before.taken, t, before.next[typeBits]) == Some(idx);
          assert nextIndex[..] == before.next[typeBits := idx + 1];
          taken := taken + {candidate};
          return Success(candidate);
        }
      }
    }

    method RegisterExternal(nid: Nid) returns (r: Result<Nid, AllocError>)
      requires Valid()
      modifies this`taken
      ensures Valid() && (Current(), r) == Registered(old(Current()), nid)
    {
      if !IsValidNidType(TypeOf(nid)) {
        return Failure(InvalidType);
      }
      if nid in taken {
        return Failure(AlreadyAllocated);
      }
      taken := taken + {nid};
      return Success(nid);
    }
  }

  lemma TableIsReserved(table: seq<Nid>)
    requires table == [0x21, 0x61, 0xA1, 0xC1, 0x122, 0x1E1, 0x201, 0x241, 0x261, 0x281, 0x2A1, 0x2E1, 0x301, 0x321]
    ensures (set k | 0 <= k < |table| :: table[k]) == RESERVED
  {
    var s := set k | 0 <= k < |table| :: table[k];
    forall x | x in RESERVED ensures x in s {
      assert x in table;
    }
  }

  // ---- Runs ----

  datatype Op = Alloc(t: nat) | Register(nid: Nid)

  function Step(s: State, op: Op): (State, Result<Nid, AllocError>)
    requires |s.next| == 0x20
  {
    match op
    case Alloc(t) => Allocated(s, t)
    case Register(nid) => Registered(s, nid)
  }

  /** The state and all results after a sequence of calls. */
  function Run(s: State, ops: seq<Op>): (r: (State, seq<Result<Nid, AllocError>>))
    requires |s.next| == 0x20
    ensures |r.0.next| == 0x20 && |r.1| == |ops|
    decreases |ops|
  {
    if ops == [] then (s, [])
    else
      var (s', here) := Step(s, ops[0]);
      var (end, rest) := Run(s', ops[1..]);
      (end, [here] + rest)
  }

  lemma StepMeans(s: State, op: Op)
    requires Sound(s)
    ensures var (s', r) := Step(s, op);
            && Sound(s')
            && (r.Success? ==> r.value !in s.taken && s'.taken == s.taken + {r.value}
                               && IsValidNidType(TypeOf(r.value)) && (op.Alloc? ==> TypeOf(r.value) == op.t % 0x20))
            && (r.Failure? ==> s'.taken == s.taken)
            && forall t | 0 <= t < 0x20 :: s.next[t] <= s'.next[t]
  {
    hide MakeNid, TypeOf, FirstFree;
    if op.Alloc? {
      AllocationMeans(s, op.t);
    }
  }

  /**
   Over every interleaving of allocations and registrations: no id is handed out twice or was taken before, the taken
   set grows by exactly the ids handed out, every allocation has the requested type, and no counter goes back.
   */
  lemma {:induction false} RunIsSafe(s: State, ops: seq<Op>)
    requires Sound(s)
    ensures var (end, results) := Run(s, ops);
            && Sound(end)
            && (forall i | 0 <= i < |ops| && results[i].Success? ::
                  results[i].value !in s.taken && IsValidNidType(TypeOf(results[i].value))
                  && (ops[i].Alloc? ==> TypeOf(results[i].value) == ops[i].t % 0x20))
            && (forall i, j | 0 <= i < j < |ops| && results[i].Success? && results[j].Success? ::
                  results[i].value != results[j].value)
            && end.taken == s.taken + (set i | 0 <= i < |ops| && results[i].Success? :: results[i].value)
            && forall t | 0 <= t < 0x20 :: s.next[t] <= end.next[t]
    decreases |ops|
  {
    hide TypeOf, IsValidNidType, Allocated, Registered;
    if ops == [] {
    } else {
      var (s', here) := Step(s, ops[0]);
      StepMeans(s, ops[0]);
      RunIsSafe(s', ops[1..]);
      var (end, rest) := Run(s', ops[1..]);
      var results := Run(s, ops).1;
      assert results == [here] + rest;
      ResultsSplit(here, rest);
    }
  }

  lemma ResultsSplit(here: Result<Nid, AllocError>, rest: seq<Result<Nid, AllocError>>)
    ensures var all := [here] + rest;
            (set i | 0 <= i < |all| && all[i].Success? :: all[i].value)
            == (if here.Success? then {here.value} else {}) + set i | 0 <= i < |rest| && rest[i].Success? ::
                 rest[i].value
  {
    var all := [here] + rest;
    var a := set i | 0 <= i < |all| && all[i].Success? :: all[i].value;
    var b := set i | 0 <= i < |rest| && rest[i].Success? :: rest[i].value;
    forall x | x in b ensures x in a {
      var i :| 0 <= i < |rest| && rest[i].Success? && rest[i].value == x;
      assert all[i + 1] == rest[i];
    }
    if here.Success? {
      assert all[0] == here;
    }
    forall x | x in a ensures x in b || (here.Success? && x == here.value) {
      var i :| 0 <= i < |all| && all[i].Success? && all[i].value == x;
      if i > 0 {
        assert rest[i - 1] == all[i];
      }
    }
  }
}
