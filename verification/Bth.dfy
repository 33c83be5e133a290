/** BTree-on-Heap headers and leaf records (src/ltp.cpp; section 2.3.2 of [MS-PST]). */
module Bth {
  import opened Bytes
  import opened Sorting
  import opened Wrappers
  import Heap

  const BTH_SIGNATURE: Byte := 0xB5

  datatype BthRecord = BthRecord(key: seq<Byte>, data: seq<Byte>)

  datatype BthError = BadKeyWidth | BadEntryWidth | LeafTooLarge

  function Header(cbKey: Byte, cbEnt: Byte, levels: Byte, root: UInt32): (s: seq<Byte>)
    ensures |s| == 8
  {
    [BTH_SIGNATURE, cbKey, cbEnt, levels] + Le32(root)
  }

  /** A key as the little-endian integer it spells. */
  function KeyValue(key: seq<Byte>): nat {
    if key == [] then 0 else key[0] as int + 0x100 * KeyValue(key[1..])
  }

  lemma {:induction false} KeyValueSplit(key: seq<Byte>, i: nat)
    requires i <= |key|
    ensures KeyValue(key) == KeyValue(key[..i]) + Power256(i) * KeyValue(key[i..])
  {
    if i == 0 {
      assert key[..0] == [] && key[0..] == key;
    } else {
      KeyValueSplit(key[1..], i - 1);
      assert key[..i][1..] == key[1..][..i - 1] && key[i..] == key[1..][i - 1..];
      Rescale(KeyValue(key[..i][1..]), Power256(i - 1), KeyValue(key[i..]));
    }
  }

  lemma Rescale(low: nat, p: nat, high: nat)
    ensures 0x100 * (low + p * high) == 0x100 * low + (0x100 * p) * high
  {
  }

  function Power256(n: nat): (p: nat)
    ensures p >= 1
  {
    if n == 0 then 1 else 0x100 * Power256(n - 1)
  }

  lemma {:induction false} KeyValueBound(key: seq<Byte>)
    ensures KeyValue(key) < Power256(|key|)
  {
    if key == [] {
    } else {
      KeyValueBound(key[1..]);
    }
  }

  /** Comparing from the most significant byte down is comparing the integers. */
  method KeyLess(a: seq<Byte>, b: seq<Byte>, cbKey: nat) returns (less: bool)
    requires |a| == |b| == cbKey
    ensures less <==> KeyValue(a) < KeyValue(b)
  {
    var i := cbKey;
    while i > 0
      invariant 0 <= i <= cbKey
      invariant a[i..] == b[i..]
    {
      if a[i - 1] != b[i - 1] {
        HigherByteDecides(a, b, i - 1);
        return a[i - 1] < b[i - 1];
      }
      assert a[i - 1..] == [a[i - 1]] + a[i..] && b[i - 1..] == [b[i - 1]] + b[i..];
      i := i - 1;
    }
    assert a == a[0..] && b == b[0..];
    return false;
  }

  lemma HigherByteDecides(a: seq<Byte>, b: seq<Byte>, i: nat)
    requires i < |a| == |b| && a[i + 1..] == b[i + 1..] && a[i] != b[i]
    ensures a[i] < b[i] <==> KeyValue(a) < KeyValue(b)
  {
    KeyValueSplit(a, i);
    KeyValueSplit(b, i);
    KeyValueBound(a[..i]);
    KeyValueBound(b[..i]);
    var p, rest := Power256(i), KeyValue(a[i + 1..]);
    assert a[i..][1..] == a[i + 1..] && b[i..][1..] == b[i + 1..];
    ScaledGap(p, a[i], b[i], rest);
  }

  lemma ScaledGap(p: nat, x: Byte, y: Byte, rest: nat)
    ensures x < y ==> p * (x as int + 0x100 * rest) + p <= p * (y as int + 0x100 * rest)
    ensures y < x ==> p * (y as int + 0x100 * rest) + p <= p * (x as int + 0x100 * rest)
  {
    var u, v := x as int + 0x100 * rest, y as int + 0x100 * rest;
    if x < y {
      MulAtMost(u + 1, v, p);
      assert (u + 1) * p == p * u + p;
    } else if y < x {
      MulAtMost(v + 1, u, p);
      assert (v + 1) * p == p * v + p;
    }
  }

  // ---- Leaf records ----

  ghost const RecordKey: BthRecord -> int := (r: BthRecord) => KeyValue(r.key)

  predicate ValidKeyWidth(cbKey: Byte) {
    cbKey in {1, 2, 4, 8, 16}
  }

  function Packed(records: seq<BthRecord>): (parts: seq<seq<Byte>>)
    ensures |parts| == |records|
    ensures forall i | 0 <= i < |records| :: parts[i] == records[i].key + records[i].data
  {
    seq(|records|, i requires 0 <= i < |records| => records[i].key + records[i].data)
  }

  /** Packs the records tightly in ascending key order, whatever order they come in. */
  method BuildLeafRecords(records: seq<BthRecord>, cbKey: Byte, cbEnt: Byte) returns (r: Result<seq<Byte>, BthError>)
    requires forall i | 0 <= i < |records| :: |records[i].key| == cbKey && |records[i].data| == cbEnt
    ensures r.Failure? && r.error == BadKeyWidth <==> !ValidKeyWidth(cbKey)
    ensures r.Failure? && r.error == BadEntryWidth <==> ValidKeyWidth(cbKey) && !(1 <= cbEnt <= 32)
    ensures r.Success? <==> ValidKeyWidth(cbKey) && 1 <= cbEnt <= 32 && |records| * (cbKey + cbEnt) <= Heap.ALLOC_MAX
    ensures r.Success? ==>
              exists order: seq<BthRecord> ::
                multiset(order) == multiset(records) && Ascending(order, RecordKey) && r.value == Flatten(Packed(order))
  {
    if !ValidKeyWidth(cbKey) {
      return Failure(BadKeyWidth);
    }
    if cbEnt == 0 || cbEnt > 32 {
      return Failure(BadEntryWidth);
    }
    var recSize := cbKey as nat + cbEnt;
    if |records| * recSize > Heap.ALLOC_MAX {
      return Failure(LeafTooLarge);
    }
    var order := Sort(records, (r: BthRecord) => KeyValue(r.key));
    SameOrderFunction(order, (r: BthRecord) => KeyValue(r.key));
    SameElements(records, order);
    assert forall i | 0 <= i < |order| :: order[i] in records;
    var bytes := PackRecords(order, cbKey, cbEnt);
    r := Success(bytes);
  }

  lemma SameOrderFunction(s: seq<BthRecord>, key: BthRecord -> int)
    requires forall r :: key(r) == KeyValue(r.key)
    requires Ascending(s, key)
    ensures Ascending(s, RecordKey)
  {
  }

  method PackRecords(order: seq<BthRecord>, cbKey: Byte, cbEnt: Byte) returns (bytes: seq<Byte>)
    requires forall i | 0 <= i < |order| :: |order[i].key| == cbKey && |order[i].data| == cbEnt
    ensures bytes == Flatten(Packed(order))
  {
    var recSize := cbKey as nat + cbEnt;
    var out := new Byte[|order| * recSize](_ => 0);
    var at := 0;
    for i := 0 to |order|
      invariant at == |Flatten(Packed(order[..i]))| <= out.Length == |order| * recSize
      invariant out[..at] == Flatten(Packed(order[..i]))
    {
      PackedPrefix(order, i, recSize);
      CopyRecord(out, at, order[i]);
      at := at + recSize;
    }
    assert order[..|order|] == order;
    FlattenUniformLength(Packed(order), recSize);
    bytes := out[..];
  }

  lemma PackedPrefix(order: seq<BthRecord>, i: nat, recSize: nat)
    requires i < |order|
    requires forall j | 0 <= j < |order| :: |order[j].key| + |order[j].data| == recSize
    ensures Flatten(Packed(order[..i + 1])) == Flatten(Packed(order[..i])) + (order[i].key + order[i].data)
    ensures |Flatten(Packed(order[..i]))| + recSize <= |order| * recSize
  {
    assert Packed(order[..i + 1]) == Packed(order[..i]) + [order[i].key + order[i].data];
    FlattenSnoc(Packed(order[..i]), order[i].key + order[i].data);
    FlattenUniformLength(Packed(order[..i + 1]), recSize);
    MulAtMost(i + 1, |order|, recSize);
  }

  method CopyRecord(out: array<Byte>, at: nat, r: BthRecord)
    requires at + |r.key| + |r.data| <= out.Length
    modifies out
    ensures out[..at + |r.key| + |r.data|] == old(out[..at]) + (r.key + r.data)
  {
    Copy(out, at, r.key);
    Copy(out, at + |r.key|, r.data);
  }

  /** Records that arrive in strictly ascending key order are packed as they are. */
  lemma PackedInOrder(records: seq<BthRecord>, order: seq<BthRecord>)
    requires StrictlyAscending(records, RecordKey)
    requires multiset(order) == multiset(records) && Ascending(order, RecordKey)
    ensures order == records
  {
    SortedIsUnique(records, order, RecordKey);
    SortedIsUnique(records, records, RecordKey);
  }
}
