/** Bytes, fixed-width unsigned integers and the little-endian helpers every other layer uses. */
module Bytes {

  type Byte = x: int | 0 <= x < 0x100
  type UInt16 = x: int | 0 <= x < 0x1_0000
  type UInt32 = x: int | 0 <= x < 0x1_0000_0000
  type UInt64 = x: int | 0 <= x < 0x1_0000_0000_0000_0000

  // ---- Little-endian images of integers ----

  function Le16(v: UInt16): (s: seq<Byte>)
    ensures |s| == 2
  {
    [v % 0x100, v / 0x100]
  }

  function Le32(v: UInt32): (s: seq<Byte>)
    ensures |s| == 4
  {
    Le16(v % 0x1_0000) + Le16(v / 0x1_0000)
  }

  function Le64(v: UInt64): (s: seq<Byte>)
    ensures |s| == 8
  {
    Le32(v % 0x1_0000_0000) + Le32(v / 0x1_0000_0000)
  }

  /** The four bytes as shifts and masks of the value. */
  lemma Le32Bytes(v: UInt32)
    ensures Le32(v) == [v % 0x100, v / 0x100 % 0x100, v / 0x1_0000 % 0x100, v / 0x100_0000 % 0x100]
  {
    assert v / 0x1_0000 / 0x100 == v / 0x100_0000 < 0x100;
    var h := v / 0x1_0000;
    assert v == h * 0x1_0000 + v % 0x1_0000;
    assert v % 0x1_0000 / 0x100 == v / 0x100 - h * 0x100;
  }

  function ReadU16(s: seq<Byte>, off: nat): UInt16
    requires off + 2 <= |s|
  {
    s[off] as int + 0x100 * (s[off + 1] as int)
  }

  function ReadU32(s: seq<Byte>, off: nat): UInt32
    requires off + 4 <= |s|
  {
    ReadU16(s, off) + 0x1_0000 * ReadU16(s, off + 2)
  }

  function ReadU64(s: seq<Byte>, off: nat): UInt64
    requires off + 8 <= |s|
  {
    ReadU32(s, off) + 0x1_0000_0000 * ReadU32(s, off + 4)
  }

  /** Reading a field undoes writing it, whatever surrounds the field. */
  lemma ReadsBack16(s: seq<Byte>, off: nat, v: UInt16)
    requires off + 2 <= |s| && s[off..off + 2] == Le16(v)
    ensures ReadU16(s, off) == v
  {
    assert s[off] == s[off..off + 2][0] && s[off + 1] == s[off..off + 2][1];
  }

  lemma ReadsBack32(s: seq<Byte>, off: nat, v: UInt32)
    requires off + 4 <= |s| && s[off..off + 4] == Le32(v)
    ensures ReadU32(s, off) == v
  {
    assert s[off..off + 2] == s[off..off + 4][..2] == Le16(v % 0x1_0000);
    assert s[off + 2..off + 4] == s[off..off + 4][2..] == Le16(v / 0x1_0000);
    ReadsBack16(s, off, v % 0x1_0000);
    ReadsBack16(s, off + 2, v / 0x1_0000);
  }

  lemma ReadsBack64(s: seq<Byte>, off: nat, v: UInt64)
    requires off + 8 <= |s| && s[off..off + 8] == Le64(v)
    ensures ReadU64(s, off) == v
  {
    assert s[off..off + 4] == s[off..off + 8][..4] == Le32(v % 0x1_0000_0000);
    assert s[off + 4..off + 8] == s[off..off + 8][4..] == Le32(v / 0x1_0000_0000);
    ReadsBack32(s, off, v % 0x1_0000_0000);
    ReadsBack32(s, off + 4, v / 0x1_0000_0000);
  }

  lemma WritesBack16(s: seq<Byte>, off: nat)
    requires off + 2 <= |s|
    ensures Le16(ReadU16(s, off)) == s[off..off + 2]
  {
    var v := ReadU16(s, off);
    assert v % 0x100 == s[off] && v / 0x100 == s[off + 1];
    assert s[off..off + 2] == [s[off], s[off + 1]];
  }

  /** Writing a field that was read restores the bytes it was read from. */
  lemma WritesBack32(s: seq<Byte>, off: nat)
    requires off + 4 <= |s|
    ensures Le32(ReadU32(s, off)) == s[off..off + 4]
  {
    hide ReadU16, Le16;
    WritesBack16(s, off);
    WritesBack16(s, off + 2);
    assert s[off..off + 4] == s[off..off + 2] + s[off + 2..off + 4];
  }

  lemma SubSlice(s: seq<Byte>, a: nat, b: nat, c: nat, d: nat)
    requires a <= b <= |s| && c <= d <= b - a
    ensures s[a..b][c..d] == s[a + c..a + d]
  {
    var u, v := s[a..b][c..d], s[a + c..a + d];
    assert |u| == |v| && forall i | 0 <= i < |u| :: u[i] == s[a..b][c + i] == s[a + (c + i)] == v[i];
  }

  /** `part` is what the file holds from `off` on. */
  predicate StoredAt(file: seq<Byte>, off: nat, part: seq<Byte>) {
    off + |part| <= |file| && file[off..off + |part|] == part
  }

  lemma StoredPart(file: seq<Byte>, off: nat, whole: seq<Byte>, a: nat, b: nat)
    requires StoredAt(file, off, whole) && a <= b <= |whole|
    ensures StoredAt(file, off + a, whole[a..b])
  {
    SubSlice(file, off, off + |whole|, a, b);
  }

  lemma StoredByte(file: seq<Byte>, off: nat, whole: seq<Byte>, a: nat)
    requires StoredAt(file, off, whole) && a < |whole|
    ensures off + a < |file| && file[off + a] == whole[a]
  {
    assert file[off..off + |whole|][a] == file[off + a];
  }

  // ---- Runs of zeros, concatenation ----

  function Zeros(n: nat): (s: seq<Byte>)
    ensures |s| == n && forall i | 0 <= i < n :: s[i] == 0
  {
    seq(n, _ => 0)
  }

  function Flatten(parts: seq<seq<Byte>>): seq<Byte> {
    if parts == [] then [] else parts[0] + Flatten(parts[1..])
  }

  lemma {:induction false} FlattenAppend(a: seq<seq<Byte>>, b: seq<seq<Byte>>)
    ensures Flatten(a + b) == Flatten(a) + Flatten(b)
  {
    if a == [] {
      assert a + b == b;
    } else {
      assert (a + b)[1..] == a[1..] + b;
      FlattenAppend(a[1..], b);
    }
  }

  lemma FlattenOne(p: seq<Byte>)
    ensures Flatten([p]) == p
  {
    assert [p][1..] == [];
  }

  lemma FlattenSnoc(a: seq<seq<Byte>>, p: seq<Byte>)
    ensures Flatten(a + [p]) == Flatten(a) + p
  {
    FlattenAppend(a, [p]);
    FlattenOne(p);
  }

  /** Each part is found in the concatenation right after the parts before it. */
  lemma FlattenSlice(parts: seq<seq<Byte>>, i: nat)
    requires i < |parts|
    ensures var start := |Flatten(parts[..i])|;
            start + |parts[i]| <= |Flatten(parts)| &&
            Flatten(parts)[start..start + |parts[i]|] == parts[i] &&
            |Flatten(parts[..i + 1])| == start + |parts[i]|
  {
    var before, after := parts[..i], parts[i + 1..];
    assert parts == (before + [parts[i]]) + after;
    assert parts[..i + 1] == before + [parts[i]];
    FlattenSnoc(before, parts[i]);
    FlattenAppend(before + [parts[i]], after);
  }

  /** Parts of one common size sit at multiples of that size. */
  lemma {:induction false} FlattenUniformLength(parts: seq<seq<Byte>>, size: nat)
    requires forall i | 0 <= i < |parts| :: |parts[i]| == size
    ensures |Flatten(parts)| == |parts| * size
  {
    if parts == [] {
    } else {
      FlattenUniformLength(parts[1..], size);
    }
  }

  lemma FlattenUniformSlice(parts: seq<seq<Byte>>, size: nat, i: nat)
    requires forall j | 0 <= j < |parts| :: |parts[j]| == size
    requires i < |parts|
    ensures i * size + size <= |Flatten(parts)| == |parts| * size
    ensures Flatten(parts)[i * size..i * size + size] == parts[i]
  {
    FlattenUniformLength(parts, size);
    FlattenUniformLength(parts[..i], size);
    FlattenSlice(parts, i);
  }

  lemma {:induction false} MulAtMost(a: nat, b: nat, c: nat)
    requires a <= b
    ensures a * c <= b * c
    decreases b
  {
    if a >= b {
    } else {
      MulAtMost(a, b - 1, c);
      assert b * c == (b - 1) * c + c;
    }
  }

  lemma Regroup(a: seq<Byte>, b: seq<Byte>, c: seq<Byte>)
    ensures a + b + c == a + (b + c)
  {
  }

  // ---- Writing into a buffer ----

  /** The buffer contents after `d` is stored at `off`. */
  function Patch(s: seq<Byte>, off: nat, d: seq<Byte>): (r: seq<Byte>)
    requires off + |d| <= |s|
    ensures |r| == |s|
    ensures r[off..off + |d|] == d
    ensures forall i | 0 <= i < |s| && !(off <= i < off + |d|) :: r[i] == s[i]
  {
    s[..off] + d + s[off + |d|..]
  }

  /** The bytes already written form `done`; everything after them is still zero. */
  ghost predicate Filled(buf: seq<Byte>, done: seq<Byte>) {
    |done| <= |buf| && buf == done + Zeros(|buf| - |done|)
  }

  lemma FillNext(buf: seq<Byte>, done: seq<Byte>, d: seq<Byte>)
    requires Filled(buf, done) && |done| + |d| <= |buf|
    ensures Filled(Patch(buf, |done|, d), done + d)
  {
  }

  lemma ZeroBuffer(buf: seq<Byte>)
    requires forall i | 0 <= i < |buf| :: buf[i] == 0
    ensures Filled(buf, [])
  {
  }

  lemma FillZeros(buf: seq<Byte>, done: seq<Byte>, n: nat)
    requires Filled(buf, done) && |done| + n <= |buf|
    ensures Filled(buf, done + Zeros(n))
  {
  }

  lemma FilledUp(buf: seq<Byte>, done: seq<Byte>)
    requires Filled(buf, done) && |done| == |buf|
    ensures buf == done
  {
  }

  method WriteU8(buf: array<Byte>, off: nat, v: Byte)
    requires off < buf.Length
    modifies buf
    ensures buf[..] == Patch(old(buf[..]), off, [v])
    ensures buf[..off + 1] == old(buf[..off]) + [v]
  {
    buf[off] := v;
  }

  method WriteU16(buf: array<Byte>, off: nat, v: UInt16)
    requires off + 2 <= buf.Length
    modifies buf
    ensures buf[..] == Patch(old(buf[..]), off, Le16(v))
    ensures buf[..off + 2] == old(buf[..off]) + Le16(v)
  {
    buf[off], buf[off + 1] := v % 0x100, v / 0x100 % 0x100;
  }

  method WriteU32(buf: array<Byte>, off: nat, v: UInt32)
    requires off + 4 <= buf.Length
    modifies buf
    ensures buf[..] == Patch(old(buf[..]), off, Le32(v))
    ensures buf[..off + 4] == old(buf[..off]) + Le32(v)
  {
    Le32Bytes(v);
    buf[off], buf[off + 1], buf[off + 2], buf[off + 3] :=
      v % 0x100, v / 0x100 % 0x100, v / 0x1_0000 % 0x100, v / 0x100_0000 % 0x100;
  }

  method WriteU64(buf: array<Byte>, off: nat, v: UInt64)
    requires off + 8 <= buf.Length
    modifies buf
    ensures buf[..] == Patch(old(buf[..]), off, Le64(v))
    ensures buf[..off + 8] == old(buf[..off]) + Le64(v)
  {
    WriteU32(buf, off, v % 0x1_0000_0000);
    WriteU32(buf, off + 4, v / 0x1_0000_0000);
  }

  /** memcpy of `data` into the buffer. */
  method Copy(buf: array<Byte>, off: nat, data: seq<Byte>)
    requires off + |data| <= buf.Length
    modifies buf
    ensures buf[..] == Patch(old(buf[..]), off, data)
    ensures buf[..off + |data|] == old(buf[..off]) + data
  {
    forall i | 0 <= i < |data| {
      buf[off + i] := data[i];
    }
  }

  // ---- Writing the next field of a buffer that is filled from the front ----

  method Append8(buf: array<Byte>, off: nat, v: Byte, ghost done: seq<Byte>)
    requires off < buf.Length && |done| == off && Filled(buf[..], done)
    modifies buf
    ensures Filled(buf[..], done + [v])
  {
    FillNext(buf[..], done, [v]);
    WriteU8(buf, off, v);
  }

  method Append16(buf: array<Byte>, off: nat, v: UInt16, ghost done: seq<Byte>)
    requires off + 2 <= buf.Length && |done| == off && Filled(buf[..], done)
    modifies buf
    ensures Filled(buf[..], done + Le16(v))
  {
    hide Le16;
    FillNext(buf[..], done, Le16(v));
    WriteU16(buf, off, v);
  }

  method Append32(buf: array<Byte>, off: nat, v: UInt32, ghost done: seq<Byte>)
    requires off + 4 <= buf.Length && |done| == off && Filled(buf[..], done)
    modifies buf
    ensures Filled(buf[..], done + Le32(v))
  {
    hide Le32;
    FillNext(buf[..], done, Le32(v));
    WriteU32(buf, off, v);
  }

  method Append64(buf: array<Byte>, off: nat, v: UInt64, ghost done: seq<Byte>)
    requires off + 8 <= buf.Length && |done| == off && Filled(buf[..], done)
    modifies buf
    ensures Filled(buf[..], done + Le64(v))
  {
    hide Le64;
    FillNext(buf[..], done, Le64(v));
    WriteU64(buf, off, v);
  }
}
