/**
 The block ciphers: byte substitution and the keyed cyclic cipher (src/encoding.cpp; sections 5.1 and 5.2 of [MS-PST]).
 */
module Cipher {
  import opened ByteBits
  import opened Bytes
  import opened CipherTables

  datatype CryptMethod = Plain | Permute | Cyclic

  // ---- The ciphers on values ----

  function Permuted(data: seq<Byte>): (r: seq<Byte>)
    ensures |r| == |data| && forall i | 0 <= i < |data| :: r[i] == MpbbR(data[i])
  {
    seq(|data|, i requires 0 <= i < |data| => MpbbR(data[i]))
  }

  function Unpermuted(data: seq<Byte>): (r: seq<Byte>)
    ensures |r| == |data| && forall i | 0 <= i < |data| :: r[i] == MpbbI(data[i])
  {
    seq(|data|, i requires 0 <= i < |data| => MpbbI(data[i]))
  }

  /** The running key of the first byte: the two halves of the block key, one exclusive-ored into the other. */
  function StartKey(key: UInt32): UInt16 {
    Fold(key)
  }

  /** Bit `k` of the first running key is the exclusive or of bits `k` and `k + 16` of the block key. */
  lemma StartKeyBits(key: UInt32, k: nat)
    requires k < 16
    ensures Bit(StartKey(key), k) == (Bit(key, k) + Bit(key, k + 16)) % 2
  {
    BitOfFold(key, k);
  }

  /** The running key of byte `i`; it wraps at 16 bits. */
  function KeyAt(w: UInt16, i: nat): UInt16 {
    (w + i) % 0x1_0000
  }

  lemma NextKey(w: UInt16, i: nat)
    ensures KeyAt(w, 0) == w && KeyAt(w, i + 1) == (KeyAt(w, i) + 1) % 0x1_0000
  {
  }

  /** Byte addition and subtraction wrap. */
  function Add(a: Byte, b: Byte): Byte {
    (a + b) % 0x100
  }

  function Sub(a: Byte, b: Byte): Byte {
    (a - b) % 0x100
  }

  lemma AddSub(a: Byte, b: Byte)
    ensures Sub(Add(a, b), b) == a && Add(Sub(a, b), b) == a
  {
  }

  function CyclicByte(b: Byte, w: UInt16): Byte {
    var lower, upper := w % 0x100, w / 0x100;
    Sub(MpbbI(Sub(MpbbS(Add(MpbbR(Add(b, lower)), upper)), upper)), lower)
  }

  function Cycled(data: seq<Byte>, w: UInt16): (r: seq<Byte>)
    ensures |r| == |data| && forall i | 0 <= i < |data| :: r[i] == CyclicByte(data[i], KeyAt(w, i))
  {
    seq(|data|, i requires 0 <= i < |data| => CyclicByte(data[i], KeyAt(w, i)))
  }

  function Encoded(data: seq<Byte>, method_: CryptMethod, key: UInt32): (r: seq<Byte>)
    ensures |r| == |data|
  {
    match method_
    case Plain => data
    case Permute => Permuted(data)
    case Cyclic => Cycled(data, StartKey(key))
  }

  /** What a reader does: substitute back, or run the cyclic cipher once more. */
  function Decoded(data: seq<Byte>, method_: CryptMethod, key: UInt32): seq<Byte> {
    match method_
    case Plain => data
    case Permute => Unpermuted(data)
    case Cyclic => Cycled(data, StartKey(key))
  }

  // ---- The routines, in place ----

  method EncodePermute(data: array<Byte>, length: nat)
    requires length <= data.Length
    modifies data
    ensures data[..] == Permuted(old(data[..length])) + old(data[length..])
  {
    hide MpbbR;
    for i := 0 to length
      invariant forall k | 0 <= k < i :: data[k] == MpbbR(old(data[k]))
      invariant forall k | i <= k < data.Length :: data[k] == old(data[k])
    {
      data[i] := MpbbR(data[i]);
    }
  }

  method DecodePermuteInPlace(data: array<Byte>, length: nat)
    requires length <= data.Length
    modifies data
    ensures data[..] == Unpermuted(old(data[..length])) + old(data[length..])
  {
    hide MpbbI;
    for i := 0 to length
      invariant forall k | 0 <= k < i :: data[k] == MpbbI(old(data[k]))
      invariant forall k | i <= k < data.Length :: data[k] == old(data[k])
    {
      data[i] := MpbbI(data[i]);
    }
  }

  method EncodeCyclic(data: array<Byte>, length: nat, key: UInt32)
    requires length <= data.Length
    modifies data
    ensures data[..] == Cycled(old(data[..length]), StartKey(key)) + old(data[length..])
  {
    hide MpbbR, MpbbS, MpbbI, StartKey, Add, Sub, KeyAt;
    NextKey(StartKey(key), 0);
    var w: UInt16 := StartKey(key);
    for i := 0 to length
      invariant w == KeyAt(StartKey(key), i)
      invariant forall k | 0 <= k < i :: data[k] == CyclicByte(old(data[k]), KeyAt(StartKey(key), k))
      invariant forall k | i <= k < data.Length :: data[k] == old(data[k])
    {
      var lower, upper := w % 0x100, w / 0x100;
      var b := data[i];
      b := Add(b, lower);
      b := MpbbR(b);
      b := Add(b, upper);
      b := MpbbS(b);
      b := Sub(b, upper);
      b := MpbbI(b);
      b := Sub(b, lower);
      data[i] := b;
      NextKey(StartKey(key), i);
      w := (w + 1) % 0x1_0000;
    }
  }

  method EncodeBlock(data: array<Byte>, length: nat, method_: CryptMethod, key: UInt32)
    requires length <= data.Length
    modifies data
    ensures data[..] == Encoded(old(data[..length]), method_, key) + old(data[length..])
  {
    hide StartKey;
    match method_ {
      case Plain =>
        assert data[..] == data[..length] + data[length..];
      case Permute =>
        EncodePermute(data, length);
      case Cyclic =>
        EncodeCyclic(data, length, key);
    }
  }

  // ---- Decoding undoes encoding ----

  lemma {:induction false} PermuteRoundTrip(data: seq<Byte>)
    ensures Unpermuted(Permuted(data)) == data
  {
    hide MpbbR, MpbbI;
    forall i | 0 <= i < |data| ensures Unpermuted(Permuted(data))[i] == data[i] {
      DecryptsEncrypted(data[i]);
    }
  }

  /** The cyclic cipher is an involution under every running key. */
  lemma CyclicByteTwice(b: Byte, w: UInt16)
    ensures CyclicByte(CyclicByte(b, w), w) == b
  {
    hide MpbbR, MpbbS, MpbbI, Add, Sub;
    var lower, upper := w % 0x100, w / 0x100;
    var x1 := Add(b, lower);
    var x2 := Add(MpbbR(x1), upper);
    var x3 := Sub(MpbbS(x2), upper);
    AddSub(MpbbI(x3), lower);
    EncryptsDecrypted(x3);
    AddSub(MpbbS(x2), upper);
    MixesTwice(x2);
    AddSub(MpbbR(x1), upper);
    DecryptsEncrypted(x1);
    AddSub(b, lower);
  }

  /** A byte as the mixing table sees it: moved by the low key byte, substituted, moved by the high key byte. */
  function Inside(b: Byte, w: UInt16): Byte {
    (MpbbR((b + w % 0x100) % 0x100) + w / 0x100) % 0x100
  }

  /** Seen from inside, the cyclic cipher is the mixing table, and seen from inside no two bytes look the same. */
  lemma CyclicIsMixing(b: Byte, w: UInt16)
    ensures Inside(CyclicByte(b, w), w) == MpbbS(Inside(b, w))
    ensures forall c: Byte | Inside(c, w) == Inside(b, w) :: c == b
  {
    hide MpbbR, MpbbS, MpbbI, Add, Sub;
    InsideIs(b, w);
    InsideIs(CyclicByte(b, w), w);
    var lower, upper := w % 0x100, w / 0x100;
    var x3 := Sub(MpbbS(Inside(b, w)), upper);
    AddSub(MpbbI(x3), lower);
    EncryptsDecrypted(x3);
    AddSub(MpbbS(Inside(b, w)), upper);
    forall c: Byte | Inside(c, w) == Inside(b, w) ensures c == b {
      InsideIs(c, w);
      AddSub(MpbbR(Add(c, lower)), upper);
      AddSub(MpbbR(Add(b, lower)), upper);
      DecryptsEncrypted(Add(c, lower));
      DecryptsEncrypted(Add(b, lower));
      AddSub(c, lower);
      AddSub(b, lower);
    }
  }

  lemma InsideIs(b: Byte, w: UInt16)
    ensures Inside(b, w) == Add(MpbbR(Add(b, w % 0x100)), w / 0x100)
  {
    hide MpbbR;
  }

  lemma CyclicRoundTrip(data: seq<Byte>, w: UInt16)
    ensures Cycled(Cycled(data, w), w) == data
  {
    hide CyclicByte;
    forall i | 0 <= i < |data| ensures Cycled(Cycled(data, w), w)[i] == data[i] {
      CyclicByteTwice(data[i], KeyAt(w, i));
    }
  }

  lemma DecodedEncoded(data: seq<Byte>, method_: CryptMethod, key: UInt32)
    ensures Decoded(Encoded(data, method_, key), method_, key) == data
  {
    hide StartKey;
    PermuteRoundTrip(data);
    CyclicRoundTrip(data, StartKey(key));
  }

  // ---- Known bytes ----

  lemma KnownEntries()
    ensures MpbbR(0) == 0x41 && MpbbR(0xFF) == 0x3D
    ensures MpbbR(0xF9) == 0xFE && MpbbS(0xB7) == 0x98 && MpbbI(0xDF) == 0x36
  {
  }

  lemma KnownSums()
    ensures 0xB9F9 % 0x100 == 0xF9 && 0xB9F9 / 0x100 == 0xB9
    ensures Add(0, 0xF9) == 0xF9 && Add(0xFE, 0xB9) == 0xB7 && Sub(0x98, 0xB9) == 0xDF && Sub(0x36, 0xF9) == 0x3D
  {
  }

  lemma KnownStep()
    ensures CyclicByte(0, 0xB9F9) == 0x3D
  {
    hide MpbbR, MpbbS, MpbbI, Add, Sub;
    KnownEntries();
    KnownSums();
  }

  /** Encoding substitutes forward, and the cyclic cipher adds its key low byte first and high byte second. */
  lemma KnownBytes()
    ensures Permuted([0, 0xFF]) == [0x41, 0x3D] && Cycled([0], 0xB9F9) == [0x3D]
  {
    hide MpbbR, CyclicByte;
    KnownEntries();
    KnownStep();
    NextKey(0xB9F9, 0);
  }
}
