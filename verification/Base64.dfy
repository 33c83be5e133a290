/** Base64 decoding (src/graph_convert.cpp) against the encoding of section 4 of RFC 4648. */
module Base64 {
  import opened Ascii
  import opened Bytes
  import opened Wrappers

  type Sextet = n: nat | n < 0x40

  datatype Base64Error = InvalidChar

  const PAD: Byte := 0x3D

  /** b64Val, with its -1 as None. */
  function Value(c: Byte): Option<Sextet> {
    if 0x41 <= c <= 0x5A then Some(c - 0x41)
    else if 0x61 <= c <= 0x7A then Some(26 + (c - 0x61))
    else if 0x30 <= c <= 0x39 then Some(52 + (c - 0x30))
    else if c == 0x2B then Some(62)
    else if c == 0x2F then Some(63)
    else None
  }

  const UPPER: string := "ABCDEFGHIJKLMNOPQRSTUVWXYZ"
  const LOWER: string := "abcdefghijklmnopqrstuvwxyz"
  const DIGITS: string := "0123456789"

  /** Table 1 of RFC 4648. */
  const ALPHABET: string := UPPER + LOWER + DIGITS + "+/"

  lemma CapitalsFollow(v: nat)
    ensures |UPPER| == 26 && (v < 26 ==> UPPER[v] as int == 0x41 + v)
  {
  }

  lemma LettersFollow(v: nat)
    ensures |LOWER| == 26 && (v < 26 ==> LOWER[v] as int == 0x61 + v)
  {
  }

  lemma DigitsFollow(v: nat)
    ensures |DIGITS| == 10 && (v < 10 ==> DIGITS[v] as int == 0x30 + v)
  {
  }

  /** The value of a character is its place in the alphabet; the padding is the equals sign. */
  lemma ValueIsPlace(c: Byte, v: nat)
    ensures |ALPHABET| == 64 && PAD as int == '=' as int
    ensures Value(c) == Some(v) <==> v < 64 && ALPHABET[v] as int == c as int
  {
    hide UPPER, LOWER, DIGITS;
    CapitalsFollow(v);
    LettersFollow(if v >= 26 then v - 26 else 0);
    DigitsFollow(if v >= 52 then v - 52 else 0);
    assert v < 64 ==> ALPHABET[v] as int == if v < 26 then 0x41 + v else if v < 52 then 0x61 + (v - 26)
                                            else if v < 62 then 0x30 + (v - 52) else if v == 62 then 0x2B else 0x2F;
  }

  // ---- What a text decodes to ----

  function Stripped(t: Text): Text {
    if t == [] then [] else (if IsBlank(t[0]) then [] else [t[0]]) + Stripped(t[1..])
  }

  function DropPad(t: Text): Text {
    if t != [] && t[|t| - 1] == PAD then DropPad(t[..|t| - 1]) else t
  }

  predicate AllValid(t: Text) {
    forall i | 0 <= i < |t| :: Value(t[i]).Some?
  }

  function Values(t: Text): (v: seq<Sextet>)
    requires AllValid(t)
    ensures |v| == |t|
  {
    seq(|t|, i requires 0 <= i < |t| => Value(t[i]).value)
  }

  /** Four six-bit groups are three octets; what is left over at the end gives as many whole octets as it holds. */
  function Octets(v: seq<Sextet>): seq<Byte> {
    if |v| < 2 then []
    else if |v| == 2 then [First(v[0], v[1])]
    else if |v| == 3 then [First(v[0], v[1]), Second(v[1], v[2])]
    else [First(v[0], v[1]), Second(v[1], v[2]), Third(v[2], v[3])] + Octets(v[4..])
  }

  function First(a: Sextet, b: Sextet): Byte {
    a * 4 + b / 16
  }

  function Second(b: Sextet, c: Sextet): Byte {
    b % 16 * 16 + c / 4
  }

  function Third(c: Sextet, d: Sextet): Byte {
    c % 4 * 64 + d
  }

  /** Four groups and three octets are the same 24-bit number, the first of each on top. */
  lemma SameNumber(a: Sextet, b: Sextet, c: Sextet, d: Sextet)
    ensures 0x1_0000 * First(a, b) + 0x100 * Second(b, c) + Third(c, d) == 0x4_0000 * a + 0x1000 * b + 0x40 * c + d
  {
  }

  function Decode(t: Text): Result<seq<Byte>, Base64Error> {
    var s := DropPad(Stripped(t));
    if AllValid(s) then Success(Octets(Values(s))) else Failure(InvalidChar)
  }

  // ---- The loops of the decoder ----

  /** The octet that sextet `i` completes, none for the first of each four. */
  function Completed(v: seq<Sextet>, i: nat): seq<Byte>
    requires i < |v|
  {
    if i % 4 == 0 then []
    else if i % 4 == 1 then [First(v[i - 1], v[i])]
    else if i % 4 == 2 then [Second(v[i - 1], v[i])]
    else [Third(v[i - 1], v[i])]
  }

  lemma {:induction false} OctetsGrow(v: seq<Sextet>, i: nat)
    requires i < |v|
    ensures Octets(v[..i + 1]) == Octets(v[..i]) + Completed(v, i)
  {
    hide First, Second, Third;
    if i >= 4 {
      OctetsGrow(v[4..], i - 4);
      assert v[..i + 1][4..] == v[4..][..i - 3] && v[..i][4..] == v[4..][..i - 4];
    } else {
    }
  }

  function Accumulate(accum: UInt32, v: Sextet): UInt32 {
    (accum * 0x40 + v) % 0x1_0000_0000
  }

  function ShiftedByte(accum: UInt32, bits: nat): Byte
    requires bits in {0, 2, 4}
  {
    (match bits case 0 => accum case 2 => accum / 4 case _ => accum / 16) % 0x100
  }

  lemma ShiftBy4(q: nat, a: Sextet, high: nat, low: nat)
    requires high < 4 && low < 16
    ensures (q * 0x1000 + a * 0x40 + high * 16 + low) / 16 % 0x100 == a * 4 + high
  {
    assert q * 0x1000 + a * 0x40 + high * 16 + low == 16 * (q * 0x100 + (a * 4 + high)) + low;
  }

  lemma ShiftBy2(q: nat, upper: nat, lower: nat, high: nat, low: nat)
    requires upper < 4 && lower < 16 && high < 16 && low < 4
    ensures (q * 0x1000 + (upper * 16 + lower) * 0x40 + high * 4 + low) / 4 % 0x100 == lower * 16 + high
  {
    assert q * 0x1000 + (upper * 16 + lower) * 0x40 + high * 4 + low
           == 4 * ((q * 4 + upper) * 0x100 + (lower * 16 + high)) + low;
  }

  lemma ShiftBy0(q: nat, upper: nat, lower: nat, b: Sextet)
    requires upper < 16 && lower < 4
    ensures (q * 0x1000 + (upper * 4 + lower) * 0x40 + b) % 0x100 == lower * 64 + b
  {
    assert q * 0x1000 + (upper * 4 + lower) * 0x40 + b == (q * 16 + upper) * 0x100 + (lower * 64 + b);
  }

  /** Only the low twelve bits of the accumulator matter, so losing its top bits does no harm. */
  lemma AccumulatorStep(accum: UInt32, v: Sextet)
    ensures Accumulate(accum, v) % 0x1000 == accum % 0x40 * 0x40 + v && Accumulate(accum, v) % 0x40 == v
  {
    var high, kept := accum / 0x400_0000, accum % 0x400_0000;
    var middle, low := kept / 0x40, kept % 0x40;
    OverflowDrops(high, middle, low, v);
    assert accum % 0x40 == low;
    assert Accumulate(accum, v) == middle * 0x1000 + (low * 0x40 + v);
  }

  lemma OverflowDrops(high: nat, middle: nat, low: Sextet, v: Sextet)
    requires middle < 0x10_0000
    ensures ((high * 0x400_0000 + middle * 0x40 + low) * 0x40 + v) % 0x1_0000_0000 == middle * 0x1000 + low * 0x40 + v
  {
  }

  lemma LowBits(accum: UInt32, a: Sextet, b: Sextet)
    requires accum % 0x1000 == a * 0x40 + b
    ensures ShiftedByte(accum, 4) == First(a, b) && ShiftedByte(accum, 2) == Second(a, b)
            && ShiftedByte(accum, 0) == Third(a, b)
  {
    var q := accum / 0x1000;
    assert accum == q * 0x1000 + a * 0x40 + b;
    ShiftBy4(q, a, b / 16, b % 16);
    ShiftBy2(q, a / 16, a % 16, b / 4, b % 4);
    ShiftBy0(q, a / 4, a % 4, b);
  }

  lemma ValuesGrow(s: Text, i: nat)
    requires i < |s| && AllValid(s[..i]) && Value(s[i]).Some?
    ensures AllValid(s[..i + 1]) && Values(s[..i + 1]) == Values(s[..i]) + [Value(s[i]).value]
  {
    assert s[..i + 1] == s[..i] + [s[i]];
  }

  lemma NothingDecoded(s: Text)
    ensures Octets(Values(s[..0])) == []
  {
  }

  /** One turn of the decoding loop. */
  lemma CharacterDecoded(s: Text, i: nat, accum: UInt32)
    requires i < |s| && AllValid(s[..i]) && Value(s[i]).Some?
    requires i > 0 ==> accum % 0x40 == Values(s[..i])[i - 1]
    ensures AllValid(s[..i + 1])
    ensures var next := Accumulate(accum, Value(s[i]).value);
            && next % 0x40 == Values(s[..i + 1])[i]
            && Octets(Values(s[..i + 1]))
               == Octets(Values(s[..i])) + if i % 4 == 0 then [] else [ShiftedByte(next, 6 - i % 4 * 2)]
  {
    hide First, Second, Third, Octets, Value, Accumulate, ShiftedByte;
    ValuesGrow(s, i);
    var vs := Values(s[..i + 1]);
    assert vs[..i] == Values(s[..i]) && vs[..i + 1] == vs;
    OctetsGrow(vs, i);
    AccumulatorStep(accum, vs[i]);
    LowBits(Accumulate(accum, vs[i]), accum % 0x40, vs[i]);
  }

  /** The stripping half of the decoder: blanks anywhere, then padding at the end. */
  method Strip(b64: Text) returns (s: Text)
    ensures s == DropPad(Stripped(b64))
  {
    s := [];
    assert b64[0..] == b64;
    for i := 0 to |b64|
      invariant Stripped(b64) == s + Stripped(b64[i..])
    {
      assert b64[i..][1..] == b64[i + 1..];
      if !IsBlank(b64[i]) {
        assert s + ([b64[i]] + Stripped(b64[i + 1..])) == s + [b64[i]] + Stripped(b64[i + 1..]);
        s := s + [b64[i]];
      }
    }
    assert s + [] == s;
    while s != [] && s[|s| - 1] == PAD
      invariant DropPad(Stripped(b64)) == DropPad(s)
      decreases |s|
    {
      s := s[..|s| - 1];
    }
  }

  /** base64DecodeBinary: a 32-bit accumulator that overflows after six characters, and a count of pending bits. */
  method DecodeBinary(b64: Text) returns (r: Result<seq<Byte>, Base64Error>)
    ensures r == Decode(b64)
  {
    hide DropPad, Stripped, Octets, Value, ShiftedByte, Accumulate;
    var s := Strip(b64);
    var out: seq<Byte> := [];
    NothingDecoded(s);
    var accum: UInt32 := 0;
    var bits: nat := 0;
    for i := 0 to |s|
      invariant AllValid(s[..i]) && out == Octets(Values(s[..i]))
      invariant bits == if i % 4 == 0 then 0 else 8 - i % 4 * 2
      invariant i > 0 ==> accum % 0x40 == Values(s[..i])[i - 1]
    {
      var v := Value(s[i]);
      if v.None? {
        return Failure(InvalidChar);
      }
      CharacterDecoded(s, i, accum);
      accum := Accumulate(accum, v.value);
      bits := bits + 6;
      if bits >= 8 {
        bits := bits - 8;
        out := out + [ShiftedByte(accum, bits)];
      }
    }
    assert s[..|s|] == s;
    return Success(out);
  }

  // ---- RFC 4648 encoding ----

  /** The alphabet of table 1. */
  function Letter(v: Sextet): Byte {
    if v < 26 then 0x41 + v
    else if v < 52 then 0x61 + (v - 26)
    else if v < 62 then 0x30 + (v - 52)
    else if v == 62 then 0x2B
    else 0x2F
  }

  /** Three octets are four six-bit groups; one or two at the end are filled up with zero bits. */
  function Sextets(b: seq<Byte>): seq<Sextet> {
    if b == [] then []
    else if |b| == 1 then [Top(b[0]), Upper(b[0], 0)]
    else if |b| == 2 then [Top(b[0]), Upper(b[0], b[1]), Lower(b[1], 0)]
    else [Top(b[0]), Upper(b[0], b[1]), Lower(b[1], b[2]), Bottom(b[2])] + Sextets(b[3..])
  }

  function Top(x: Byte): Sextet {
    x / 4
  }

  function Upper(x: Byte, y: Byte): Sextet {
    x % 4 * 16 + y / 16
  }

  function Lower(y: Byte, z: Byte): Sextet {
    y % 16 * 4 + z / 64
  }

  function Bottom(z: Byte): Sextet {
    z % 64
  }

  function Letters(v: seq<Sextet>): (t: Text)
    ensures |t| == |v|
  {
    seq(|v|, i requires 0 <= i < |v| => Letter(v[i]))
  }

  function Padding(k: nat): Text {
    seq(k, _ => PAD)
  }

  lemma LetterValue(v: Sextet)
    ensures Value(Letter(v)) == Some(v) && Letter(v) != PAD && !IsBlank(Letter(v))
  {
  }

  lemma LettersValues(v: seq<Sextet>)
    ensures AllValid(Letters(v)) && Values(Letters(v)) == v
  {
    hide Letter, Value;
    forall i | 0 <= i < |v|
      ensures Value(Letters(v)[i]) == Some(v[i])
    {
      LetterValue(v[i]);
    }
  }

  lemma ThreeOctets(x: Byte, y: Byte, z: Byte)
    ensures First(Top(x), Upper(x, y)) == x && Second(Upper(x, y), Lower(y, z)) == y
            && Third(Lower(y, z), Bottom(z)) == z
  {
  }

  lemma {:induction false} OctetsOfSextets(b: seq<Byte>)
    ensures Octets(Sextets(b)) == b
  {
    hide First, Second, Third, Top, Upper, Lower, Bottom;
    if b != [] {
      var y := if |b| > 1 then b[1] else 0;
      var z := if |b| > 2 then b[2] else 0;
      ThreeOctets(b[0], y, z);
      if |b| > 2 {
        OctetsOfSextets(b[3..]);
        assert Sextets(b)[4..] == Sextets(b[3..]);
      }
    }
  }

  lemma {:induction false} PadDropped(t: Text, k: nat)
    requires t == [] || t[|t| - 1] != PAD
    ensures DropPad(t + Padding(k)) == t
  {
    var u := t + Padding(k);
    if k == 0 {
      assert u == t;
    } else {
      assert u[|u| - 1] == PAD && u[..|u| - 1] == t + Padding(k - 1);
      PadDropped(t, k - 1);
    }
  }

  /**
   Decoding undoes encoding: any text that is the encoding of `b`, with any number of padding characters after it
   and blanks anywhere in it, decodes to `b`.
   */
  lemma DecodesEncoded(b: seq<Byte>, t: Text, k: nat)
    requires Stripped(t) == Letters(Sextets(b)) + Padding(k)
    ensures Decode(t) == Success(b)
  {
    hide Letter, Value, Octets, Sextets, Stripped;
    var v := Sextets(b);
    if v != [] {
      LetterValue(v[|v| - 1]);
    }
    PadDropped(Letters(v), k);
    LettersValues(v);
    OctetsOfSextets(b);
  }

  /** The texts an encoder writes: whole groups, and nothing but zeros in the bits that are not kept. */
  predicate Canonical(v: seq<Sextet>) {
    && |v| % 4 != 1
    && (|v| % 4 == 2 ==> v[|v| - 1] % 16 == 0)
    && (|v| % 4 == 3 ==> v[|v| - 1] % 4 == 0)
  }

  lemma FourSextets(a: Sextet, b: Sextet, c: Sextet, d: Sextet)
    ensures var x, y, z := First(a, b), Second(b, c), Third(c, d);
            && Top(x) == a && Upper(x, y) == b && Lower(y, z) == c && Bottom(z) == d
  {
  }

  /** Two and three groups at the end: the dropped bits must be zero for the last group to come back. */
  lemma LastSextets(a: Sextet, b: Sextet, c: Sextet)
    ensures Upper(First(a, b), 0) == b <==> b % 16 == 0
    ensures Lower(Second(b, c), 0) == c <==> c % 4 == 0
  {
  }

  lemma {:induction false} WholeGroup(v: seq<Sextet>)
    requires |v| >= 4
    ensures Sextets(Octets(v)) == v[..4] + Sextets(Octets(v[4..]))
  {
    hide First, Second, Third, Top, Upper, Lower, Bottom;
    FourSextets(v[0], v[1], v[2], v[3]);
    assert Octets(v)[3..] == Octets(v[4..]);
  }

  lemma OneSextet(v: seq<Sextet>)
    requires |v| < 2
    ensures Sextets(Octets(v)) == []
  {
  }

  lemma TwoSextets(v: seq<Sextet>)
    requires |v| == 2
    ensures Sextets(Octets(v)) == v <==> v[1] % 16 == 0
  {
    hide First, Second, Third, Top, Upper, Lower, Bottom;
    FourSextets(v[0], v[1], 0, 0);
    LastSextets(v[0], v[1], 0);
    assert Sextets(Octets(v)) == [v[0], Upper(First(v[0], v[1]), 0)];
  }

  lemma ThreeSextets(v: seq<Sextet>)
    requires |v| == 3
    ensures Sextets(Octets(v)) == v <==> v[2] % 4 == 0
  {
    hide First, Second, Third, Top, Upper, Lower, Bottom;
    FourSextets(v[0], v[1], v[2], 0);
    LastSextets(v[0], v[1], v[2]);
    assert Sextets(Octets(v)) == [v[0], v[1], Lower(Second(v[1], v[2]), 0)];
  }

  /** The groups come back exactly when they are canonical. */
  lemma {:induction false} SextetsOfOctets(v: seq<Sextet>)
    ensures Sextets(Octets(v)) == v <==> Canonical(v)
  {
    hide Octets, Sextets;
    if |v| >= 4 {
      SextetsOfOctets(v[4..]);
      WholeGroup(v);
      assert v == v[..4] + v[4..];
      assert (v[..4] + Sextets(Octets(v[4..])))[4..] == Sextets(Octets(v[4..]));
    } else if |v| == 3 {
      ThreeSextets(v);
    } else if |v| == 2 {
      TwoSextets(v);
    } else {
      OneSextet(v);
    }
  }

  lemma ValueLetter(c: Byte)
    requires Value(c).Some?
    ensures Letter(Value(c).value) == c && c != PAD && !IsBlank(c)
  {
  }

  lemma ValuesLetters(s: Text)
    requires AllValid(s)
    ensures Letters(Values(s)) == s
  {
    hide Letter, Value;
    forall i | 0 <= i < |s|
      ensures Letter(Values(s)[i]) == s[i]
    {
      ValueLetter(s[i]);
    }
  }

  /** Groups padded to a multiple of four characters. */
  function Encode(b: seq<Byte>): Text {
    var s := Letters(Sextets(b));
    s + Padding((4 - |s| % 4) % 4)
  }

  lemma {:induction false} NothingStripped(t: Text)
    requires forall i | 0 <= i < |t| :: !IsBlank(t[i])
    ensures Stripped(t) == t
  {
    if t == [] {
    } else {
      NothingStripped(t[1..]);
    }
  }

  lemma {:induction false} DroppedIsPadding(t: Text)
    ensures |DropPad(t)| <= |t| && t == DropPad(t) + Padding(|t| - |DropPad(t)|)
  {
    if t != [] && t[|t| - 1] == PAD {
      DroppedIsPadding(t[..|t| - 1]);
    } else {
    }
  }

  lemma EncodedIsClean(b: seq<Byte>)
    ensures Stripped(Encode(b)) == Encode(b) && DropPad(Encode(b)) == Letters(Sextets(b))
  {
    hide Letter, Value, Sextets;
    var v := Sextets(b);
    forall i | 0 <= i < |v|
      ensures Letters(v)[i] != PAD && !IsBlank(Letters(v)[i])
    {
      LetterValue(v[i]);
    }
    NothingStripped(Encode(b));
    PadDropped(Letters(v), (4 - |v| % 4) % 4);
  }

  /**
   Encoding what a text was decoded to gives that text back exactly when it has no blanks, the right padding, and
   zeros in the bits that are not kept.
   */
  lemma EncodesDecoded(t: Text)
    requires Decode(t).Success?
    ensures var s := DropPad(Stripped(t));
            Encode(Decode(t).value) == t
            <==> Stripped(t) == t && |t| - |s| == (4 - |s| % 4) % 4 && Canonical(Values(s))
  {
    hide Letter, Value, Octets, Sextets, Stripped, DropPad, Canonical;
    var s := DropPad(Stripped(t));
    var v := Values(s);
    var b := Octets(v);
    SextetsOfOctets(v);
    ValuesLetters(s);
    DroppedIsPadding(t);
    EncodedIsClean(b);
    LettersValues(Sextets(b));
  }
}
