/** UTF-8 encoding and UTF-16 re-encoding (src/internal_json.hpp, src/graph_convert.cpp; RFC 3629 section 3). */
module Utf8 {
  import opened Bytes
  import opened Wrappers

  // ---- One code point to UTF-8 ----

  /** The lead byte is cut to eight bits, which only matters beyond 0x1FFFFF. */
  function Encode(cp: UInt32): (s: seq<Byte>)
    ensures 1 <= |s| <= 4
  {
    if cp <= 0x7F then [cp]
    else if cp <= 0x7FF then [0xC0 + cp / 0x40, 0x80 + cp % 0x40]
    else if cp <= 0xFFFF then [0xE0 + cp / 0x1000, 0x80 + cp / 0x40 % 0x40, 0x80 + cp % 0x40]
    else [0xF0 + cp / 0x4_0000 % 0x10, 0x80 + cp / 0x1000 % 0x40, 0x80 + cp / 0x40 % 0x40, 0x80 + cp % 0x40]
  }

  /** appendUtf8Codepoint. */
  method AppendUtf8Codepoint(dst: seq<Byte>, cp: UInt32) returns (r: seq<Byte>)
    ensures r == dst + Encode(cp)
  {
    r := dst;
    if cp <= 0x7F {
      r := r + [cp];
    } else if cp <= 0x7FF {
      r := r + [0xC0 + cp / 0x40];
      r := r + [0x80 + cp % 0x40];
    } else if cp <= 0xFFFF {
      r := r + [0xE0 + cp / 0x1000];
      r := r + [0x80 + cp / 0x40 % 0x40];
      r := r + [0x80 + cp % 0x40];
    } else {
      r := r + [0xF0 + cp / 0x4_0000 % 0x10];
      r := r + [0x80 + cp / 0x1000 % 0x40];
      r := r + [0x80 + cp / 0x40 % 0x40];
      r := r + [0x80 + cp % 0x40];
    }
  }

  // ---- UTF-8 to UTF-16 ----

  datatype Utf8Error =
    | Truncated
    | BadContinuation
    | BadLeadingByte
    | SurrogateCodePoint
    | OutOfRange

  predicate IsContinuation(b: Byte) {
    0x80 <= b < 0xC0
  }

  datatype Lead = Lead(cp: nat, n: nat)

  /** The low bits of a byte, below the power of two `m`. */
  function Low(b: Byte, m: nat): nat
    requires m > 0
  {
    b as int % m
  }

  /** The code point at the front of the bytes and how many bytes it takes; overlong forms pass. */
  function DecodeFront(s: seq<Byte>): (r: Result<Lead, Utf8Error>)
    requires s != []
    ensures r.Success? ==> 1 <= r.value.n <= 4 && r.value.n <= |s| && r.value.cp < 0x20_0000
  {
    var b0 := s[0];
    if b0 < 0x80 then Success(Lead(b0, 1))
    else if 0xC0 <= b0 < 0xE0 then
      if |s| < 2 then Failure(Truncated)
      else if !IsContinuation(s[1]) then Failure(BadContinuation)
      else Success(Lead(Low(b0, 0x20) * 0x40 + Low(s[1], 0x40), 2))
    else if 0xE0 <= b0 < 0xF0 then
      if |s| < 3 then Failure(Truncated)
      else if !IsContinuation(s[1]) || !IsContinuation(s[2]) then Failure(BadContinuation)
      else Success(Lead(Low(b0, 0x10) * 0x1000 + Low(s[1], 0x40) * 0x40 + Low(s[2], 0x40), 3))
    else if 0xF0 <= b0 < 0xF8 then
      if |s| < 4 then Failure(Truncated)
      else if !IsContinuation(s[1]) || !IsContinuation(s[2]) || !IsContinuation(s[3]) then Failure(BadContinuation)
      else
        Success(Lead(Low(b0, 0x08) * 0x4_0000 + Low(s[1], 0x40) * 0x1000 + Low(s[2], 0x40) * 0x40 + Low(s[3], 0x40), 4))
    else Failure(BadLeadingByte)
  }

  predicate IsHigh(u: UInt16) {
    0xD800 <= u < 0xDC00
  }

  predicate IsLow(u: UInt16) {
    0xDC00 <= u < 0xE000
  }

  /** The one or two UTF-16 units of a code point. */
  function Units(cp: nat): Result<seq<UInt16>, Utf8Error> {
    if cp <= 0xFFFF then
      if 0xD800 <= cp <= 0xDFFF then Failure(SurrogateCodePoint) else Success([cp])
    else if cp <= 0x10_FFFF then
      var v := cp - 0x1_0000;
      Success([0xD800 + v / 0x400, 0xDC00 + v % 0x400])
    else Failure(OutOfRange)
  }

  /** All units of a byte string, or the first error. */
  function ToUnits(s: seq<Byte>): Result<seq<UInt16>, Utf8Error> {
    if s == [] then Success([])
    else
      var lead :- DecodeFront(s);
      var here :- Units(lead.cp);
      var rest :- ToUnits(s[lead.n..]);
      Success(here + rest)
  }

  function LittleEndian(us: seq<UInt16>): (bs: seq<Byte>)
    ensures |bs| == 2 * |us|
  {
    if us == [] then [] else Le16(us[0]) + LittleEndian(us[1..])
  }

  lemma {:induction false} LittleEndianAppend(a: seq<UInt16>, b: seq<UInt16>)
    ensures LittleEndian(a + b) == LittleEndian(a) + LittleEndian(b)
  {
    if a == [] {
      assert a + b == b;
    } else {
      assert (a + b)[1..] == a[1..] + b;
      LittleEndianAppend(a[1..], b);
    }
  }

  method AppendU16Le(dst: seq<Byte>, u: UInt16) returns (r: seq<Byte>)
    ensures r == dst + LittleEndian([u])
  {
    assert [u][1..] == [];
    r := dst + [u % 0x100] + [u / 0x100 % 0x100];
  }

  method Utf8ToUtf16le(s: seq<Byte>) returns (r: Result<seq<Byte>, Utf8Error>)
    ensures match ToUnits(s)
            case Success(us) => r == Success(LittleEndian(us))
            case Failure(e) => r == Failure(e)
  {
    var out: seq<Byte> := [];
    var i := 0;
    ghost var all, done: seq<UInt16> := ToUnits(s), [];
    assert s[0..] == s;
    assert all.Success? ==> [] + all.value == all.value;
    while i < |s|
      invariant 0 <= i <= |s| && out == LittleEndian(done)
      invariant match ToUnits(s[i..])
                case Success(rest) => all == Success(done + rest)
                case Failure(e) => all == Failure(e)
    {
      var n, piece := NextUnits(s, i);
      if n.Failure? {
        return Failure(n.error);
      }
      UnitsStep(s, i, done);
      ghost var here := Units(DecodeFront(s[i..]).value.cp).value;
      LittleEndianAppend(done, here);
      out, done := out + piece, done + here;
      i := i + n.value;
    }
    assert done + [] == done;
    return Success(out);
  }

  lemma UnitsStep(s: seq<Byte>, i: nat, done: seq<UInt16>)
    requires i < |s| && DecodeFront(s[i..]).Success? && Units(DecodeFront(s[i..]).value.cp).Success?
    ensures var lead, here := DecodeFront(s[i..]).value, Units(DecodeFront(s[i..]).value.cp).value;
            match ToUnits(s[i + lead.n..])
            case Success(rest) => ToUnits(s[i..]).Success? && done + ToUnits(s[i..]).value == done + here + rest
            case Failure(e) => ToUnits(s[i..]) == Failure(e)
  {
    hide Units, DecodeFront;
    var lead, here := DecodeFront(s[i..]).value, Units(DecodeFront(s[i..]).value.cp).value;
    assert s[i..][lead.n..] == s[i + lead.n..];
    var rest := ToUnits(s[i + lead.n..]);
    assert rest.Success? ==> done + (here + rest.value) == done + here + rest.value;
  }

  /** One turn of the loop: the bytes consumed and the bytes produced. */
  method NextUnits(s: seq<Byte>, i: nat) returns (n: Result<nat, Utf8Error>, piece: seq<Byte>)
    requires i < |s|
    ensures var lead := DecodeFront(s[i..]);
            match lead
            case Failure(e) => n == Failure(e)
            case Success(l) =>
              match Units(l.cp)
              case Failure(e) => n == Failure(e)
              case Success(us) => n == Success(l.n) && piece == LittleEndian(us)
  {
    piece := [];
    var lead := DecodeFront(s[i..]);
    if lead.Failure? {
      return Failure(lead.error), [];
    }
    var cp := lead.value.cp;
    if cp <= 0xFFFF {
      if 0xD800 <= cp <= 0xDFFF {
        return Failure(SurrogateCodePoint), [];
      }
      piece := AppendU16Le([], cp);
    } else if cp <= 0x10_FFFF {
      var v := cp - 0x1_0000;
      piece := AppendU16Le([], 0xD800 + v / 0x400);
      piece := AppendU16Le(piece, 0xDC00 + v % 0x400);
      LittleEndianAppend([0xD800 + v / 0x400], [0xDC00 + v % 0x400]);
      assert [(0xD800 + v / 0x400) as UInt16] + [(0xDC00 + v % 0x400) as UInt16] == Units(cp).value;
    } else {
      return Failure(OutOfRange), [];
    }
    n := Success(lead.value.n);
  }

  // ---- Surrogates always come in pairs ----

  /** Every high surrogate is followed by a low one, and no low one stands alone. */
  predicate Paired(us: seq<UInt16>) {
    if us == [] then true
    else if IsHigh(us[0]) then |us| >= 2 && IsLow(us[1]) && Paired(us[2..])
    else !IsLow(us[0]) && Paired(us[1..])
  }

  lemma UnitsPaired(cp: nat, rest: seq<UInt16>)
    requires Units(cp).Success? && Paired(rest)
    ensures Paired(Units(cp).value + rest)
  {
    var us := Units(cp).value;
    if |us| == 1 {
      assert (us + rest)[1..] == rest;
    } else {
      assert (us + rest)[2..] == rest;
    }
  }

  /** Whatever bytes go in, no unpaired surrogate comes out. */
  lemma {:induction false} NeverUnpaired(s: seq<Byte>)
    requires ToUnits(s).Success?
    ensures Paired(ToUnits(s).value)
  {
    hide DecodeFront, Units;
    if s == [] {
    } else {
      var lead := DecodeFront(s).value;
      NeverUnpaired(s[lead.n..]);
      UnitsPaired(lead.cp, ToUnits(s[lead.n..]).value);
    }
  }

  // ---- UTF-16 to UTF-8 and back ----

  predicate IsScalar(cp: nat) {
    cp < 0xD800 || 0xE000 <= cp < 0x11_0000
  }

  lemma Continues(x: nat)
    requires x < 0x40
    ensures IsContinuation(0x80 + x) && Low(0x80 + x, 0x40) == x
  {
  }

  lemma TwoDigits(cp: nat)
    requires cp <= 0x7FF
    ensures cp / 0x40 < 0x20 && Low(0xC0 + cp / 0x40, 0x20) == cp / 0x40 && cp / 0x40 * 0x40 + cp % 0x40 == cp
  {
  }

  lemma ThreeDigits(cp: nat)
    requires cp <= 0xFFFF
    ensures cp / 0x1000 < 0x10 && Low(0xE0 + cp / 0x1000, 0x10) == cp / 0x1000
    ensures cp / 0x1000 * 0x1000 + cp / 0x40 % 0x40 * 0x40 + cp % 0x40 == cp
  {
    assert cp / 0x40 / 0x40 == cp / 0x1000;
  }

  lemma FourDigits(cp: nat)
    requires cp < 0x20_0000
    ensures cp / 0x4_0000 < 0x08 && Low(0xF0 + cp / 0x4_0000, 0x08) == cp / 0x4_0000
    ensures cp / 0x4_0000 * 0x4_0000 + cp / 0x1000 % 0x40 * 0x1000 + cp / 0x40 % 0x40 * 0x40 + cp % 0x40 == cp
  {
    assert cp / 0x1000 / 0x40 == cp / 0x4_0000;
    assert cp / 0x40 / 0x40 == cp / 0x1000;
  }

  lemma FrontBytes(cp: nat, rest: seq<Byte>, i: nat)
    requires cp < 0x20_0000 && i < |Encode(cp)|
    ensures (Encode(cp) + rest)[i] == Encode(cp)[i]
  {
  }

  lemma DecodeEncoded(cp: nat, rest: seq<Byte>)
    requires IsScalar(cp)
    ensures DecodeFront(Encode(cp) + rest) == Success(Lead(cp, |Encode(cp)|))
  {
    hide Low, IsContinuation;
    FrontBytes(cp, rest, 0);
    if 0x7F < cp <= 0x7FF {
      FrontBytes(cp, rest, 1);
      TwoDigits(cp);
      Continues(cp % 0x40);
    } else if 0x7FF < cp <= 0xFFFF {
      FrontBytes(cp, rest, 1);
      FrontBytes(cp, rest, 2);
      ThreeDigits(cp);
      Continues(cp / 0x40 % 0x40);
      Continues(cp % 0x40);
    } else if 0xFFFF < cp {
      FrontBytes(cp, rest, 1);
      FrontBytes(cp, rest, 2);
      FrontBytes(cp, rest, 3);
      FourDigits(cp);
      Continues(cp / 0x1000 % 0x40);
      Continues(cp / 0x40 % 0x40);
      Continues(cp % 0x40);
    }
  }

  /** The code point a surrogate pair stands for. */
  function PairValue(high: UInt16, low: UInt16): (cp: nat)
    requires IsHigh(high) && IsLow(low)
    ensures 0x1_0000 <= cp < 0x11_0000
  {
    0x1_0000 + (high - 0xD800) * 0x400 + (low - 0xDC00)
  }

  /** The UTF-8 bytes of paired UTF-16 units. */
  function FromUnits(us: seq<UInt16>): seq<Byte>
    requires Paired(us)
  {
    if us == [] then []
    else if IsHigh(us[0]) then Encode(PairValue(us[0], us[1])) + FromUnits(us[2..])
    else Encode(us[0]) + FromUnits(us[1..])
  }

  lemma EncodedStep(cp: nat, rest: seq<Byte>)
    requires IsScalar(cp) && ToUnits(rest).Success?
    ensures Units(cp).Success? && ToUnits(Encode(cp) + rest) == Success(Units(cp).value + ToUnits(rest).value)
  {
    hide Encode, DecodeFront;
    DecodeEncoded(cp, rest);
    assert (Encode(cp) + rest)[|Encode(cp)|..] == rest;
  }

  /** Re-encoding restores exactly the units. */
  lemma {:induction false} UnitsRoundTrip(us: seq<UInt16>)
    requires Paired(us)
    ensures ToUnits(FromUnits(us)) == Success(us)
  {
    hide Encode, DecodeFront;
    if us != [] {
      if IsHigh(us[0]) {
        UnitsRoundTrip(us[2..]);
        EncodedStep(PairValue(us[0], us[1]), FromUnits(us[2..]));
        assert Units(PairValue(us[0], us[1])) == Success([us[0], us[1]]);
        assert us == [us[0], us[1]] + us[2..];
      } else {
        UnitsRoundTrip(us[1..]);
        EncodedStep(us[0], FromUnits(us[1..]));
        assert us == [us[0]] + us[1..];
      }
    }
  }

  // ---- The forms of RFC 3629, and the units of RFC 2781 ----

  predicate Tail(s: seq<Byte>, i: nat) {
    i < |s| && 0x80 <= s[i] <= 0xBF
  }

  /** What a byte is worth above the base of its range. */
  function Above(b: Byte, base: int): int {
    b as int - base
  }

  /** The first `n` bytes of `s` spell `cp`: a lead byte of the right range and its continuation bytes. */
  predicate Spelled(s: seq<Byte>, cp: nat, n: nat) {
    if n == 1 then s != [] && s[0] <= 0x7F && cp == s[0] as int
    else if n == 2 then Tail(s, 1) && 0xC0 <= s[0] <= 0xDF && cp == Above(s[0], 0xC0) * 64 + Above(s[1], 0x80)
    else if n == 3 then
      && Tail(s, 1) && Tail(s, 2) && 0xE0 <= s[0] <= 0xEF
      && cp == Above(s[0], 0xE0) * 4096 + Above(s[1], 0x80) * 64 + Above(s[2], 0x80)
    else
      && n == 4 && Tail(s, 1) && Tail(s, 2) && Tail(s, 3) && 0xF0 <= s[0] <= 0xF7
      && cp == Above(s[0], 0xF0) * 262144 + Above(s[1], 0x80) * 4096 + Above(s[2], 0x80) * 64 + Above(s[3], 0x80)
  }

  lemma LowIs(b: Byte)
    ensures 0xC0 <= b < 0xE0 ==> Low(b, 0x20) == Above(b, 0xC0)
    ensures 0xE0 <= b < 0xF0 ==> Low(b, 0x10) == Above(b, 0xE0)
    ensures 0xF0 <= b < 0xF8 ==> Low(b, 0x08) == Above(b, 0xF0)
    ensures 0x80 <= b < 0xC0 ==> Low(b, 0x40) == Above(b, 0x80)
  {
  }

  /** Decoding succeeds exactly on what is spelled so, overlong forms included. */
  lemma DecodesExactly(s: seq<Byte>, cp: nat, n: nat)
    requires s != []
    ensures DecodeFront(s) == Success(Lead(cp, n)) <==> Spelled(s, cp, n)
  {
    hide Low, Above;
    LowIs(s[0]);
    TailLow(s, 1);
    TailLow(s, 2);
    TailLow(s, 3);
  }

  lemma TailLow(s: seq<Byte>, i: nat)
    ensures Tail(s, i) <==> i < |s| && IsContinuation(s[i])
    ensures Tail(s, i) ==> Low(s[i], 0x40) == Above(s[i], 0x80)
  {
    if Tail(s, i) {
      LowIs(s[i]);
    }
  }

  /** Every scalar value is spelled in the fewest bytes. */
  lemma EncodedIsShortest(cp: nat)
    requires IsScalar(cp)
    ensures |Encode(cp)| == if cp < 0x80 then 1 else if cp < 0x800 then 2 else if cp < 0x1_0000 then 3 else 4
    ensures Spelled(Encode(cp), cp, |Encode(cp)|)
  {
    hide Encode, DecodeFront, Spelled;
    DecodeEncoded(cp, []);
    assert Encode(cp) + [] == Encode(cp);
    DecodesExactly(Encode(cp), cp, |Encode(cp)|);
    EncodedLength(cp);
  }

  lemma EncodedLength(cp: nat)
    requires cp < 0x11_0000
    ensures |Encode(cp)| == if cp < 0x80 then 1 else if cp < 0x800 then 2 else if cp < 0x1_0000 then 3 else 4
  {
  }

  /** One unit for the values below 0x10000 that are not surrogates, a pair up to 0x10FFFF, nothing else. */
  lemma UnitsExactly(cp: nat, us: seq<UInt16>)
    ensures Units(cp) == Success(us) <==>
              || (|us| == 1 && us[0] as int == cp && !(0xD800 <= cp <= 0xDFFF))
              || (|us| == 2 && 0xD800 <= us[0] <= 0xDBFF && 0xDC00 <= us[1] <= 0xDFFF
                  && cp == 0x1_0000 + (us[0] as int - 0xD800) * 0x400 + (us[1] as int - 0xDC00))
    ensures Units(cp) == Failure(SurrogateCodePoint) <==> 0xD800 <= cp <= 0xDFFF
    ensures Units(cp) == Failure(OutOfRange) <==> cp > 0x10_FFFF
  {
    if |us| == 2 && 0x1_0000 <= cp <= 0x10_FFFF {
      assert Units(cp).value == us <==> Units(cp).value[0] == us[0] && Units(cp).value[1] == us[1];
    } else if |us| == 1 && Units(cp).Success? && |Units(cp).value| == 1 {
      assert Units(cp).value == us <==> Units(cp).value[0] == us[0];
    }
  }
}
