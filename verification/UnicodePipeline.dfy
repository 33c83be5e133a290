/** From \\u escapes through UTF-8 to UTF-16 little-endian: the units that were written come out. */
module UnicodePipeline {
  import opened Ascii
  import opened Bytes
  import opened Json
  import opened JsonText
  import opened Utf8
  import opened Wrappers

  /** Each unit written as a \\u escape with the given four hex digits. */
  function EscapesText(hex: seq<Text>): Text {
    if hex == [] then [] else [BACKSLASH, LOWER_U] + hex[0] + EscapesText(hex[1..])
  }

  ghost predicate Spells(hex: seq<Text>, us: seq<UInt16>) {
    |hex| == |us| && forall i | 0 <= i < |us| :: HexValue(hex[i]) == Some(us[i])
  }

  lemma EscapesSplit(hex: seq<Text>, tail: Text)
    requires hex != []
    ensures EscapesText(hex) + tail == [BACKSLASH, LOWER_U] + hex[0] + (EscapesText(hex[1..]) + tail)
  {
  }

  lemma {:induction false} EscapesParse(hex: seq<Text>, us: seq<UInt16>, s: Text, out: Text)
    requires Spells(hex, us) && Paired(us)
    ensures Chars(EscapesText(hex) + ([QUOTE] + s), out) == Ok(out + FromUnits(us), s)
    decreases |us|
  {
    hide Encode, HexValue, IsHigh, IsLow, Chars, EscapesText;
    var end := [QUOTE] + s;
    if us == [] {
      NoEscapes(hex, s, out);
      assert out + FromUnits(us) == out;
    } else if IsHigh(us[0]) {
      EscapesSplit(hex, end);
      EscapesSplit(hex[1..], end);
      assert hex[1..][1..] == hex[2..];
      PairEscape(hex[0], hex[1], us[0], us[1], EscapesText(hex[2..]) + end, out);
      EscapesParse(hex[2..], us[2..], s, out + Encode(PairValue(us[0], us[1])));
      assert out + Encode(PairValue(us[0], us[1])) + FromUnits(us[2..]) == out + FromUnits(us);
    } else {
      EscapesSplit(hex, end);
      PlainEscape(hex[0], us[0], EscapesText(hex[1..]) + end, out);
      EscapesParse(hex[1..], us[1..], s, out + Encode(us[0]));
      assert out + Encode(us[0]) + FromUnits(us[1..]) == out + FromUnits(us);
    }
  }

  lemma NoEscapes(hex: seq<Text>, s: Text, out: Text)
    requires hex == []
    ensures Chars(EscapesText(hex) + ([QUOTE] + s), out) == Ok(out, s)
  {
    assert EscapesText(hex) + ([QUOTE] + s) == [QUOTE] + s && ([QUOTE] + s)[1..] == s;
  }

  /**
   Any well-formed UTF-16 sequence, written unit by unit as \\u escapes in a JSON string, is parsed to UTF-8 and
   converted back to exactly the same units.
   */
  lemma PipelineIsIdentity(hex: seq<Text>, us: seq<UInt16>, accepts: Text -> bool)
    requires Spells(hex, us) && Paired(us)
    ensures var parsed := ParseTop([QUOTE] + EscapesText(hex) + [QUOTE], accepts);
            && parsed.Success? && parsed.value.String?
            && ToUnits(parsed.value.s) == Success(us)
  {
    var t := [QUOTE] + EscapesText(hex) + [QUOTE];
    assert t[0] == QUOTE && SkipWs(t) == t;
    assert t[1..] == EscapesText(hex) + ([QUOTE] + []);
    EscapesParse(hex, us, [], []);
    assert [] + FromUnits(us) == FromUnits(us);
    UnitsRoundTrip(us);
  }

  // ---- Every unit has a spelling ----

  function Digit(n: nat): Byte
    requires n < 0x10
  {
    if n < 10 then 0x30 + n else 0x61 + (n - 10)
  }

  function HexText(u: UInt16): Text {
    [Digit(u / 0x1000), Digit(u / 0x100 % 0x10), Digit(u / 0x10 % 0x10), Digit(u % 0x10)]
  }

  lemma DigitReads(n: nat)
    requires n < 0x10
    ensures HexDigit(Digit(n)) == Some(n)
  {
  }

  lemma FourDigitsJoin(u: UInt16)
    ensures ((u / 0x1000 * 0x10 + u / 0x100 % 0x10) * 0x10 + u / 0x10 % 0x10) * 0x10 + u % 0x10 == u
  {
    assert u / 0x100 / 0x10 == u / 0x1000 && u / 0x10 / 0x10 == u / 0x100;
  }

  /** Four hex digits spell any unit. */
  lemma HexTextReads(u: UInt16)
    ensures HexValue(HexText(u)) == Some(u)
  {
    hide HexDigit, Digit;
    DigitReads(u / 0x1000);
    DigitReads(u / 0x100 % 0x10);
    DigitReads(u / 0x10 % 0x10);
    DigitReads(u % 0x10);
    FourDigitsJoin(u);
  }
}
