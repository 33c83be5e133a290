/** The parser object itself: one position that every method advances (src/internal_json.hpp). */
module JsonParser {
  import opened Ascii
  import opened Bytes
  import opened Json
  import opened Utf8
  import opened Wrappers

  class Parser {
    const src: Text
    // The number conversion of the C library, known only by its verdict on a token.
    const accepts: Text -> bool
    var pos: nat

    predicate Valid()
      reads this
    {
      pos <= |src|
    }

    /** What is left to read. */
    function Left(): Text
      requires Valid()
      reads this
    {
      src[pos..]
    }

    constructor (text: Text, stod: Text -> bool)
      ensures Valid() && src == text && accepts == stod && Left() == text
    {
      src, accepts, pos := text, stod, 0;
    }

    method SkipWhite()
      requires Valid()
      modifies this`pos
      ensures Valid() && Left() == SkipWs(old(Left())) && pos >= old(pos)
    {
      while pos < |src|
        invariant Valid() && pos >= old(pos)
        invariant SkipWs(old(Left())) == SkipWs(Left())
      {
        var c := src[pos];
        assert Left()[0] == c && Left()[1..] == src[pos + 1..];
        if IsBlank(c) {
          pos := pos + 1;
        } else {
          break;
        }
      }
    }

    method Consume(c: Byte) returns (ok: bool)
      requires Valid()
      modifies this`pos
      ensures Valid() && ok == StartsWith(old(Left()), c)
      ensures Left() == if ok then old(Left())[1..] else old(Left())
      ensures pos == if ok then old(pos) + 1 else old(pos)
    {
      if pos < |src| && src[pos] == c {
        assert Left()[1..] == src[pos + 1..];
        pos := pos + 1;
        return true;
      }
      return false;
    }

    method SkipDigitRun()
      requires Valid()
      modifies this`pos
      ensures Valid() && Left() == SkipDigits(old(Left())) && pos >= old(pos)
    {
      while pos < |src| && IsDigit(src[pos])
        invariant Valid() && pos >= old(pos)
        invariant SkipDigits(old(Left())) == SkipDigits(Left())
      {
        assert Left()[0] == src[pos] && Left()[1..] == src[pos + 1..];
        pos := pos + 1;
      }
      assert pos < |src| ==> Left()[0] == src[pos];
    }

    method ParseNumberToken() returns (r: Result<JsonValue, JsonError>)
      requires Valid() && Left() != [] && StartsNumber(Left()[0])
      modifies this`pos
      ensures Valid() && pos >= old(pos)
      ensures match ParseNumber(old(Left()), accepts)
              case Ok(v, rest) => r == Success(v) && Left() == rest && pos > old(pos)
              case Err(e) => r == Failure(e)
    {
      hide SkipInteger, SkipFraction, SkipExponent, StartsNumber;
      var start := pos;
      ghost var s := Left();
      NumberIsProgress(s);
      ScanInteger();
      ScanFraction();
      ScanExponent();
      var token := src[start..pos];
      assert |s| - |SkipNumber(s)| == pos - start && token == s[..pos - start];
      if !accepts(token) {
        return Failure(MalformedNumber);
      }
      return Success(Number(token));
    }

    method ScanInteger()
      requires Valid()
      modifies this`pos
      ensures Valid() && Left() == SkipInteger(old(Left())) && pos >= old(pos)
    {
      var _ := Consume(MINUS);
      if pos < |src| && src[pos] == ZERO {
        assert Left()[1..] == src[pos + 1..];
        pos := pos + 1;
      } else {
        SkipDigitRun();
      }
    }

    method ScanFraction()
      requires Valid()
      modifies this`pos
      ensures Valid() && Left() == SkipFraction(old(Left())) && pos >= old(pos)
    {
      if pos < |src| && src[pos] == DOT {
        assert Left()[1..] == src[pos + 1..];
        pos := pos + 1;
        SkipDigitRun();
      }
    }

    method ScanExponent()
      requires Valid()
      modifies this`pos
      ensures Valid() && Left() == SkipExponent(old(Left())) && pos >= old(pos)
    {
      if pos < |src| && (src[pos] == 0x65 || src[pos] == 0x45) {
        assert Left()[1..] == src[pos + 1..];
        pos := pos + 1;
        if pos < |src| && (src[pos] == PLUS || src[pos] == MINUS) {
          assert Left()[1..] == src[pos + 1..];
          pos := pos + 1;
        }
        SkipDigitRun();
      }
    }

    method ParseHex4() returns (r: Result<UInt16, JsonError>)
      requires Valid()
      modifies this`pos
      ensures Valid() && pos >= old(pos)
      ensures match Hex4(old(Left()))
              case Ok(v, rest) => r == Success(v) && Left() == rest && pos == old(pos) + 4
              case Err(e) => r == Failure(e)
    {
      if pos + 4 > |src| {
        return Failure(TruncatedHex);
      }
      ghost var s := Left();
      var v := 0;
      for i := 0 to 4
        invariant pos == old(pos) + i && Valid()
        invariant forall k | 0 <= k < i :: HexDigit(s[k]).Some?
        invariant v == HexPrefix(s, i)
      {
        var c := src[pos];
        assert s[i] == c;
        pos := pos + 1;
        var d := HexDigit(c);
        if d.None? {
          return Failure(BadHexDigit);
        }
        v := v * 0x10 + d.value;
      }
      assert Left() == s[4..];
      FourPrefixed(s);
      return Success(v);
    }

    method ParseUnicodeEscape() returns (r: Result<UInt32, JsonError>)
      requires Valid()
      modifies this`pos
      ensures Valid() && pos >= old(pos)
      ensures match UnicodeEscape(old(Left()))
              case Ok(cp, rest) => r == Success(cp) && Left() == rest && pos > old(pos)
              case Err(e) => r == Failure(e)
    {
      hide Hex4, IsHigh, IsLow;
      var high := ParseHex4();
      if high.Failure? {
        return Failure(high.error);
      }
      var cp: UInt32 := high.value;
      if IsHigh(high.value) {
        if pos + 2 > |src| || src[pos] != BACKSLASH || src[pos + 1] != LOWER_U {
          return Failure(ExpectedLowSurrogate);
        }
        assert Left()[2..] == src[pos + 2..];
        pos := pos + 2;
        var low := ParseHex4();
        if low.Failure? {
          return Failure(low.error);
        }
        if !IsLow(low.value) {
          return Failure(InvalidLowSurrogate);
        }
        cp := PairValue(high.value, low.value);
      } else if IsLow(high.value) {
        return Failure(UnexpectedLowSurrogate);
      }
      return Success(cp);
    }

    /** parseString, from the opening quote on. */
    method ParseString() returns (r: Result<Text, JsonError>)
      requires Valid() && StartsWith(Left(), QUOTE)
      modifies this`pos
      ensures Valid() && pos >= old(pos)
      ensures match Chars(old(Left())[1..], [])
              case Ok(text, rest) => r == Success(text) && Left() == rest && pos > old(pos)
              case Err(e) => r == Failure(e)
    {
      hide UnicodeEscape, ShortEscape, Encode;
      var _ := Consume(QUOTE);
      ghost var all := Chars(Left(), []);
      var out: Text := [];
      while true
        invariant Valid() && pos > old(pos) && all == Chars(Left(), out)
        decreases |src| - pos
      {
        if pos >= |src| {
          return Failure(UnterminatedString);
        }
        var c := src[pos];
        assert Left()[0] == c && Left()[1..] == src[pos + 1..];
        pos := pos + 1;
        if c == QUOTE {
          return Success(out);
        }
        if c == BACKSLASH {
          var piece := ParseEscape();
          if piece.Failure? {
            return Failure(piece.error);
          }
          out := out + piece.value;
        } else {
          out := out + [c];
        }
      }
    }

    /** What follows a backslash. */
    method ParseEscape() returns (r: Result<Text, JsonError>)
      requires Valid()
      modifies this`pos
      ensures Valid() && pos >= old(pos)
      ensures match EscapeAt(old(Left()))
              case Ok(piece, rest) => r == Success(piece) && Left() == rest && pos > old(pos)
              case Err(e) => r == Failure(e)
    {
      hide UnicodeEscape, ShortEscape, Encode;
      if pos >= |src| {
        return Failure(TruncatedEscape);
      }
      var e := src[pos];
      assert Left()[0] == e && Left()[1..] == src[pos + 1..];
      pos := pos + 1;
      if e == LOWER_U {
        var cp := ParseUnicodeEscape();
        if cp.Failure? {
          return Failure(cp.error);
        }
        var piece := AppendUtf8Codepoint([], cp.value);
        assert [] + Encode(cp.value) == Encode(cp.value);
        return Success(piece);
      }
      var short := ShortEscape(e);
      if short.None? {
        return Failure(BadEscape);
      }
      return Success([short.value]);
    }

    // ---- Values ----

    method ParseValueHere() returns (r: Result<JsonValue, JsonError>)
      requires Valid()
      modifies this`pos
      ensures Valid() && pos >= old(pos)
      ensures match ParseValue(old(Left()), accepts)
              case Ok(v, rest) => r == Success(v) && Left() == rest && pos > old(pos)
              case Err(e) => r == Failure(e)
      decreases |src| - pos, 1
    {
      hide SkipWs, Chars, ParseNumber, StartsNumber, ParseMembers, ParseElements;
      SkipWhite();
      if pos >= |src| {
        return Failure(ExpectedValue);
      }
      var c := src[pos];
      assert Left()[0] == c;
      if c == LBRACE {
        r := ParseObject();
      } else if c == LBRACKET {
        r := ParseArray();
      } else if c == QUOTE {
        var text := ParseString();
        r := if text.Failure? then Failure(text.error) else Success(String(text.value));
      } else if c == LOWER_T || c == LOWER_F {
        r := ParseBool();
      } else if c == LOWER_N {
        r := ParseNull();
      } else if StartsNumber(c) {
        r := ParseNumberToken();
      } else {
        r := Failure(UnexpectedCharacter);
      }
    }

    method ParseBool() returns (r: Result<JsonValue, JsonError>)
      requires Valid()
      modifies this`pos
      ensures Valid() && pos >= old(pos)
      ensures var t := old(Left());
              if TRUE_TEXT <= t then r == Success(Bool(true)) && Left() == t[4..] && pos > old(pos)
              else if FALSE_TEXT <= t then r == Success(Bool(false)) && Left() == t[5..] && pos > old(pos)
              else r == Failure(ExpectedTrueFalse)
    {
      ghost var t := Left();
      if pos + 4 <= |src| && src[pos..pos + 4] == TRUE_TEXT {
        assert t[..4] == src[pos..pos + 4] && t[4..] == src[pos + 4..];
        pos := pos + 4;
        return Success(Bool(true));
      }
      if pos + 5 <= |src| && src[pos..pos + 5] == FALSE_TEXT {
        assert t[..5] == src[pos..pos + 5] && t[5..] == src[pos + 5..];
        pos := pos + 5;
        return Success(Bool(false));
      }
      return Failure(ExpectedTrueFalse);
    }

    method ParseNull() returns (r: Result<JsonValue, JsonError>)
      requires Valid()
      modifies this`pos
      ensures Valid() && pos >= old(pos)
      ensures if NULL_TEXT <= old(Left()) then r == Success(Null) && Left() == old(Left())[4..] && pos > old(pos)
              else r == Failure(ExpectedNull)
    {
      ghost var t := Left();
      if pos + 4 <= |src| && src[pos..pos + 4] == NULL_TEXT {
        assert t[..4] == src[pos..pos + 4] && t[4..] == src[pos + 4..];
        pos := pos + 4;
        return Success(Null);
      }
      return Failure(ExpectedNull);
    }

    method ParseObject() returns (r: Result<JsonValue, JsonError>)
      requires Valid() && StartsWith(Left(), LBRACE)
      modifies this`pos
      ensures Valid() && pos >= old(pos)
      ensures var u := SkipWs(old(Left())[1..]);
              if StartsWith(u, RBRACE) then r == Success(Object(map[])) && Left() == u[1..] && pos > old(pos)
              else
                match ParseMembers(u, map[], accepts)
                case Ok(v, rest) => r == Success(v) && Left() == rest && pos > old(pos)
                case Err(e) => r == Failure(e)
      decreases |src| - pos, 0
    {
      hide SkipWs, KeyAt, ParseValue;
      var _ := Consume(LBRACE);
      SkipWhite();
      var empty := Consume(RBRACE);
      if empty {
        return Success(Object(map[]));
      }
      ghost var all := ParseMembers(Left(), map[], accepts);
      var obj: map<Text, JsonValue> := map[];
      while true
        invariant Valid() && pos > old(pos) && all == ParseMembers(Left(), obj, accepts)
        decreases |src| - pos
      {
        var key := ParseKey();
        if key.Failure? {
          return Failure(key.error);
        }
        var val := ParseValueHere();
        if val.Failure? {
          return Failure(val.error);
        }
        obj := if key.value in obj then obj else obj[key.value := val.value];
        SkipWhite();
        var again := Consume(COMMA);
        if again {
          continue;
        }
        var done := Consume(RBRACE);
        if done {
          return Success(Object(obj));
        }
        return Failure(ExpectedCommaOrBrace);
      }
    }

    /** White space, key, white space, colon, white space. */
    method ParseKey() returns (r: Result<Text, JsonError>)
      requires Valid()
      modifies this`pos
      ensures Valid() && pos >= old(pos)
      ensures match KeyAt(old(Left()))
              case Ok(key, rest) => r == Success(key) && Left() == rest && pos > old(pos)
              case Err(e) => r == Failure(e)
    {
      hide SkipWs, Chars;
      SkipWhite();
      if pos >= |src| {
        return Failure(UnexpectedEnd);
      }
      assert Left()[0] == src[pos];
      if src[pos] != QUOTE {
        return Failure(ExpectedKey);
      }
      var key := ParseString();
      if key.Failure? {
        return Failure(key.error);
      }
      SkipWhite();
      var colon := Consume(COLON);
      if !colon {
        return Failure(ExpectedCharacter);
      }
      SkipWhite();
      return Success(key.value);
    }

    method ParseArray() returns (r: Result<JsonValue, JsonError>)
      requires Valid() && StartsWith(Left(), LBRACKET)
      modifies this`pos
      ensures Valid() && pos >= old(pos)
      ensures var u := SkipWs(old(Left())[1..]);
              if StartsWith(u, RBRACKET) then r == Success(Array([])) && Left() == u[1..] && pos > old(pos)
              else
                match ParseElements(u, [], accepts)
                case Ok(v, rest) => r == Success(v) && Left() == rest && pos > old(pos)
                case Err(e) => r == Failure(e)
      decreases |src| - pos, 0
    {
      hide SkipWs, ParseValue;
      var _ := Consume(LBRACKET);
      SkipWhite();
      var empty := Consume(RBRACKET);
      if empty {
        return Success(Array([]));
      }
      ghost var all := ParseElements(Left(), [], accepts);
      var arr: seq<JsonValue> := [];
      while true
        invariant Valid() && pos > old(pos) && all == ParseElements(Left(), arr, accepts)
        decreases |src| - pos
      {
        SkipWhite();
        var v := ParseValueHere();
        if v.Failure? {
          return Failure(v.error);
        }
        arr := arr + [v.value];
        SkipWhite();
        var again := Consume(COMMA);
        if again {
          continue;
        }
        var done := Consume(RBRACKET);
        if done {
          return Success(Array(arr));
        }
        return Failure(ExpectedCommaOrBracket);
      }
    }

    method ParseTopLevel() returns (r: Result<JsonValue, JsonError>)
      requires Valid() && pos == 0
      modifies this`pos
      ensures r == ParseTop(src, accepts)
    {
      hide SkipWs, ParseValue;
      assert Left() == src;
      SkipWhite();
      var v := ParseValueHere();
      if v.Failure? {
        return Failure(v.error);
      }
      SkipWhite();
      if pos != |src| {
        return Failure(TrailingData);
      }
      return v;
    }
  }

  /** The value of the first `n` hex digits. */
  ghost function HexPrefix(s: Text, n: nat): nat
    requires n <= |s|
  {
    if n == 0 then 0
    else HexPrefix(s, n - 1) * 0x10 + match HexDigit(s[n - 1]) case Some(d) => d case None => 0
  }

  lemma FourPrefixed(s: Text)
    requires |s| >= 4 && forall k | 0 <= k < 4 :: HexDigit(s[k]).Some?
    ensures Hex4(s) == Ok(HexPrefix(s, 4), s[4..])
  {
    hide HexDigit;
    assert HexPrefix(s, 1) == HexDigit(s[0]).value;
    assert HexPrefix(s, 2) == HexDigit(s[0]).value * 0x10 + HexDigit(s[1]).value;
    assert HexPrefix(s, 3) == HexPrefix(s, 2) * 0x10 + HexDigit(s[2]).value;
  }

  /** The text an escape stands for and what follows it. */
  function EscapeAt(s: Text): Parsed<Text> {
    if s == [] then Err(TruncatedEscape)
    else if s[0] == LOWER_U then
      match UnicodeEscape(s[1..])
      case Err(e) => Err(e)
      case Ok(cp, t) => Ok(Encode(cp), t)
    else
      match ShortEscape(s[0])
      case None => Err(BadEscape)
      case Some(c) => Ok([c], s[1..])
  }
}
