/**
 The recursive-descent JSON parser (src/internal_json.hpp). What it must compute is given by functions from the text
 that is left to a value and the text left after it.
 */
module Json {
  import opened Ascii
  import opened Bytes
  import opened Utf8
  import opened Wrappers

  const QUOTE: Byte := 0x22
  const COMMA: Byte := 0x2C
  const MINUS: Byte := 0x2D
  const LBRACKET: Byte := 0x5B
  const BACKSLASH: Byte := 0x5C
  const RBRACKET: Byte := 0x5D
  const LOWER_F: Byte := 0x66
  const LOWER_N: Byte := 0x6E
  const LOWER_T: Byte := 0x74
  const LOWER_U: Byte := 0x75
  const LBRACE: Byte := 0x7B
  const RBRACE: Byte := 0x7D

  const TRUE_TEXT: Text := [0x74, 0x72, 0x75, 0x65]
  const FALSE_TEXT: Text := [0x66, 0x61, 0x6C, 0x73, 0x65]
  const NULL_TEXT: Text := [0x6E, 0x75, 0x6C, 0x6C]

  /** Numbers keep their token; an object keeps the first of several equal keys. */
  datatype JsonValue =
    | Null
    | Bool(b: bool)
    | Number(token: Text)
    | String(s: Text)
    | Object(obj: map<Text, JsonValue>)
    | Array(arr: seq<JsonValue>)

  datatype JsonError =
    | TrailingData
    | UnexpectedEnd
    | ExpectedCharacter
    | ExpectedValue
    | UnexpectedCharacter
    | ExpectedKey
    | ExpectedCommaOrBrace
    | ExpectedCommaOrBracket
    | ExpectedTrueFalse
    | ExpectedNull
    | MalformedNumber
    | UnterminatedString
    | TruncatedEscape
    | BadEscape
    | TruncatedHex
    | BadHexDigit
    | ExpectedLowSurrogate
    | InvalidLowSurrogate
    | UnexpectedLowSurrogate

  datatype Parsed<T> = Ok(value: T, rest: Text) | Err(error: JsonError)

  // ---- White space, digits, numbers ----

  function SkipWs(s: Text): (r: Text)
    ensures |r| <= |s|
  {
    if s != [] && IsBlank(s[0]) then SkipWs(s[1..]) else s
  }

  predicate StartsWith(s: Text, c: Byte) {
    s != [] && s[0] == c
  }

  function SkipDigits(s: Text): (r: Text)
    ensures |r| <= |s|
  {
    if s != [] && IsDigit(s[0]) then SkipDigits(s[1..]) else s
  }

  function SkipInteger(s: Text): (r: Text)
    ensures |r| <= |s|
  {
    var t := if StartsWith(s, MINUS) then s[1..] else s;
    if StartsWith(t, ZERO) then t[1..] else SkipDigits(t)
  }

  function SkipFraction(s: Text): (r: Text)
    ensures |r| <= |s|
  {
    if StartsWith(s, DOT) then SkipDigits(s[1..]) else s
  }

  function SkipExponent(s: Text): (r: Text)
    ensures |r| <= |s|
  {
    if StartsWith(s, 0x65) || StartsWith(s, 0x45) then
      var t := s[1..];
      SkipDigits(if StartsWith(t, PLUS) || StartsWith(t, MINUS) then t[1..] else t)
    else s
  }

  function SkipNumber(s: Text): (r: Text)
    ensures |r| <= |s|
  {
    SkipExponent(SkipFraction(SkipInteger(s)))
  }

  predicate StartsNumber(c: Byte) {
    c == MINUS || IsDigit(c)
  }

  /** A token that begins like a number is not empty. */
  lemma NumberIsProgress(s: Text)
    requires s != [] && StartsNumber(s[0])
    ensures |SkipNumber(s)| < |s|
  {
  }

  /** `accepts` is the verdict of the C library's number conversion on the token. */
  function ParseNumber(s: Text, accepts: Text -> bool): (r: Parsed<JsonValue>)
    requires s != [] && StartsNumber(s[0])
    ensures r.Ok? ==> |r.rest| < |s|
  {
    NumberIsProgress(s);
    var rest := SkipNumber(s);
    var token := s[..|s| - |rest|];
    if accepts(token) then Ok(Number(token), rest) else Err(MalformedNumber)
  }

  // ---- Strings ----

  function HexDigit(c: Byte): Option<nat> {
    if IsDigit(c) then Some(c - 0x30)
    else if 0x61 <= c <= 0x66 then Some(c - 0x61 + 10)
    else if 0x41 <= c <= 0x46 then Some(c - 0x41 + 10)
    else None
  }

  /** Four hex digits. */
  function Hex4(s: Text): (r: Parsed<UInt16>)
    ensures r.Ok? ==> |s| >= 4 && r.rest == s[4..]
  {
    if |s| < 4 then Err(TruncatedHex)
    else
      match (HexDigit(s[0]), HexDigit(s[1]), HexDigit(s[2]), HexDigit(s[3]))
      case (Some(a), Some(b), Some(c), Some(d)) => HexSmall(s); Ok(((a * 0x10 + b) * 0x10 + c) * 0x10 + d, s[4..])
      case _ => Err(BadHexDigit)
  }

  lemma HexSmall(s: Text)
    ensures forall c :: HexDigit(c).Some? ==> HexDigit(c).value < 0x10
  {
  }

  /** The byte a one-letter escape stands for. */
  function ShortEscape(e: Byte): Option<Byte> {
    if e == QUOTE then Some(QUOTE)
    else if e == BACKSLASH then Some(BACKSLASH)
    else if e == 0x2F then Some(0x2F)
    else if e == 0x62 then Some(0x08)
    else if e == 0x66 then Some(0x0C)
    else if e == 0x6E then Some(0x0A)
    else if e == 0x72 then Some(0x0D)
    else if e == 0x74 then Some(0x09)
    else None
  }

  /** The code point after `\u`, with its second half when it needs one. */
  function UnicodeEscape(s: Text): (r: Parsed<nat>)
    ensures r.Ok? ==> |r.rest| < |s| && r.value < 0x11_0000
  {
    match Hex4(s)
    case Err(e) => Err(e)
    case Ok(high, t) =>
      if IsHigh(high) then
        if |t| < 2 || t[0] != BACKSLASH || t[1] != LOWER_U then Err(ExpectedLowSurrogate)
        else
          match Hex4(t[2..])
          case Err(e) => Err(e)
          case Ok(low, u) => if !IsLow(low) then Err(InvalidLowSurrogate) else Ok(PairValue(high, low), u)
      else if IsLow(high) then Err(UnexpectedLowSurrogate)
      else Ok(high, t)
  }

  /** The characters up to the closing quote, after `out`. */
  function Chars(s: Text, out: Text): (r: Parsed<Text>)
    ensures r.Ok? ==> |r.rest| < |s|
    decreases |s|
  {
    if s == [] then Err(UnterminatedString)
    else if s[0] == QUOTE then Ok(out, s[1..])
    else if s[0] != BACKSLASH then Chars(s[1..], out + [s[0]])
    else if |s| < 2 then Err(TruncatedEscape)
    else if s[1] == LOWER_U then
      match UnicodeEscape(s[2..])
      case Err(e) => Err(e)
      case Ok(cp, t) => Chars(t, out + Encode(cp))
    else
      match ShortEscape(s[1])
      case None => Err(BadEscape)
      case Some(c) => Chars(s[2..], out + [c])
  }

  // ---- Values ----

  function ParseValue(s: Text, accepts: Text -> bool): (r: Parsed<JsonValue>)
    ensures r.Ok? ==> |r.rest| < |s|
    decreases |s|, 1
  {
    var t := SkipWs(s);
    if t == [] then Err(ExpectedValue)
    else if t[0] == LBRACE then
      var u := SkipWs(t[1..]);
      if StartsWith(u, RBRACE) then Ok(Object(map[]), u[1..]) else ParseMembers(u, map[], accepts)
    else if t[0] == LBRACKET then
      var u := SkipWs(t[1..]);
      if StartsWith(u, RBRACKET) then Ok(Array([]), u[1..]) else ParseElements(u, [], accepts)
    else if t[0] == QUOTE then
      match Chars(t[1..], [])
      case Ok(text, rest) => Ok(String(text), rest)
      case Err(e) => Err(e)
    else if t[0] == LOWER_T || t[0] == LOWER_F then
      if TRUE_TEXT <= t then Ok(Bool(true), t[4..])
      else if FALSE_TEXT <= t then Ok(Bool(false), t[5..])
      else Err(ExpectedTrueFalse)
    else if t[0] == LOWER_N then
      if NULL_TEXT <= t then Ok(Null, t[4..]) else Err(ExpectedNull)
    else if StartsNumber(t[0]) then ParseNumber(t, accepts)
    else Err(UnexpectedCharacter)
  }

  /** A member's key and the text its value begins at. */
  function KeyAt(s: Text): (r: Parsed<Text>)
    ensures r.Ok? ==> |r.rest| < |s|
  {
    var t := SkipWs(s);
    if t == [] then Err(UnexpectedEnd)
    else if t[0] != QUOTE then Err(ExpectedKey)
    else
      match Chars(t[1..], [])
      case Err(e) => Err(e)
      case Ok(key, afterKey) =>
        var u := SkipWs(afterKey);
        if !StartsWith(u, COLON) then Err(ExpectedCharacter) else Ok(key, SkipWs(u[1..]))
  }

  /** The members still to come, after those in `obj`. */
  function ParseMembers(s: Text, obj: map<Text, JsonValue>, accepts: Text -> bool): (r: Parsed<JsonValue>)
    ensures r.Ok? ==> |r.rest| < |s|
    decreases |s|, 0
  {
    match KeyAt(s)
    case Err(e) => Err(e)
    case Ok(key, atValue) =>
      match ParseValue(atValue, accepts)
      case Err(e) => Err(e)
      case Ok(v, afterValue) =>
        var w := SkipWs(afterValue);
        var more := Emplace(obj, key, v);
        if StartsWith(w, COMMA) then ParseMembers(w[1..], more, accepts)
        else if StartsWith(w, RBRACE) then Ok(Object(more), w[1..])
        else Err(ExpectedCommaOrBrace)
  }

  /** std::map::emplace: a key that is already there keeps its value. */
  function Emplace(obj: map<Text, JsonValue>, key: Text, v: JsonValue): map<Text, JsonValue> {
    if key in obj then obj else obj[key := v]
  }

  /** The elements still to come, after those in `arr`. */
  function ParseElements(s: Text, arr: seq<JsonValue>, accepts: Text -> bool): (r: Parsed<JsonValue>)
    ensures r.Ok? ==> |r.rest| < |s|
    decreases |s|, 2
  {
    match ParseValue(SkipWs(s), accepts)
    case Err(e) => Err(e)
    case Ok(v, afterValue) =>
      var w := SkipWs(afterValue);
      if StartsWith(w, COMMA) then ParseElements(w[1..], arr + [v], accepts)
      else if StartsWith(w, RBRACKET) then Ok(Array(arr + [v]), w[1..])
      else Err(ExpectedCommaOrBracket)
  }

  function ParseTop(s: Text, accepts: Text -> bool): Result<JsonValue, JsonError> {
    match ParseValue(SkipWs(s), accepts)
    case Err(e) => Failure(e)
    case Ok(v, rest) => if SkipWs(rest) == [] then Success(v) else Failure(TrailingData)
  }
}
