/**
 Written JSON (RFC 8259) with every freedom a writer has -- white space, escapes, hex case, number forms -- and the
 theorem that the parser gives back exactly the value that was written.
 */
module JsonText {
  import opened Ascii
  import opened Bytes
  import opened Json
  import opened Utf8
  import opened Wrappers

  // ---- Written forms ----

  /** One character of a string, the way it is written. */
  datatype Item =
    | Raw(c: Byte)
    | Short(letter: Byte)
    | Code(hex: Text)
    | Pair(high: Text, low: Text)

  datatype NumberForm = NumberForm(negative: bool, digits: Text, fraction: Option<Text>, exponent: Option<ExponentForm>)

  datatype ExponentForm = ExponentForm(letter: Byte, sign: Text, digits: Text)

  datatype Form =
    | NullForm
    | BoolForm(b: bool)
    | NumForm(n: NumberForm)
    | StringForm(items: seq<Item>)
    | ArrayForm(blank: Text, elems: seq<Element>)
    | ObjectForm(blank: Text, members: seq<Member>)

  datatype Element = Element(before: Text, value: Form, after: Text)

  datatype Member = Member(before: Text, key: seq<Item>, beforeColon: Text, afterColon: Text, value: Form, after: Text)

  // ---- Which forms are well formed ----

  predicate White(s: Text) {
    forall i | 0 <= i < |s| :: IsBlank(s[i])
  }

  function HexValue(h: Text): Option<UInt16> {
    match Hex4(h)
    case Ok(v, rest) => if |h| == 4 then Some(v) else None
    case Err(_) => None
  }

  predicate GoodItem(i: Item) {
    match i
    case Raw(c) => c != QUOTE && c != BACKSLASH
    case Short(letter) => letter != LOWER_U && ShortEscape(letter).Some?
    case Code(h) => HexValue(h).Some? && !IsHigh(HexValue(h).value) && !IsLow(HexValue(h).value)
    case Pair(h, l) => HexValue(h).Some? && HexValue(l).Some? && IsHigh(HexValue(h).value) && IsLow(HexValue(l).value)
  }

  predicate GoodItems(items: seq<Item>) {
    forall i | 0 <= i < |items| :: GoodItem(items[i])
  }

  /** A number of RFC 8259. */
  predicate GoodNumber(n: NumberForm) {
    && n.digits != [] && AllDigits(n.digits) && (n.digits[0] == ZERO ==> |n.digits| == 1)
    && (n.fraction.Some? ==> n.fraction.value != [] && AllDigits(n.fraction.value))
    && (n.exponent.Some? ==>
          var e := n.exponent.value;
          && e.letter in {0x65, 0x45} && (e.sign == [] || e.sign == [PLUS] || e.sign == [MINUS])
          && e.digits != [] && AllDigits(e.digits))
  }

  /** What the parser takes for a number: digits may be missing, and then the number conversion decides. */
  predicate TakenNumber(n: NumberForm) {
    && AllDigits(n.digits) && (if n.digits == [] then n.negative else n.digits[0] == ZERO ==> |n.digits| == 1)
    && (n.fraction.Some? ==> AllDigits(n.fraction.value))
    && (n.exponent.Some? ==>
          var e := n.exponent.value;
          && e.letter in {0x65, 0x45} && (e.sign == [] || e.sign == [PLUS] || e.sign == [MINUS])
          && AllDigits(e.digits))
  }

  lemma GoodIsTaken(n: NumberForm)
    requires GoodNumber(n)
    ensures TakenNumber(n)
  {
  }

  predicate Good(f: Form, accepts: Text -> bool) {
    match f
    case NullForm => true
    case BoolForm(_) => true
    case NumForm(n) => TakenNumber(n) && accepts(NumberText(n))
    case StringForm(items) => GoodItems(items)
    case ArrayForm(blank, elems) =>
      White(blank) && forall i | 0 <= i < |elems| ::
        White(elems[i].before) && White(elems[i].after) && Good(elems[i].value, accepts)
    case ObjectForm(blank, members) =>
      White(blank) && forall i | 0 <= i < |members| ::
        && White(members[i].before) && White(members[i].beforeColon) && White(members[i].afterColon)
        && White(members[i].after)
        && GoodItems(members[i].key) && Good(members[i].value, accepts)
  }

  // ---- Their text ----

  function ItemText(i: Item): Text {
    match i
    case Raw(c) => [c]
    case Short(letter) => [BACKSLASH, letter]
    case Code(h) => [BACKSLASH, LOWER_U] + h
    case Pair(h, l) => [BACKSLASH, LOWER_U] + h + [BACKSLASH, LOWER_U] + l
  }

  function ItemsText(items: seq<Item>): Text {
    if items == [] then [] else ItemText(items[0]) + ItemsText(items[1..])
  }

  function ExponentText(e: ExponentForm): Text {
    [e.letter] + e.sign + e.digits
  }

  function FractionPart(n: NumberForm): Text {
    match n.fraction case None => [] case Some(d) => [DOT] + d
  }

  function ExponentPart(n: NumberForm): Text {
    match n.exponent case None => [] case Some(e) => ExponentText(e)
  }

  function NumberText(n: NumberForm): Text {
    (if n.negative then [MINUS] else []) + n.digits + FractionPart(n) + ExponentPart(n)
  }

  function FormText(f: Form): Text
    decreases f, 0
  {
    match f
    case NullForm => NULL_TEXT
    case BoolForm(b) => if b then TRUE_TEXT else FALSE_TEXT
    case NumForm(n) => NumberText(n)
    case StringForm(items) => [QUOTE] + ItemsText(items) + [QUOTE]
    case ArrayForm(blank, elems) => if elems == [] then [LBRACKET] + blank + [RBRACKET]
                                    else [LBRACKET] + ElementsText(elems)
    case ObjectForm(blank, members) => if members == [] then [LBRACE] + blank + [RBRACE]
                                       else [LBRACE] + MembersText(members)
  }

  /** The elements with their commas and the closing bracket. */
  function ElementsText(elems: seq<Element>): Text
    requires elems != []
    decreases elems, 0
  {
    var e := elems[0];
    e.before + FormText(e.value) + e.after + if |elems| == 1 then [RBRACKET] else [COMMA] + ElementsText(elems[1..])
  }

  function MembersText(members: seq<Member>): Text
    requires members != []
    decreases members, 0
  {
    var m := members[0];
    m.before + [QUOTE] + ItemsText(m.key) + [QUOTE] + m.beforeColon + [COLON] + m.afterColon
    + FormText(m.value) + m.after + if |members| == 1 then [RBRACE] else [COMMA] + MembersText(members[1..])
  }

  // ---- Their meaning ----

  function ItemMeaning(i: Item): Text
    requires GoodItem(i)
  {
    match i
    case Raw(c) => [c]
    case Short(letter) => [ShortEscape(letter).value]
    case Code(h) => Encode(HexValue(h).value)
    case Pair(h, l) => Encode(PairValue(HexValue(h).value, HexValue(l).value))
  }

  function ItemsMeaning(items: seq<Item>): Text
    requires GoodItems(items)
  {
    if items == [] then [] else ItemMeaning(items[0]) + ItemsMeaning(items[1..])
  }

  function Meaning(f: Form, accepts: Text -> bool): JsonValue
    requires Good(f, accepts)
    decreases f, 0
  {
    match f
    case NullForm => Null
    case BoolForm(b) => Bool(b)
    case NumForm(n) => Number(NumberText(n))
    case StringForm(items) => String(ItemsMeaning(items))
    case ArrayForm(_, elems) => Array(ElementValues(elems, accepts))
    case ObjectForm(_, members) => Object(MemberValues(members, map[], accepts))
  }

  function ElementValues(elems: seq<Element>, accepts: Text -> bool): seq<JsonValue>
    requires forall i | 0 <= i < |elems| :: Good(elems[i].value, accepts)
    decreases elems, 0
  {
    if elems == [] then [] else [Meaning(elems[0].value, accepts)] + ElementValues(elems[1..], accepts)
  }

  /** The members in order, on top of those already there; of equal keys the first stays. */
  function MemberValues(members: seq<Member>, obj: map<Text, JsonValue>, accepts: Text -> bool): map<Text, JsonValue>
    requires forall i | 0 <= i < |members| :: GoodItems(members[i].key) && Good(members[i].value, accepts)
    decreases members, 0
  {
    if members == [] then obj
    else
      MemberValues(members[1..], Emplace(obj, ItemsMeaning(members[0].key), Meaning(members[0].value, accepts)),
                   accepts)
  }

  // ---- White space and digits are skipped exactly ----

  predicate NoWsFirst(s: Text) {
    s == [] || !IsBlank(s[0])
  }

  lemma {:induction false} WhiteSkipped(w: Text, s: Text)
    requires White(w) && NoWsFirst(s)
    ensures SkipWs(w + s) == s
  {
    if w == [] {
      assert w + s == s;
    } else {
      assert (w + s)[1..] == w[1..] + s;
      WhiteSkipped(w[1..], s);
    }
  }

  predicate NoDigitFirst(s: Text) {
    s == [] || !IsDigit(s[0])
  }

  lemma {:induction false} DigitsSkipped(d: Text, s: Text)
    requires AllDigits(d) && NoDigitFirst(s)
    ensures SkipDigits(d + s) == s
  {
    if d == [] {
      assert d + s == s;
    } else {
      assert (d + s)[1..] == d[1..] + s;
      DigitsSkipped(d[1..], s);
    }
  }

  /** What may follow a value: nothing, white space, a comma or a closing bracket. */
  predicate EndsValue(s: Text) {
    s == [] || IsBlank(s[0]) || s[0] == COMMA || s[0] == RBRACKET || s[0] == RBRACE
  }

  // ---- Numbers ----

  lemma IntegerSkipped(n: NumberForm, s: Text)
    requires TakenNumber(n) && NoDigitFirst(s)
    ensures SkipInteger((if n.negative then [MINUS] else []) + n.digits + s) == s
  {
    var sign := if n.negative then [MINUS] else [];
    var t := sign + n.digits + s;
    if n.negative {
      assert t[1..] == n.digits + s;
    } else {
      assert t == n.digits + s;
    }
    if n.digits != [] && n.digits[0] == ZERO {
      assert (n.digits + s)[1..] == s;
    } else {
      assert !StartsWith(n.digits + s, ZERO);
      DigitsSkipped(n.digits, s);
    }
  }

  lemma FractionSkipped(n: NumberForm, s: Text)
    requires TakenNumber(n) && NoDigitFirst(s) && !StartsWith(s, DOT)
    ensures SkipFraction(FractionPart(n) + s) == s
  {
    match n.fraction {
      case None => assert FractionPart(n) + s == s;
      case Some(d) =>
        assert ([DOT] + d + s)[1..] == d + s;
        DigitsSkipped(d, s);
    }
  }

  lemma ExponentParts(e: ExponentForm, s: Text)
    requires e.sign == [] || e.sign == [PLUS] || e.sign == [MINUS]
    requires AllDigits(e.digits) && EndsValue(s)
    ensures var t := (ExponentText(e) + s)[1..];
            e.digits + s == if StartsWith(t, PLUS) || StartsWith(t, MINUS) then t[1..] else t
  {
    var u := e.digits + s;
    assert (ExponentText(e) + s)[1..] == e.sign + u;
    if e.sign == [] {
      assert e.sign + u == u;
      assert u == [] || u[0] == if e.digits != [] then e.digits[0] else s[0];
    } else {
      assert (e.sign + u)[1..] == u;
    }
  }

  lemma ExponentSkipped(n: NumberForm, s: Text)
    requires TakenNumber(n) && EndsValue(s)
    ensures SkipExponent(ExponentPart(n) + s) == s
  {
    match n.exponent {
      case None => assert ExponentPart(n) + s == s;
      case Some(e) =>
        ExponentParts(e, s);
        DigitsSkipped(e.digits, s);
    }
  }

  /** No digit follows the integer, and neither a digit nor a point the fraction. */
  lemma PartsEnd(n: NumberForm, s: Text)
    requires TakenNumber(n) && EndsValue(s)
    ensures var t := ExponentPart(n) + s;
            NoDigitFirst(t) && !StartsWith(t, DOT) && NoDigitFirst(FractionPart(n) + t)
  {
    var t := ExponentPart(n) + s;
    if n.exponent.None? {
      assert t == s;
    } else {
      assert t[0] == n.exponent.value.letter;
    }
    if n.fraction.None? {
      assert FractionPart(n) + t == t;
    } else {
      assert (FractionPart(n) + t)[0] == DOT;
    }
  }

  lemma NumberSkipped(n: NumberForm, s: Text)
    requires TakenNumber(n) && EndsValue(s)
    ensures SkipNumber(NumberText(n) + s) == s
  {
    hide SkipInteger, SkipFraction, SkipExponent;
    var sign := if n.negative then [MINUS] else [];
    var t2 := ExponentPart(n) + s;
    var t1 := FractionPart(n) + t2;
    Regroup(sign + n.digits + FractionPart(n), ExponentPart(n), s);
    Regroup(sign + n.digits, FractionPart(n), t2);
    PartsEnd(n, s);
    hide FractionPart, ExponentPart, TakenNumber, EndsValue;
    IntegerSkipped(n, t1);
    FractionSkipped(n, t2);
    ExponentSkipped(n, s);
  }

  lemma NumberParses(n: NumberForm, s: Text, accepts: Text -> bool)
    requires TakenNumber(n) && accepts(NumberText(n)) && EndsValue(s)
    ensures var t := NumberText(n) + s;
            t != [] && StartsNumber(t[0]) && ParseNumber(t, accepts) == Ok(Number(NumberText(n)), s)
  {
    hide SkipNumber;
    var t := NumberText(n) + s;
    NumberSkipped(n, s);
    assert t[0] == if n.negative then MINUS else n.digits[0];
    assert t[..|t| - |s|] == NumberText(n);
  }

  // ---- Strings ----

  lemma HexParses(h: Text, s: Text)
    requires HexValue(h).Some?
    ensures Hex4(h + s) == Ok(HexValue(h).value, s)
  {
    assert (h + s)[..4] == h && (h + s)[4..] == s;
    assert forall i | 0 <= i < 4 :: (h + s)[i] == h[i];
  }

  lemma PlainEscape(h: Text, u: UInt16, s: Text, out: Text)
    requires HexValue(h) == Some(u) && !IsHigh(u) && !IsLow(u)
    ensures Chars([BACKSLASH, LOWER_U] + h + s, out) == Chars(s, out + Encode(u))
  {
    hide Encode, Hex4, HexValue, IsHigh, IsLow;
    var t := [BACKSLASH, LOWER_U] + h + s;
    assert t[0] == BACKSLASH && t[1] == LOWER_U && t[2..] == h + s;
    HexParses(h, s);
  }

  lemma PairEscape(h: Text, l: Text, high: UInt16, low: UInt16, s: Text, out: Text)
    requires HexValue(h) == Some(high) && HexValue(l) == Some(low) && IsHigh(high) && IsLow(low)
    ensures Chars([BACKSLASH, LOWER_U] + h + ([BACKSLASH, LOWER_U] + l + s), out)
            == Chars(s, out + Encode(PairValue(high, low)))
  {
    hide Encode, Hex4, HexValue, IsHigh, IsLow;
    var u := [BACKSLASH, LOWER_U] + l + s;
    var t := [BACKSLASH, LOWER_U] + h + u;
    assert t[0] == BACKSLASH && t[1] == LOWER_U && t[2..] == h + u;
    assert u[0] == BACKSLASH && u[1] == LOWER_U && u[2..] == l + s;
    HexParses(h, u);
    HexParses(l, s);
  }

  lemma PlainItems(i: Item, s: Text, out: Text)
    requires GoodItem(i) && (i.Raw? || i.Short?)
    ensures Chars(ItemText(i) + s, out) == Chars(s, out + ItemMeaning(i))
  {
    hide Encode, Hex4, HexValue, ShortEscape;
    var t := ItemText(i) + s;
    match i {
      case Raw(c) =>
        assert t[0] == c && t[1..] == s;
      case Short(letter) =>
        assert t[0] == BACKSLASH && t[1] == letter && t[2..] == s;
    }
  }

  lemma ItemParses(i: Item, s: Text, out: Text)
    requires GoodItem(i)
    ensures Chars(ItemText(i) + s, out) == Chars(s, out + ItemMeaning(i))
  {
    hide Encode, HexValue, Chars, ShortEscape;
    match i {
      case Raw(_) =>
        PlainItems(i, s, out);
      case Short(_) =>
        PlainItems(i, s, out);
      case Code(h) =>
        PlainEscape(h, HexValue(h).value, s, out);
      case Pair(h, l) =>
        PairEscape(h, l, HexValue(h).value, HexValue(l).value, s, out);
        assert ItemText(i) + s == [BACKSLASH, LOWER_U] + h + ([BACKSLASH, LOWER_U] + l + s);
    }
  }

  lemma {:induction false} ItemsParse(items: seq<Item>, s: Text, out: Text)
    requires GoodItems(items)
    ensures Chars(ItemsText(items) + [QUOTE] + s, out) == Ok(out + ItemsMeaning(items), s)
  {
    hide ItemText, ItemMeaning, GoodItem, Encode;
    if items == [] {
      assert ItemsText(items) + [QUOTE] + s == [QUOTE] + s && ([QUOTE] + s)[1..] == s;
      assert out + ItemsMeaning(items) == out;
    } else {
      var rest := ItemsText(items[1..]) + [QUOTE] + s;
      Regroup(ItemText(items[0]), ItemsText(items[1..]), [QUOTE]);
      Regroup(ItemText(items[0]), ItemsText(items[1..]) + [QUOTE], s);
      ItemParses(items[0], rest, out);
      ItemsParse(items[1..], s, out + ItemMeaning(items[0]));
      Regroup(out, ItemMeaning(items[0]), ItemsMeaning(items[1..]));
    }
  }

  // ---- Values ----

  predicate GoodElements(elems: seq<Element>, accepts: Text -> bool) {
    forall i | 0 <= i < |elems| :: White(elems[i].before) && White(elems[i].after) && Good(elems[i].value, accepts)
  }

  predicate GoodMembers(members: seq<Member>, accepts: Text -> bool) {
    forall i | 0 <= i < |members| ::
      && White(members[i].before) && White(members[i].beforeColon) && White(members[i].afterColon)
      && White(members[i].after)
      && GoodItems(members[i].key) && Good(members[i].value, accepts)
  }

  /** A value's text starts with a character that is neither white space nor a closing bracket. */
  lemma FormStarts(f: Form, accepts: Text -> bool)
    requires Good(f, accepts)
    ensures FormText(f) != [] && !IsBlank(FormText(f)[0]) && FormText(f)[0] != RBRACKET && FormText(f)[0] != RBRACE
  {
  }

  lemma FrontOf(a: Text, b: Text)
    requires a != []
    ensures a + b != [] && (a + b)[0] == a[0]
  {
  }

  lemma {:induction false} SkipTwice(s: Text)
    ensures SkipWs(SkipWs(s)) == SkipWs(s)
  {
    if s != [] && IsBlank(s[0]) {
      SkipTwice(s[1..]);
    } else {
    }
  }

  lemma ElementsSkip(s: Text, arr: seq<JsonValue>, accepts: Text -> bool)
    ensures ParseElements(SkipWs(s), arr, accepts) == ParseElements(s, arr, accepts)
  {
    hide SkipWs, ParseValue;
    SkipTwice(s);
  }

  lemma MembersSkip(s: Text, obj: map<Text, JsonValue>, accepts: Text -> bool)
    ensures ParseMembers(SkipWs(s), obj, accepts) == ParseMembers(s, obj, accepts)
  {
    hide SkipWs, ParseValue, Chars;
    SkipTwice(s);
  }

  /** What comes after an element's value: white space, then a comma or the closing bracket. */
  function ElementTail(elems: seq<Element>, s: Text): Text
    requires elems != []
  {
    (if |elems| == 1 then [RBRACKET] else [COMMA] + ElementsText(elems[1..])) + s
  }

  function MemberTail(members: seq<Member>, s: Text): Text
    requires members != []
  {
    (if |members| == 1 then [RBRACE] else [COMMA] + MembersText(members[1..])) + s
  }

  lemma TailEnds(w: Text, c: Byte, rest: Text)
    requires White(w) && (c == COMMA || c == RBRACKET || c == RBRACE)
    ensures EndsValue(w + ([c] + rest)) && SkipWs(w + ([c] + rest)) == [c] + rest
  {
    WhiteSkipped(w, [c] + rest);
    if w != [] {
      assert (w + ([c] + rest))[0] == w[0];
    } else {
      assert w + ([c] + rest) == [c] + rest;
    }
  }

  lemma {:induction false} FormParses(f: Form, s: Text, accepts: Text -> bool)
    requires Good(f, accepts) && EndsValue(s)
    ensures ParseValue(FormText(f) + s, accepts) == Ok(Meaning(f, accepts), s)
    decreases f, 1
  {
    var t := FormText(f) + s;
    FormStarts(f, accepts);
    FrontOf(FormText(f), s);
    assert SkipWs(t) == t;
    match f {
      case NullForm =>
        assert t[4..] == s && NULL_TEXT <= t;
      case BoolForm(b) =>
        BoolParses(b, s, accepts);
      case NumForm(n) =>
        NumberParses(n, s, accepts);
        NumberStarts(n, s);
      case StringForm(items) =>
        StringParses(items, s, accepts);
      case ArrayForm(blank, elems) =>
        ArrayParses(blank, elems, s, accepts);
      case ObjectForm(blank, members) =>
        ObjectParses(blank, members, s, accepts);
    }
  }

  lemma StringParses(items: seq<Item>, s: Text, accepts: Text -> bool)
    requires GoodItems(items)
    ensures ParseValue([QUOTE] + ItemsText(items) + [QUOTE] + s, accepts) == Ok(String(ItemsMeaning(items)), s)
  {
    hide Chars, ItemsText, ItemsMeaning;
    var t := [QUOTE] + ItemsText(items) + [QUOTE] + s;
    assert SkipWs(t) == t;
    assert t[1..] == ItemsText(items) + [QUOTE] + s;
    ItemsParse(items, s, []);
    assert [] + ItemsMeaning(items) == ItemsMeaning(items);
  }

  lemma BoolParses(b: bool, s: Text, accepts: Text -> bool)
    ensures ParseValue((if b then TRUE_TEXT else FALSE_TEXT) + s, accepts) == Ok(Bool(b), s)
  {
    var t := (if b then TRUE_TEXT else FALSE_TEXT) + s;
    assert t[0] == if b then LOWER_T else LOWER_F;
    assert SkipWs(t) == t;
    if b {
      assert TRUE_TEXT <= t && t[4..] == s;
    } else {
      assert t[0] != TRUE_TEXT[0] && FALSE_TEXT <= t && t[5..] == s;
    }
  }

  lemma NumberStarts(n: NumberForm, s: Text)
    requires TakenNumber(n)
    ensures var t := NumberText(n) + s;
            t != [] && StartsNumber(t[0]) && t[0] != LBRACE && t[0] != LBRACKET && t[0] != QUOTE
            && t[0] != LOWER_T && t[0] != LOWER_F && t[0] != LOWER_N
  {
    var t := NumberText(n) + s;
    assert t[0] == if n.negative then MINUS else n.digits[0];
  }

  lemma ValueIsArray(t: Text, accepts: Text -> bool)
    requires StartsWith(t, LBRACKET)
    ensures var u := SkipWs(t[1..]);
            ParseValue(t, accepts) == if StartsWith(u, RBRACKET) then Ok(Array([]), u[1..])
                                      else ParseElements(u, [], accepts)
  {
    hide ParseElements;
  }

  lemma ValueIsObject(t: Text, accepts: Text -> bool)
    requires StartsWith(t, LBRACE)
    ensures var u := SkipWs(t[1..]);
            ParseValue(t, accepts) == if StartsWith(u, RBRACE) then Ok(Object(map[]), u[1..])
                                      else ParseMembers(u, map[], accepts)
  {
    hide ParseMembers;
  }

  lemma {:induction false} ArrayParses(blank: Text, elems: seq<Element>, s: Text, accepts: Text -> bool)
    requires White(blank) && GoodElements(elems, accepts) && EndsValue(s)
    ensures ParseValue(FormText(ArrayForm(blank, elems)) + s, accepts) == Ok(Array(ElementValues(elems, accepts)), s)
    decreases elems, 2
  {
    hide ParseElements, ElementsText, ParseValue, SkipWs;
    var t := FormText(ArrayForm(blank, elems)) + s;
    ValueIsArray(t, accepts);
    if elems == [] {
      assert t[1..] == blank + ([RBRACKET] + s);
      TailEnds(blank, RBRACKET, s);
      assert ([RBRACKET] + s)[1..] == s;
    } else {
      var body := ElementsText(elems) + s;
      assert t[1..] == body;
      ElementsStart(elems, s, accepts);
      ElementsParse(elems, [], s, accepts);
      ElementsSkip(body, [], accepts);
      assert [] + ElementValues(elems, accepts) == ElementValues(elems, accepts);
    }
  }

  lemma ElementsStart(elems: seq<Element>, s: Text, accepts: Text -> bool)
    requires elems != [] && GoodElements(elems, accepts)
    ensures ElementsText(elems) + s
            == elems[0].before + (FormText(elems[0].value) + (elems[0].after + ElementTail(elems, s)))
    ensures SkipWs(ElementsText(elems) + s) == FormText(elems[0].value) + (elems[0].after + ElementTail(elems, s))
    ensures !StartsWith(SkipWs(ElementsText(elems) + s), RBRACKET)
  {
    hide FormText;
    var e := elems[0];
    var rest := FormText(e.value) + (e.after + ElementTail(elems, s));
    assert ElementsText(elems) + s == e.before + rest;
    FormStarts(e.value, accepts);
    FrontOf(FormText(e.value), e.after + ElementTail(elems, s));
    WhiteSkipped(e.before, rest);
  }

  lemma {:induction false} ElementsParse(elems: seq<Element>, arr: seq<JsonValue>, s: Text, accepts: Text -> bool)
    requires elems != [] && GoodElements(elems, accepts) && EndsValue(s)
    ensures ParseElements(ElementsText(elems) + s, arr, accepts) == Ok(Array(arr + ElementValues(elems, accepts)), s)
    decreases elems, 1
  {
    hide ParseValue, SkipWs, FormText, ElementsText, Meaning;
    var e, tail := elems[0], ElementTail(elems, s);
    ElementsStart(elems, s, accepts);
    var v := Meaning(e.value, accepts);
    if |elems| == 1 {
      TailEnds(e.after, RBRACKET, s);
      FormParses(e.value, e.after + tail, accepts);
      assert tail == [RBRACKET] + s && tail[1..] == s;
      assert ElementValues(elems, accepts) == [v];
    } else {
      var rest := ElementsText(elems[1..]) + s;
      assert tail == [COMMA] + rest && tail[1..] == rest;
      TailEnds(e.after, COMMA, rest);
      FormParses(e.value, e.after + tail, accepts);
      ElementsParse(elems[1..], arr + [v], s, accepts);
      assert arr + [v] + ElementValues(elems[1..], accepts) == arr + ElementValues(elems, accepts);
    }
  }

  lemma {:induction false} ObjectParses(blank: Text, members: seq<Member>, s: Text, accepts: Text -> bool)
    requires White(blank) && GoodMembers(members, accepts) && EndsValue(s)
    ensures ParseValue(FormText(ObjectForm(blank, members)) + s, accepts)
            == Ok(Object(MemberValues(members, map[], accepts)), s)
    decreases members, 2
  {
    hide ParseMembers, MembersText, ParseValue, SkipWs;
    var t := FormText(ObjectForm(blank, members)) + s;
    ValueIsObject(t, accepts);
    if members == [] {
      assert t[1..] == blank + ([RBRACE] + s);
      TailEnds(blank, RBRACE, s);
      assert ([RBRACE] + s)[1..] == s;
    } else {
      var body := MembersText(members) + s;
      assert t[1..] == body;
      MembersStart(members, s);
      MembersParse(members, map[], s, accepts);
      MembersSkip(body, map[], accepts);
    }
  }

  /** A member's text from its key on. */
  function FromKey(members: seq<Member>, s: Text): Text
    requires members != []
  {
    var m := members[0];
    [QUOTE] + (ItemsText(m.key) + [QUOTE]
               + (m.beforeColon + ([COLON]
                                   + (m.afterColon + (FormText(m.value) + (m.after + MemberTail(members, s)))))))
  }

  lemma MembersStart(members: seq<Member>, s: Text)
    requires members != [] && White(members[0].before)
    ensures SkipWs(MembersText(members) + s) == FromKey(members, s)
    ensures !StartsWith(SkipWs(MembersText(members) + s), RBRACE)
  {
    hide FormText, ItemsText, SkipWs;
    MembersFromKey(members, s);
    WhiteSkipped(members[0].before, FromKey(members, s));
  }

  lemma MembersFromKey(members: seq<Member>, s: Text)
    requires members != []
    ensures MembersText(members) + s == members[0].before + FromKey(members, s)
  {
    hide FormText, ItemsText;
    var m := members[0];
    var last := if |members| == 1 then [RBRACE] else [COMMA] + MembersText(members[1..]);
    var f0 := m.before + [QUOTE];
    var f1 := f0 + ItemsText(m.key);
    var f2 := f1 + [QUOTE];
    var f3 := f2 + m.beforeColon;
    var f4 := f3 + [COLON];
    var f5 := f4 + m.afterColon;
    var f6 := f5 + FormText(m.value);
    Regroup(f6 + m.after, last, s);
    Regroup(f6, m.after, last + s);
    Regroup(f5, FormText(m.value), m.after + (last + s));
    var value := FormText(m.value) + (m.after + (last + s));
    Regroup(f4, m.afterColon, value);
    Regroup(f3, [COLON], m.afterColon + value);
    var colon := [COLON] + (m.afterColon + value);
    Regroup(f2, m.beforeColon, colon);
    Regroup(f1, [QUOTE], m.beforeColon + colon);
    Regroup(f0, ItemsText(m.key), [QUOTE] + (m.beforeColon + colon));
    Regroup(m.before, [QUOTE], ItemsText(m.key) + ([QUOTE] + (m.beforeColon + colon)));
  }

  lemma KeyParses(members: seq<Member>, s: Text, accepts: Text -> bool)
    requires members != [] && GoodMembers(members, accepts)
    ensures KeyAt(MembersText(members) + s)
            == Ok(ItemsMeaning(members[0].key),
                  FormText(members[0].value) + (members[0].after + MemberTail(members, s)))
  {
    hide Chars, SkipWs, FormText, ItemsText, MembersText;
    var m := members[0];
    var value := FormText(m.value) + (m.after + MemberTail(members, s));
    var colon := [COLON] + (m.afterColon + value);
    MembersStart(members, s);
    assert FromKey(members, s)[1..] == ItemsText(m.key) + [QUOTE] + (m.beforeColon + colon);
    ItemsParse(m.key, m.beforeColon + colon, []);
    assert [] + ItemsMeaning(m.key) == ItemsMeaning(m.key);
    WhiteSkipped(m.beforeColon, colon);
    assert colon[1..] == m.afterColon + value;
    FormStarts(m.value, accepts);
    FrontOf(FormText(m.value), m.after + MemberTail(members, s));
    WhiteSkipped(m.afterColon, value);
  }

  lemma {:induction false} MembersParse(members: seq<Member>, obj: map<Text, JsonValue>, s: Text, accepts: Text -> bool)
    requires members != [] && GoodMembers(members, accepts) && EndsValue(s)
    ensures ParseMembers(MembersText(members) + s, obj, accepts) == Ok(Object(MemberValues(members, obj, accepts)), s)
    decreases members, 1
  {
    hide ParseValue, SkipWs, FormText, MembersText, Meaning, KeyAt, ItemsMeaning, Emplace;
    var m, tail := members[0], MemberTail(members, s);
    KeyParses(members, s, accepts);
    var more := Emplace(obj, ItemsMeaning(m.key), Meaning(m.value, accepts));
    if |members| == 1 {
      TailEnds(m.after, RBRACE, s);
      FormParses(m.value, m.after + tail, accepts);
      assert tail == [RBRACE] + s && tail[1..] == s;
      assert MemberValues(members[1..], more, accepts) == more;
    } else {
      var rest := MembersText(members[1..]) + s;
      assert tail == [COMMA] + rest && tail[1..] == rest;
      TailEnds(m.after, COMMA, rest);
      FormParses(m.value, m.after + tail, accepts);
      MembersParse(members[1..], more, s, accepts);
    }
  }

  /** Parsing any written value, with any white space around it, gives back that value and leaves nothing over. */
  lemma ParserUndoesPrinter(before: Text, f: Form, after: Text, accepts: Text -> bool)
    requires White(before) && White(after) && Good(f, accepts)
    ensures ParseTop(before + FormText(f) + after, accepts) == Success(Meaning(f, accepts))
  {
    hide ParseValue, FormText, Meaning;
    FormStarts(f, accepts);
    FrontOf(FormText(f), after);
    assert before + FormText(f) + after == before + (FormText(f) + after);
    WhiteSkipped(before, FormText(f) + after);
    FormParses(f, after, accepts);
    WhiteSkipped(after, []);
    assert after + [] == after;
  }

  // ---- Every value can be written ----

  /** Strings may be any bytes; a number is one that has a written form which the number conversion accepts. */
  ghost predicate Expressible(v: JsonValue, accepts: Text -> bool) {
    match v
    case Number(token) => accepts(token) && exists n :: TakenNumber(n) && NumberText(n) == token
    case Array(arr) => forall i | 0 <= i < |arr| :: Expressible(arr[i], accepts)
    case Object(obj) => forall k | k in obj :: Expressible(obj[k], accepts)
    case _ => true
  }

  function ItemFor(c: Byte): (i: Item)
    ensures GoodItem(i) && ItemMeaning(i) == [c]
  {
    if c == QUOTE || c == BACKSLASH then Short(c) else Raw(c)
  }

  function ItemsFor(s: Text): (items: seq<Item>)
    ensures GoodItems(items) && ItemsMeaning(items) == s
  {
    if s == [] then []
    else
      var rest := ItemsFor(s[1..]);
      var items := [ItemFor(s[0])] + rest;
      assert items[1..] == rest;
      items
  }

  /** Every expressible value is the meaning of a written form, so some text parses to it. */
  lemma {:induction false} ValueIsWritten(v: JsonValue, accepts: Text -> bool) returns (f: Form)
    requires Expressible(v, accepts)
    ensures Good(f, accepts) && Meaning(f, accepts) == v
    ensures ParseTop(FormText(f), accepts) == Success(v)
    decreases v, 1
  {
    hide ParseTop, FormText;
    match v {
      case Null => f := NullForm;
      case Bool(b) => f := BoolForm(b);
      case Number(token) =>
        var n :| TakenNumber(n) && NumberText(n) == token;
        f := NumForm(n);
      case String(s) => f := StringForm(ItemsFor(s));
      case Array(arr) =>
        var elems := ElementsAreWritten(v, 0, accepts);
        f := ArrayForm([], elems);
      case Object(obj) =>
        var members := MembersAreWritten(v, obj.Keys, map[], accepts);
        f := ObjectForm([], members);
        assert map[] + (map k | k in obj.Keys :: obj[k]) == obj;
    }
    ParserUndoesPrinter([], f, [], accepts);
    assert [] + FormText(f) + [] == FormText(f);
  }

  lemma {:induction false} ElementsAreWritten(v: JsonValue, i: nat, accepts: Text -> bool) returns (elems: seq<Element>)
    requires v.Array? && i <= |v.arr| && Expressible(v, accepts)
    ensures GoodElements(elems, accepts) && ElementValues(elems, accepts) == v.arr[i..]
    decreases v, 0, |v.arr| - i
  {
    if i == |v.arr| {
      elems := [];
    } else {
      var f := ValueIsWritten(v.arr[i], accepts);
      var rest := ElementsAreWritten(v, i + 1, accepts);
      elems := [Element([], f, [])] + rest;
      assert elems[1..] == rest;
      assert v.arr[i..] == [v.arr[i]] + v.arr[i + 1..];
    }
  }

  lemma {:induction false} MembersAreWritten(v: JsonValue, keys: set<Text>, base: map<Text, JsonValue>,
                                             accepts: Text -> bool)
    returns (members: seq<Member>)
    requires v.Object? && keys <= v.obj.Keys && keys !! base.Keys && Expressible(v, accepts)
    ensures GoodMembers(members, accepts)
    ensures MemberValues(members, base, accepts) == base + (map k | k in keys :: v.obj[k])
    decreases v, 0, |keys|
  {
    hide Meaning, GoodItem, IsBlank, ItemsMeaning, ParseTop, FormText;
    if keys == {} {
      members := [];
    } else {
      var k :| k in keys;
      var f := ValueIsWritten(v.obj[k], accepts);
      var rest := MembersAreWritten(v, keys - {k}, base[k := v.obj[k]], accepts);
      members := [Member([], ItemsFor(k), [], [], f, [])] + rest;
      assert members[1..] == rest;
      OneKeyMore(v.obj, keys, k, base);
    }
  }

  lemma OneKeyMore(obj: map<Text, JsonValue>, keys: set<Text>, k: Text, base: map<Text, JsonValue>)
    requires keys <= obj.Keys && k in keys
    ensures base[k := obj[k]] + (map j | j in keys - {k} :: obj[j]) == base + (map j | j in keys :: obj[j])
  {
  }
}
