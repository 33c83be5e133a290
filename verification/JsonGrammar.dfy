/**
 The language of the JSON parser: whatever it accepts is a written form and gets that form's meaning. Together with
 the theorem that it accepts every written form, it accepts exactly the grammar (src/internal_json.hpp; RFC 8259).
 */
module JsonGrammar {
  import opened Ascii
  import opened Bytes
  import opened Json
  import opened JsonText
  import opened Utf8
  import opened Wrappers

  // ---- The characters of the grammar ----

  lemma Punctuation()
    ensures QUOTE == '\"' as int && BACKSLASH == '\\' as int && COMMA == ',' as int && COLON == ':' as int
    ensures LBRACKET == '[' as int && RBRACKET == ']' as int && LBRACE == '{' as int && RBRACE == '}' as int
    ensures MINUS == '-' as int && PLUS == '+' as int && DOT == '.' as int && ZERO == '0' as int
            && LOWER_U == 'u' as int
    ensures Spell("true") == TRUE_TEXT && Spell("false") == FALSE_TEXT && Spell("null") == NULL_TEXT
    ensures forall c: Byte :: IsBlank(c) <==> c as int in {' ' as int, '\t' as int, '\n' as int, '\r' as int}
    ensures forall c: Byte :: IsDigit(c) <==> '0' as int <= c as int <= '9' as int
  {
  }

  function Spell(s: string): seq<int> {
    seq(|s|, i requires 0 <= i < |s| => s[i] as int)
  }

  /** The letters of the one-letter escapes and what they stand for. */
  lemma Escapes(e: Byte)
    ensures ShortEscape(e) ==
              if e == '\"' as int || e == '\\' as int || e == '/' as int then Some(e)
              else if e == 'b' as int then Some(8) else if e == 't' as int then Some(9)
              else if e == 'n' as int then Some(10) else if e == 'f' as int then Some(12)
              else if e == 'r' as int then Some(13) else None
  {
  }

  /** Hex digits of either case. */
  lemma HexDigits(c: Byte, v: nat)
    ensures HexDigit(c) == Some(v) <==> v < 16 && c as char in {"0123456789abcdef"[v], "0123456789ABCDEF"[v]}
  {
  }

  // ---- What is skipped ----

  /** The part of `s` before its suffix `rest`. */
  function Front(s: Text, rest: Text): Text
    requires |rest| <= |s|
  {
    s[..|s| - |rest|]
  }

  lemma {:induction false} WhiteFront(s: Text)
    ensures White(Front(s, SkipWs(s))) && s == Front(s, SkipWs(s)) + SkipWs(s)
  {
    if s != [] && IsBlank(s[0]) {
      var t, r := s[1..], SkipWs(s[1..]);
      WhiteFront(t);
      assert Front(s, r) == [s[0]] + Front(t, r);
    } else {
    }
  }

  lemma {:induction false} DigitsFront(s: Text)
    ensures AllDigits(Front(s, SkipDigits(s))) && s == Front(s, SkipDigits(s)) + SkipDigits(s)
    ensures s != [] && IsDigit(s[0]) ==> Front(s, SkipDigits(s)) != [] && Front(s, SkipDigits(s))[0] == s[0]
    ensures s != [] && !IsDigit(s[0]) ==> Front(s, SkipDigits(s)) == []
  {
    if s != [] && IsDigit(s[0]) {
      var t, r := s[1..], SkipDigits(s[1..]);
      DigitsFront(t);
      assert Front(s, r) == [s[0]] + Front(t, r);
    } else {
    }
  }

  // ---- Numbers ----

  function Sign(negative: bool): Text {
    if negative then [MINUS] else []
  }

  lemma IntegerTaken(s: Text) returns (negative: bool, digits: Text)
    requires s != [] && StartsNumber(s[0])
    ensures AllDigits(digits) && (if digits == [] then negative else digits[0] == ZERO ==> |digits| == 1)
    ensures s == Sign(negative) + digits + SkipInteger(s)
  {
    negative := StartsWith(s, MINUS);
    var t := if negative then s[1..] else s;
    assert s == Sign(negative) + t;
    if StartsWith(t, ZERO) {
      digits := [ZERO];
      assert t == digits + t[1..];
    } else {
      digits := Front(t, SkipDigits(t));
      DigitsFront(t);
    }
    Regroup(Sign(negative), digits, SkipInteger(s));
  }

  lemma FractionTaken(s: Text) returns (f: Option<Text>)
    ensures f.Some? ==> AllDigits(f.value)
    ensures s == (match f case None => [] case Some(d) => [DOT] + d) + SkipFraction(s)
  {
    if StartsWith(s, DOT) {
      DigitsFront(s[1..]);
      f := Some(Front(s[1..], SkipDigits(s[1..])));
      assert s == [DOT] + s[1..];
      Regroup([DOT], f.value, SkipFraction(s));
    } else {
      f := None;
      assert s == [] + s;
    }
  }

  lemma SignTaken(t: Text) returns (sign: Text, u: Text)
    ensures sign == [] || sign == [PLUS] || sign == [MINUS]
    ensures t == sign + u && u == if StartsWith(t, PLUS) || StartsWith(t, MINUS) then t[1..] else t
  {
    sign := if StartsWith(t, PLUS) || StartsWith(t, MINUS) then [t[0]] else [];
    u := t[|sign|..];
  }

  lemma ExponentTaken(s: Text) returns (e: Option<ExponentForm>)
    ensures e.Some? ==>
              && e.value.letter in {0x65, 0x45} && AllDigits(e.value.digits)
              && (e.value.sign == [] || e.value.sign == [PLUS] || e.value.sign == [MINUS])
    ensures s == (match e case None => [] case Some(x) => ExponentText(x)) + SkipExponent(s)
  {
    hide AllDigits, SkipDigits;
    if StartsWith(s, 0x65) || StartsWith(s, 0x45) {
      var t := s[1..];
      var sign, u := SignTaken(t);
      var digits := Front(u, SkipDigits(u));
      DigitsFront(u);
      e := Some(ExponentForm(s[0], sign, digits));
      ExponentJoined(s, sign, digits, SkipDigits(u));
    } else {
      e := None;
      assert s == [] + s;
    }
  }

  lemma ExponentJoined(s: Text, sign: Text, digits: Text, rest: Text)
    requires s != [] && s[1..] == sign + (digits + rest)
    ensures s == [s[0]] + sign + digits + rest
  {
    assert s == [s[0]] + s[1..];
    Regroup([s[0]], sign, digits + rest);
    Regroup([s[0]] + sign, digits, rest);
  }

  lemma NumberTaken(s: Text) returns (n: NumberForm)
    requires s != [] && StartsNumber(s[0])
    ensures TakenNumber(n) && s == NumberText(n) + SkipNumber(s)
  {
    hide SkipInteger, SkipFraction, SkipExponent;
    var negative, digits := IntegerTaken(s);
    var t := SkipInteger(s);
    var f := FractionTaken(t);
    var u := SkipFraction(t);
    var e := ExponentTaken(u);
    n := NumberForm(negative, digits, f, e);
    Regroup(Sign(negative) + digits, FractionPart(n), u);
    Regroup(Sign(negative) + digits + FractionPart(n), ExponentPart(n), SkipExponent(u));
  }

  lemma NumberIsForm(t: Text, accepts: Text -> bool) returns (f: Form)
    requires t != [] && StartsNumber(t[0]) && ParseNumber(t, accepts).Ok?
    ensures var r := ParseNumber(t, accepts);
            Good(f, accepts) && t == FormText(f) + r.rest && r.value == Meaning(f, accepts)
  {
    hide SkipNumber, NumberText;
    var n := NumberTaken(t);
    assert Front(t, SkipNumber(t)) == NumberText(n);
    f := NumForm(n);
  }

  // ---- Strings ----

  lemma HexTaken(s: Text) returns (h: Text)
    requires Hex4(s).Ok?
    ensures |h| == 4 && s == h + Hex4(s).rest && HexValue(h) == Some(Hex4(s).value)
  {
    h := s[..4];
    assert h[0] == s[0] && h[1] == s[1] && h[2] == s[2] && h[3] == s[3];
  }

  lemma EscapeTaken(s: Text) returns (i: Item)
    requires UnicodeEscape(s).Ok?
    ensures var r := UnicodeEscape(s);
            GoodItem(i) && [BACKSLASH, LOWER_U] + s == ItemText(i) + r.rest && Encode(r.value) == ItemMeaning(i)
  {
    hide Hex4, HexValue, Encode, IsHigh, IsLow, PairValue;
    var h := HexTaken(s);
    var t, esc := Hex4(s).rest, [BACKSLASH, LOWER_U];
    Regroup(esc, h, t);
    if IsHigh(Hex4(s).value) {
      var l := HexTaken(t[2..]);
      i := Pair(h, l);
      assert t == esc + t[2..];
      Regroup(esc, l, Hex4(t[2..]).rest);
      Regroup(esc + h, esc + l, Hex4(t[2..]).rest);
      Regroup(esc + h, esc, l);
    } else {
      i := Code(h);
    }
  }

  /** The item at the front of a string's text. */
  lemma ItemTaken(s: Text, out: Text) returns (i: Item, rest: Text)
    requires Chars(s, out).Ok? && s[0] != QUOTE
    ensures GoodItem(i) && s == ItemText(i) + rest && |rest| < |s| && Chars(s, out) == Chars(rest, out + ItemMeaning(i))
  {
    hide Encode, UnicodeEscape, ShortEscape;
    if s[0] != BACKSLASH {
      i, rest := Raw(s[0]), s[1..];
    } else if s[1] == LOWER_U {
      i := EscapeTaken(s[2..]);
      rest := UnicodeEscape(s[2..]).rest;
      assert s == [BACKSLASH, LOWER_U] + s[2..];
    } else {
      i, rest := Short(s[1]), s[2..];
    }
  }

  lemma {:induction false} CharsAreItems(s: Text, out: Text) returns (items: seq<Item>)
    requires Chars(s, out).Ok?
    ensures var r := Chars(s, out);
            GoodItems(items) && s == ItemsText(items) + ([QUOTE] + r.rest) && r.value == out + ItemsMeaning(items)
    decreases |s|
  {
    hide ItemText, ItemMeaning, GoodItem;
    if s[0] == QUOTE {
      items := [];
      assert s == [] + ([QUOTE] + s[1..]) && out == out + [];
    } else {
      var i, rest := ItemTaken(s, out);
      var more := CharsAreItems(rest, out + ItemMeaning(i));
      items := [i] + more;
      assert items[1..] == more;
      Regroup(ItemText(i), ItemsText(more), [QUOTE] + Chars(s, out).rest);
      Regroup(out, ItemMeaning(i), ItemsMeaning(more));
    }
  }

  // ---- Values ----

  lemma WhiteAppend(a: Text, b: Text)
    requires White(a) && White(b)
    ensures White(a + b)
  {
  }

  lemma StringIsForm(t: Text, accepts: Text -> bool) returns (f: Form)
    requires StartsWith(t, QUOTE) && Chars(t[1..], []).Ok?
    ensures var r := Chars(t[1..], []);
            Good(f, accepts) && t == FormText(f) + r.rest && String(r.value) == Meaning(f, accepts)
  {
    hide Chars, ItemsText, ItemsMeaning;
    var items := CharsAreItems(t[1..], []);
    f := StringForm(items);
    assert t == [QUOTE] + t[1..] && [] + ItemsMeaning(items) == ItemsMeaning(items);
    Regroup([QUOTE], ItemsText(items), [QUOTE] + Chars(t[1..], []).rest);
    Regroup([QUOTE] + ItemsText(items), [QUOTE], Chars(t[1..], []).rest);
  }

  lemma ValueAtToken(s: Text, accepts: Text -> bool)
    ensures ParseValue(SkipWs(s), accepts) == ParseValue(s, accepts)
  {
    hide SkipWs, ParseMembers, ParseElements, ParseNumber, Chars;
    SkipTwice(s);
  }

  /** Every value that parses is a written form after some white space, and parses to its meaning. */
  lemma {:induction false} ValueIsForm(s: Text, accepts: Text -> bool) returns (before: Text, f: Form)
    requires ParseValue(s, accepts).Ok?
    ensures var r := ParseValue(s, accepts);
            White(before) && Good(f, accepts) && s == before + (FormText(f) + r.rest) && r.value == Meaning(f, accepts)
    decreases |s|, 1
  {
    hide SkipWs, ParseValue, FormText, Good, Meaning;
    WhiteFront(s);
    ValueAtToken(s, accepts);
    SkipTwice(s);
    before := Front(s, SkipWs(s));
    f := TokenIsForm(SkipWs(s), accepts);
  }

  lemma {:induction false} TokenIsForm(t: Text, accepts: Text -> bool) returns (f: Form)
    requires SkipWs(t) == t && ParseValue(t, accepts).Ok?
    ensures var r := ParseValue(t, accepts);
            Good(f, accepts) && t == FormText(f) + r.rest && r.value == Meaning(f, accepts)
    decreases |t|, 0
  {
    hide SkipWs, Chars, ParseMembers, ParseElements, ParseNumber, ItemsText, ItemsMeaning;
    if t[0] == LBRACE {
      f := ObjectIsForm(t, accepts);
    } else if t[0] == LBRACKET {
      f := ArrayIsForm(t, accepts);
    } else if t[0] == QUOTE {
      f := StringIsForm(t, accepts);
    } else if t[0] == LOWER_T || t[0] == LOWER_F || t[0] == LOWER_N {
      f := WordIsForm(t, accepts);
    } else {
      f := NumberIsForm(t, accepts);
    }
  }

  lemma WordIsForm(t: Text, accepts: Text -> bool) returns (f: Form)
    requires t != [] && t[0] in {LOWER_T, LOWER_F, LOWER_N} && SkipWs(t) == t && ParseValue(t, accepts).Ok?
    ensures var r := ParseValue(t, accepts);
            Good(f, accepts) && t == FormText(f) + r.rest && r.value == Meaning(f, accepts)
  {
    hide SkipWs, Chars, ParseMembers, ParseElements, ParseNumber;
    f := if t[0] == LOWER_N then NullForm else BoolForm(TRUE_TEXT <= t);
    assert t == FormText(f) + t[|FormText(f)|..];
  }

  lemma {:induction false} ArrayIsForm(t: Text, accepts: Text -> bool) returns (f: Form)
    requires StartsWith(t, LBRACKET) && ParseValue(t, accepts).Ok?
    ensures var r := ParseValue(t, accepts);
            Good(f, accepts) && t == FormText(f) + r.rest && r.value == Meaning(f, accepts)
    decreases |t|, -1
  {
    hide ParseValue, ParseElements, SkipWs, ElementsText;
    ValueIsArray(t, accepts);
    var u, r := SkipWs(t[1..]), ParseValue(t, accepts);
    assert t == [LBRACKET] + t[1..];
    if StartsWith(u, RBRACKET) {
      var blank := Front(t[1..], u);
      WhiteFront(t[1..]);
      f := ArrayForm(blank, []);
      assert u == [RBRACKET] + u[1..];
      Regroup([LBRACKET], blank, u);
      Regroup([LBRACKET] + blank, [RBRACKET], u[1..]);
    } else {
      ElementsSkip(t[1..], [], accepts);
      var elems := ElementsAreForms(t[1..], [], accepts);
      f := ArrayForm([], elems);
      assert [] + ElementValues(elems, accepts) == ElementValues(elems, accepts);
      Regroup([LBRACKET], ElementsText(elems), r.rest);
    }
  }

  lemma {:induction false} ElementsAreForms(s: Text, arr: seq<JsonValue>, accepts: Text -> bool)
    returns (elems: seq<Element>)
    requires ParseElements(s, arr, accepts).Ok?
    ensures elems != [] && GoodElements(elems, accepts)
    ensures var r := ParseElements(s, arr, accepts);
            s == ElementsText(elems) + r.rest && r.value == Array(arr + ElementValues(elems, accepts))
    decreases |s|, 2
  {
    hide SkipWs, ParseValue, FormText, Good, ElementsText;
    var e, w := ElementTaken(s, accepts);
    var v, rest := ParseValue(SkipWs(s), accepts).value, ParseElements(s, arr, accepts).rest;
    if w[0] == COMMA {
      var more := ElementsAreForms(w[1..], arr + [v], accepts);
      elems := [e] + more;
      assert elems[1..] == more;
      Regroup([COMMA], ElementsText(more), rest);
      JoinElement(e, e.after + w, w, elems, rest);
      assert arr + [v] + ElementValues(more, accepts) == arr + ElementValues(elems, accepts);
    } else {
      elems := [e];
      JoinElement(e, e.after + w, w, elems, w[1..]);
      assert ElementValues(elems, accepts) == [v];
    }
  }

  /** The element at the front of the text, and what comes after it: a comma or the closing bracket. */
  lemma {:induction false} ElementTaken(s: Text, accepts: Text -> bool) returns (e: Element, w: Text)
    requires ParseValue(SkipWs(s), accepts).Ok? && SkipWs(ParseValue(SkipWs(s), accepts).rest) != []
    ensures var v := ParseValue(SkipWs(s), accepts);
            && w == SkipWs(v.rest) && w == [w[0]] + w[1..]
            && White(e.before) && White(e.after) && Good(e.value, accepts) && v.value == Meaning(e.value, accepts)
    ensures s == e.before + (FormText(e.value) + (e.after + w))
    decreases |s|, 2, 0
  {
    hide SkipWs, ParseValue, FormText, Good;
    WhiteFront(s);
    var t := SkipWs(s);
    var blank, f := ValueIsForm(t, accepts);
    var afterValue := ParseValue(t, accepts).rest;
    WhiteFront(afterValue);
    WhiteAppend(Front(s, t), blank);
    w := SkipWs(afterValue);
    e := Element(Front(s, t) + blank, f, Front(afterValue, w));
    Regroup(Front(s, t), blank, FormText(f) + afterValue);
  }

  /** The text of the elements, put together from that of the first. */
  lemma JoinElement(e: Element, afterValue: Text, w: Text, elems: seq<Element>, rest: Text)
    requires elems != [] && elems[0] == e && afterValue == e.after + w && w == ElementTail(elems, rest)
    ensures e.before + (FormText(e.value) + afterValue) == ElementsText(elems) + rest
  {
    hide FormText;
    var last := if |elems| == 1 then [RBRACKET] else [COMMA] + ElementsText(elems[1..]);
    Regroup(e.before, FormText(e.value), afterValue);
    Regroup(e.before + FormText(e.value), e.after, w);
    Regroup(e.before + FormText(e.value) + e.after, last, rest);
  }

  lemma {:induction false} ObjectIsForm(t: Text, accepts: Text -> bool) returns (f: Form)
    requires StartsWith(t, LBRACE) && ParseValue(t, accepts).Ok?
    ensures var r := ParseValue(t, accepts);
            Good(f, accepts) && t == FormText(f) + r.rest && r.value == Meaning(f, accepts)
    decreases |t|, -1
  {
    hide ParseValue, ParseMembers, SkipWs, MembersText;
    ValueIsObject(t, accepts);
    var u, r := SkipWs(t[1..]), ParseValue(t, accepts);
    assert t == [LBRACE] + t[1..];
    if StartsWith(u, RBRACE) {
      var blank := Front(t[1..], u);
      WhiteFront(t[1..]);
      f := ObjectForm(blank, []);
      assert u == [RBRACE] + u[1..];
      Regroup([LBRACE], blank, u);
      Regroup([LBRACE] + blank, [RBRACE], u[1..]);
    } else {
      MembersSkip(t[1..], map[], accepts);
      var members := MembersAreForms(t[1..], map[], accepts);
      f := ObjectForm([], members);
      Regroup([LBRACE], MembersText(members), r.rest);
    }
  }

  /** The parts of a member in front of its value. */
  lemma KeyTaken(s: Text) returns (before: Text, key: seq<Item>, beforeColon: Text, afterColon: Text)
    requires KeyAt(s).Ok?
    ensures White(before) && White(beforeColon) && White(afterColon) && GoodItems(key)
    ensures var r := KeyAt(s);
            && r.value == ItemsMeaning(key)
            && s == before + ([QUOTE] + (ItemsText(key) + [QUOTE]
                                         + (beforeColon + ([COLON] + (afterColon + r.rest)))))
  {
    hide SkipWs, Chars, ItemsText, ItemsMeaning;
    WhiteFront(s);
    var t := SkipWs(s);
    before := Front(s, t);
    assert t == [QUOTE] + t[1..];
    key := CharsAreItems(t[1..], []);
    assert [] + ItemsMeaning(key) == ItemsMeaning(key);
    var afterKey := Chars(t[1..], []).rest;
    Regroup(ItemsText(key), [QUOTE], afterKey);
    WhiteFront(afterKey);
    var u := SkipWs(afterKey);
    beforeColon := Front(afterKey, u);
    assert u == [COLON] + u[1..];
    WhiteFront(u[1..]);
    afterColon := Front(u[1..], SkipWs(u[1..]));
  }

  lemma {:induction false} MembersAreForms(s: Text, obj: map<Text, JsonValue>, accepts: Text -> bool)
    returns (members: seq<Member>)
    requires ParseMembers(s, obj, accepts).Ok?
    ensures members != [] && GoodMembers(members, accepts)
    ensures var r := ParseMembers(s, obj, accepts);
            s == MembersText(members) + r.rest && r.value == Object(MemberValues(members, obj, accepts))
    decreases |s|, 0
  {
    hide SkipWs, ParseValue, FormText, Good, KeyAt, ItemsText, ItemsMeaning, Emplace, MembersText;
    var m, w := MemberTaken(s, accepts);
    var v := ParseValue(KeyAt(s).rest, accepts);
    var more := Emplace(obj, ItemsMeaning(m.key), v.value);
    if w[0] == COMMA {
      var others := MembersAreForms(w[1..], more, accepts);
      members := [m] + others;
      assert members[1..] == others;
      var rest := ParseMembers(s, obj, accepts).rest;
      Regroup([COMMA], MembersText(others), rest);
      JoinMember(s, m, w, members, rest);
    } else {
      members := [m];
      JoinMember(s, m, w, members, w[1..]);
      assert MemberValues(members[1..], more, accepts) == more;
    }
  }

  /** The member at the front of the text, and what comes after it: a comma or the closing brace. */
  lemma {:induction false} MemberTaken(s: Text, accepts: Text -> bool) returns (m: Member, w: Text)
    requires KeyAt(s).Ok? && ParseValue(KeyAt(s).rest, accepts).Ok?
    requires SkipWs(ParseValue(KeyAt(s).rest, accepts).rest) != []
    ensures var v := ParseValue(KeyAt(s).rest, accepts);
            && GoodMember(m, accepts) && w == SkipWs(v.rest) && w == [w[0]] + w[1..]
            && KeyAt(s).value == ItemsMeaning(m.key) && v.value == Meaning(m.value, accepts)
    ensures s == TextOf(m, w)
    decreases |s|, -1
  {
    hide SkipWs, ParseValue, FormText, Good, KeyAt, ItemsText, ItemsMeaning, Emplace;
    var before, key, beforeColon, afterColon := KeyTaken(s);
    var atValue := KeyAt(s).rest;
    var blank, f := ValueIsForm(atValue, accepts);
    var afterValue := ParseValue(atValue, accepts).rest;
    w := SkipWs(afterValue);
    WhiteFront(afterValue);
    WhiteAppend(afterColon, blank);
    m := Member(before, key, beforeColon, afterColon + blank, f, Front(afterValue, w));
    Regroup(afterColon, blank, FormText(f) + afterValue);
  }

  predicate GoodMember(m: Member, accepts: Text -> bool) {
    && White(m.before) && White(m.beforeColon) && White(m.afterColon) && White(m.after)
    && GoodItems(m.key) && Good(m.value, accepts)
  }

  /** A member followed by `w`. */
  function TextOf(m: Member, w: Text): Text {
    m.before + ([QUOTE] + (ItemsText(m.key) + [QUOTE]
                           + (m.beforeColon + ([COLON] + (m.afterColon + (FormText(m.value) + (m.after + w)))))))
  }

  lemma JoinMember(s: Text, m: Member, w: Text, members: seq<Member>, rest: Text)
    requires members != [] && members[0] == m && w == MemberTail(members, rest) && s == TextOf(m, w)
    ensures s == MembersText(members) + rest
  {
    hide FormText, ItemsText, MembersText;
    MembersFromKey(members, rest);
  }

  // ---- Exactly the grammar ----

  /** Whatever is accepted is one written value with white space around it, and its value is that form's meaning. */
  lemma AcceptedIsWritten(s: Text, accepts: Text -> bool) returns (before: Text, f: Form, after: Text)
    requires ParseTop(s, accepts).Success?
    ensures White(before) && White(after) && Good(f, accepts) && s == before + FormText(f) + after
    ensures ParseTop(s, accepts) == Success(Meaning(f, accepts))
  {
    hide ParseValue, SkipWs, FormText, Good;
    WhiteFront(s);
    var t := SkipWs(s);
    var blank, form := ValueIsForm(t, accepts);
    after := ParseValue(t, accepts).rest;
    WhiteFront(after);
    assert Front(after, []) == after;
    before, f := Front(s, t) + blank, form;
    WhiteAppend(Front(s, t), blank);
    Regroup(Front(s, t), blank, FormText(f) + after);
    Regroup(before, FormText(f), after);
  }

  ghost predicate IsWritten(s: Text, accepts: Text -> bool) {
    exists before, f, after ::
      White(before) && White(after) && Good(f, accepts) && s == before + FormText(f) + after
  }

  /** A text is accepted if and only if it is a written form. */
  lemma AcceptsExactly(s: Text, accepts: Text -> bool)
    ensures ParseTop(s, accepts).Success? <==> IsWritten(s, accepts)
  {
    hide ParseTop, FormText, Good;
    if ParseTop(s, accepts).Success? {
      var before, f, after := AcceptedIsWritten(s, accepts);
    }
    if IsWritten(s, accepts) {
      var before, f, after :|
        White(before) && White(after) && Good(f, accepts) && s == before + FormText(f) + after;
      ParserUndoesPrinter(before, f, after, accepts);
    }
  }

  /** No text has two meanings. */
  lemma OneMeaning(b1: Text, f1: Form, a1: Text, b2: Text, f2: Form, a2: Text, accepts: Text -> bool)
    requires White(b1) && White(a1) && Good(f1, accepts) && White(b2) && White(a2) && Good(f2, accepts)
    requires b1 + FormText(f1) + a1 == b2 + FormText(f2) + a2
    ensures Meaning(f1, accepts) == Meaning(f2, accepts)
  {
    hide ParseTop, FormText, Good, Meaning;
    ParserUndoesPrinter(b1, f1, a1, accepts);
    ParserUndoesPrinter(b2, f2, a2, accepts);
  }

  // ---- Equal keys ----

  function KeyOf(m: Member): Text
    requires GoodItems(m.key)
  {
    ItemsMeaning(m.key)
  }

  /** A key is in an object if it was there before or one of the members has it; what was there stays. */
  lemma {:induction false} KeysAre(members: seq<Member>, obj: map<Text, JsonValue>, accepts: Text -> bool, k: Text)
    requires GoodMembers(members, accepts)
    ensures var r := MemberValues(members, obj, accepts);
            && (k in r <==> k in obj || exists i :: 0 <= i < |members| && KeyOf(members[i]) == k)
            && (k in obj ==> r[k] == obj[k])
  {
    hide Good, GoodItems, Meaning, KeyOf;
    if members != [] {
      KeyIs(members[0]);
      KeysAre(members[1..], Emplace(obj, KeyOf(members[0]), Meaning(members[0].value, accepts)), accepts, k);
      if i :| 0 <= i < |members| && KeyOf(members[i]) == k && i > 0 {
        assert members[1..][i - 1] == members[i];
      }
      if i :| 0 <= i < |members[1..]| && KeyOf(members[1..][i]) == k {
        assert members[i + 1] == members[1..][i];
      }
    }
  }

  /** Of equal keys the first one's value stays. */
  lemma {:induction false} FirstKeyStays(members: seq<Member>, obj: map<Text, JsonValue>, accepts: Text -> bool, i: nat)
    requires GoodMembers(members, accepts) && i < |members| && KeyOf(members[i]) !in obj
    requires forall j | 0 <= j < i :: KeyOf(members[j]) != KeyOf(members[i])
    ensures var r := MemberValues(members, obj, accepts);
            KeyOf(members[i]) in r && r[KeyOf(members[i])] == Meaning(members[i].value, accepts)
  {
    hide Good, GoodItems, Meaning, KeyOf;
    var more := Emplace(obj, KeyOf(members[0]), Meaning(members[0].value, accepts));
    KeyIs(members[0]);
    if i == 0 {
      KeysAre(members[1..], more, accepts, KeyOf(members[0]));
    } else {
      assert members[1..][i - 1] == members[i];
      FirstKeyStays(members[1..], more, accepts, i - 1);
    }
  }

  lemma KeyIs(m: Member)
    requires GoodItems(m.key)
    ensures KeyOf(m) == ItemsMeaning(m.key)
  {
  }
}
