/** ISO 8601 time stamps to 100-nanosecond ticks since 1601 (src/graph_convert.cpp). */
module IsoTime {
  import opened Ascii
  import opened Bytes
  import opened Calendar
  import opened Wrappers

  datatype IsoError =
    | TooShort
    | TruncatedField
    | NonDigit
    | ExpectedDash
    | ExpectedT
    | ExpectedColon
    | PreEpoch

  const DASH: Byte := 0x2D
  const BLANK: Byte := 0x20
  const UPPER_T: Byte := 0x54
  const UPPER_Z: Byte := 0x5A
  const LOWER_Z: Byte := 0x7A

  const DAYS_1601_TO_1970 := 134774
  const TICKS := 10_000_000

  // ---- Decimal fields ----

  function Decimal(t: Text): nat
    requires AllDigits(t)
  {
    if t == [] then 0 else Decimal(t[..|t| - 1]) * 10 + (t[|t| - 1] - ZERO)
  }

  /** parseInt: `n` digits at `pos`, the first wrong one reported. */
  function Field(s: Text, pos: nat, n: nat): Result<nat, IsoError> {
    if pos + n > |s| then Failure(TruncatedField)
    else if AllDigits(s[pos..pos + n]) then Success(Decimal(s[pos..pos + n]))
    else Failure(NonDigit)
  }

  method ParseInt(s: Text, pos: nat, n: nat) returns (r: Result<nat, IsoError>)
    ensures r == Field(s, pos, n)
  {
    if pos + n > |s| {
      return Failure(TruncatedField);
    }
    var v := 0;
    for k := 0 to n
      invariant AllDigits(s[pos..pos + k]) && v == Decimal(s[pos..pos + k])
    {
      var c := s[pos + k];
      if !IsDigit(c) {
        assert s[pos..pos + n][k] == c;
        return Failure(NonDigit);
      }
      assert s[pos..pos + k + 1] == s[pos..pos + k] + [c];
      v := v * 10 + (c - ZERO);
    }
    return Success(v);
  }

  // ---- What a time stamp means ----

  datatype Moment = Moment(year: nat, month: nat, day: nat, hour: nat, minute: nat, second: nat)

  /** The nineteen fixed characters. */
  function FixedPart(s: Text): (r: Result<Moment, IsoError>)
    requires |s| >= 19
    ensures r.Success? ==> r.value.month < 100 && r.value.day < 100
  {
    var year :- Field(s, 0, 4);
    if s[4] != DASH then Failure(ExpectedDash)
    else
      var month :- TwoDigits(s, 5);
      if s[7] != DASH then Failure(ExpectedDash)
      else
        var day :- TwoDigits(s, 8);
        if s[10] != UPPER_T && s[10] != BLANK then Failure(ExpectedT)
        else
          var hour :- Field(s, 11, 2);
          if s[13] != COLON then Failure(ExpectedColon)
          else
            var minute :- Field(s, 14, 2);
            if s[16] != COLON then Failure(ExpectedColon)
            else
              var second :- Field(s, 17, 2);
              Success(Moment(year, month, day, hour, minute, second))
  }

  function TwoDigits(s: Text, pos: nat): (r: Result<nat, IsoError>)
    ensures r.Success? ==> r.value < 100
    ensures r == Field(s, pos, 2)
  {
    var r := Field(s, pos, 2);
    TwoDigitsBelow100(s, pos);
    r
  }

  lemma TwoDigitsBelow100(s: Text, pos: nat)
    ensures Field(s, pos, 2).Success? ==> Field(s, pos, 2).value < 100
  {
    if Field(s, pos, 2).Success? {
      var t := s[pos..pos + 2];
      assert Decimal(t) == Decimal(t[..1]) * 10 + (t[1] - ZERO);
      assert t[..1][..0] == [];
    }
  }

  function DigitRun(s: Text, pos: nat): (n: nat)
    requires pos <= |s|
    ensures pos + n <= |s| && AllDigits(s[pos..pos + n])
    ensures pos + n < |s| ==> !IsDigit(s[pos + n])
    decreases |s| - pos
  {
    if pos < |s| && IsDigit(s[pos]) then
      var n := DigitRun(s, pos + 1);
      assert s[pos..pos + n + 1] == [s[pos]] + s[pos + 1..pos + 1 + n];
      n + 1
    else 0
  }

  function ZeroDigits(n: nat): Text {
    seq(n, _ => ZERO)
  }

  /** The first seven digits, zeros standing for those not written. */
  function FirstSeven(d: Text): (t: Text)
    requires AllDigits(d)
    ensures |t| == 7 && AllDigits(t)
  {
    if |d| >= 7 then d[..7] else d + ZeroDigits(7 - |d|)
  }

  /** Where the fraction ends, and its digits. */
  function FractionDigits(s: Text): (d: Text)
    requires |s| >= 19
    ensures AllDigits(d)
  {
    if |s| > 19 && s[19] == DOT then s[20..20 + DigitRun(s, 20)] else []
  }

  function FractionEnd(s: Text): (p: nat)
    requires |s| >= 19
    ensures p <= |s|
  {
    if |s| > 19 && s[19] == DOT then 20 + DigitRun(s, 20) else 19
  }

  function MinutesAt(s: Text, p: nat): nat {
    if p + 2 <= |s| && IsDigit(s[p]) && IsDigit(s[p + 1]) then (s[p] - ZERO) * 10 + (s[p + 1] - ZERO) else 0
  }

  /** Seconds east of UTC, zero for anything that is not an offset. */
  function OffsetSeconds(s: Text, p: nat): Result<int, IsoError>
    requires p <= |s|
  {
    if p < |s| && (s[p] == PLUS || s[p] == DASH) then
      var hours :- Field(s, p + 1, 2);
      var q := if p + 3 < |s| && s[p + 3] == COLON then p + 4 else p + 3;
      Success((if s[p] == PLUS then 1 else -1) * (hours * 3600 + MinutesAt(s, q) * 60))
    else Success(0)
  }

  function TotalSeconds(m: Moment, offset: int): int
    requires m.month < 100 && m.day < 100
  {
    (DaysFromCivil(m.year, m.month, m.day) + DAYS_1601_TO_1970) * 86400 + m.hour * 3600 + m.minute * 60
      + m.second - offset
  }

  function Scaled(total: int, fraction: nat): Result<UInt64, IsoError> {
    if total < 0 then Failure(PreEpoch) else Success((total * TICKS + fraction) % 0x1_0000_0000_0000_0000)
  }

  function Ticks(s: Text): Result<UInt64, IsoError> {
    if s == [] then Success(0)
    else if |s| < 19 then Failure(TooShort)
    else
      var m :- FixedPart(s);
      var offset :- OffsetSeconds(s, FractionEnd(s));
      Scaled(TotalSeconds(m, offset), Decimal(FirstSeven(FractionDigits(s))))
  }

  // ---- The conversion, step by step ----

  function Pow10(n: nat): (p: nat)
    ensures p >= 1
  {
    if n == 0 then 1 else 10 * Pow10(n - 1)
  }

  lemma DecimalSnoc(t: Text, c: Byte)
    requires AllDigits(t) && IsDigit(c)
    ensures AllDigits(t + [c]) && Decimal(t + [c]) == Decimal(t) * 10 + (c - ZERO)
  {
    assert (t + [c])[..|t|] == t;
  }

  lemma TenTimes(a: nat, p: nat)
    ensures a * (10 * p) == a * p * 10
  {
  }

  lemma {:induction false} ZerosScale(t: Text, n: nat)
    requires AllDigits(t)
    ensures AllDigits(t + ZeroDigits(n)) && Decimal(t + ZeroDigits(n)) == Decimal(t) * Pow10(n)
  {
    hide Decimal;
    if n == 0 {
      assert t + ZeroDigits(0) == t;
      assert Decimal(t) * 1 == Decimal(t);
    } else {
      ZerosScale(t, n - 1);
      TenTimes(Decimal(t), Pow10(n - 1));
      assert t + ZeroDigits(n) == t + ZeroDigits(n - 1) + [ZERO];
      DecimalSnoc(t + ZeroDigits(n - 1), ZERO);
    }
  }

  /** Dividing by 10, 100, ... cuts digits off. */
  lemma {:induction false} DigitsCut(t: Text, n: nat)
    requires AllDigits(t) && n <= |t|
    ensures Decimal(t) / Pow10(n) == Decimal(t[..|t| - n])
  {
    if n == 0 {
      assert t[..|t|] == t;
    } else {
      DigitsCut(t[..|t| - 1], n - 1);
      assert t[..|t| - 1][..|t| - 1 - (n - 1)] == t[..|t| - n];
      var q := Decimal(t[..|t| - 1]);
      DivisionTwice(q, t[|t| - 1] - ZERO, Pow10(n - 1));
    }
  }

  lemma DivisionTwice(q: nat, r: nat, p: nat)
    requires p >= 1 && r < 10
    ensures (q * 10 + r) / (10 * p) == q / p
  {
    var h, l := q / p, q % p;
    assert q == p * h + l;
    assert q * 10 + r == (10 * p) * h + (l * 10 + r);
    QuotientIs(10 * p, h, l * 10 + r);
  }

  lemma QuotientIs(d: nat, q: nat, r: nat)
    requires r < d
    ensures (d * q + r) / d == q
  {
    var x, y := (d * q + r) / d, (d * q + r) % d;
    assert d * x + y == d * q + r;
    if x < q {
      MulAtMost(x + 1, q, d);
    } else if x > q {
      MulAtMost(q + 1, x, d);
    }
  }

  lemma {:induction false} RunIs(s: Text, p: nat, q: nat)
    requires p <= q <= |s| && AllDigits(s[p..q]) && (q < |s| ==> !IsDigit(s[q]))
    ensures DigitRun(s, p) == q - p
    decreases q - p
  {
    if p >= q {
    } else {
      assert s[p..q][0] == s[p] && s[p..q][1..] == s[p + 1..q];
      RunIs(s, p + 1, q);
    }
  }

  /** Cutting nine digits down to seven, or filling up to seven, gives the first seven digits. */
  lemma SevenDigits(d: Text)
    requires AllDigits(d)
    ensures |d| > 7 ==> Decimal(d) / Pow10(|d| - 7) == Decimal(FirstSeven(d))
    ensures |d| <= 7 ==> Decimal(d) * Pow10(7 - |d|) == Decimal(FirstSeven(d))
  {
    hide Decimal, Pow10;
    if |d| > 7 {
      DigitsCut(d, |d| - 7);
    } else {
      ZerosScale(d, 7 - |d|);
      assert |d| == 7 ==> d + ZeroDigits(0) == d == d[..7];
    }
  }

  lemma OnlyFirstSeven(d: Text, n: nat)
    requires AllDigits(d) && 7 <= n <= |d|
    ensures FirstSeven(d[..n]) == FirstSeven(d)
  {
    assert d[..n][..7] == d[..7];
  }

  method Power(n: nat) returns (p: nat)
    ensures p == Pow10(n)
  {
    p := 1;
    for k := 0 to n
      invariant p == Pow10(k)
    {
      p := p * 10;
    }
  }

  /** The optional fraction: at most nine digits are read, the rest skipped, and the number is scaled to seven. */
  method ReadFraction(iso: Text) returns (ticks: nat, pos: nat)
    requires |iso| >= 19
    ensures pos == FractionEnd(iso) && ticks == Decimal(FirstSeven(FractionDigits(iso)))
  {
    hide FirstSeven, DigitRun, Pow10;
    if |iso| == 19 || iso[19] != DOT {
      SevenDigits([]);
      return 0, 19;
    }
    var frac, digits := 0, 0;
    pos := 20;
    while pos < |iso| && IsDigit(iso[pos]) && digits < 9
      invariant pos == 20 + digits <= |iso| && digits <= 9
      invariant AllDigits(iso[20..pos]) && frac == Decimal(iso[20..pos])
    {
      assert iso[20..pos + 1] == iso[20..pos] + [iso[pos]];
      DecimalSnoc(iso[20..pos], iso[pos]);
      frac := frac * 10 + (iso[pos] - ZERO);
      pos, digits := pos + 1, digits + 1;
    }
    ghost var read := iso[20..pos];
    while pos < |iso| && IsDigit(iso[pos])
      invariant 20 + digits <= pos <= |iso| && AllDigits(iso[20..pos]) && iso[20..pos][..digits] == read
      invariant digits < 9 ==> pos == 20 + digits
    {
      assert iso[20..pos + 1] == iso[20..pos] + [iso[pos]];
      pos := pos + 1;
    }
    RunIs(iso, 20, pos);
    ghost var all := iso[20..pos];
    SevenDigits(read);
    if digits < 9 {
      assert read == all;
    } else {
      OnlyFirstSeven(all, 9);
    }
    if digits > 7 {
      var divisor := Power(digits - 7);
      frac, digits := frac / divisor, 7;
      NoScaling();
    }
    var mult := Power(7 - digits);
    ticks := frac * mult;
  }

  lemma NoScaling()
    ensures Pow10(0) == 1
  {
  }

  /** The optional zone; anything unknown is ignored. */
  method ReadOffset(iso: Text, start: nat) returns (r: Result<int, IsoError>)
    requires start <= |iso|
    ensures r == OffsetSeconds(iso, start)
  {
    var pos, offset := start, 0;
    if pos < |iso| {
      var c := iso[pos];
      if c == UPPER_Z || c == LOWER_Z {
        pos := pos + 1;
      } else if c == PLUS || c == DASH {
        var sign: int := if c == PLUS then 1 else -1;
        pos := pos + 1;
        var hours :- ParseInt(iso, pos, 2);
        pos := pos + 2;
        if pos < |iso| && iso[pos] == COLON {
          pos := pos + 1;
        }
        var minutes := 0;
        if pos + 2 <= |iso| && IsDigit(iso[pos]) && IsDigit(iso[pos + 1]) {
          MinutesField(iso, pos);
          var parsed := ParseInt(iso, pos, 2);
          minutes := parsed.value;
        }
        offset := sign * (hours * 3600 + minutes * 60);
      }
    }
    return Success(offset);
  }

  lemma MinutesField(s: Text, p: nat)
    requires p + 2 <= |s| && IsDigit(s[p]) && IsDigit(s[p + 1])
    ensures Field(s, p, 2) == Success((s[p] - ZERO) * 10 + (s[p + 1] - ZERO))
  {
    var t := s[p..p + 2];
    assert t == [] + [s[p]] + [s[p + 1]];
    DecimalSnoc([], s[p]);
    DecimalSnoc([] + [s[p]], s[p + 1]);
  }

  /** isoToFiletimeTicks. */
  method IsoToFiletimeTicks(iso: Text) returns (r: Result<UInt64, IsoError>)
    ensures r == Ticks(iso)
  {
    hide Field, DaysFromCivil, Decimal, FirstSeven, FractionDigits, FractionEnd, OffsetSeconds;
    if iso == [] {
      return Success(0);
    }
    if |iso| < 19 {
      return Failure(TooShort);
    }
    var m :- ReadFixed(iso);
    var fracTicks, pos := ReadFraction(iso);
    var offset :- ReadOffset(iso, pos);
    var daysFrom1601 := DaysFromCivil(m.year, m.month, m.day) + DAYS_1601_TO_1970;
    var total := daysFrom1601 * 86400 + m.hour * 3600 + m.minute * 60 + m.second - offset;
    if total < 0 {
      return Failure(PreEpoch);
    }
    return Success((total * TICKS + fracTicks) % 0x1_0000_0000_0000_0000);
  }

  method ReadFixed(iso: Text) returns (r: Result<Moment, IsoError>)
    requires |iso| >= 19
    ensures r == FixedPart(iso)
  {
    hide Field;
    var pos := 0;
    var year :- ParseInt(iso, pos, 4);
    pos := pos + 4;
    if iso[pos] != DASH {
      return Failure(ExpectedDash);
    }
    pos := pos + 1;
    var month :- ParseInt(iso, pos, 2);
    pos := pos + 2;
    if iso[pos] != DASH {
      return Failure(ExpectedDash);
    }
    pos := pos + 1;
    var day :- ParseInt(iso, pos, 2);
    pos := pos + 2;
    if iso[pos] != UPPER_T && iso[pos] != BLANK {
      return Failure(ExpectedT);
    }
    pos := pos + 1;
    var hour :- ParseInt(iso, pos, 2);
    pos := pos + 2;
    if iso[pos] != COLON {
      return Failure(ExpectedColon);
    }
    pos := pos + 1;
    var minute :- ParseInt(iso, pos, 2);
    pos := pos + 2;
    if iso[pos] != COLON {
      return Failure(ExpectedColon);
    }
    pos := pos + 1;
    var second :- ParseInt(iso, pos, 2);
    return Success(Moment(year, month, day, hour, minute, second));
  }

  // ---- Written time stamps ----

  datatype Zone =
    | NoZone
    | Zulu(lower: bool)
    | Offset(east: bool, hours: nat, colon: bool, minutes: Option<nat>)

  datatype Stamp = Stamp(at: Moment, blank: bool, fraction: Option<Text>, zone: Zone)

  predicate ValidMoment(m: Moment) {
    m.year < 10000 && ValidDate(m.year, m.month, m.day) && m.hour < 24 && m.minute < 60 && m.second < 60
  }

  predicate ValidZone(z: Zone) {
    z.Offset? ==> z.hours < 100 && (z.minutes.Some? ==> z.minutes.value < 100)
  }

  predicate ValidStamp(st: Stamp) {
    && ValidMoment(st.at)
    && (st.fraction.Some? ==> AllDigits(st.fraction.value))
    && ValidZone(st.zone)
  }

  function Tens(n: nat): Byte
    requires n < 100
  {
    ZERO + n / 10
  }

  function Ones(n: nat): Byte
    requires n < 100
  {
    ZERO + n % 10
  }

  /** YYYY-MM-DDTHH:MM:SS, or with a blank for the T. */
  function MomentText(m: Moment, blank: bool): (t: Text)
    requires ValidMoment(m)
    ensures |t| == 19
  {
    [Tens(m.year / 100), Ones(m.year / 100), Tens(m.year % 100), Ones(m.year % 100), DASH,
     Tens(m.month), Ones(m.month), DASH, Tens(m.day), Ones(m.day),
     if blank then BLANK else UPPER_T,
     Tens(m.hour), Ones(m.hour), COLON, Tens(m.minute), Ones(m.minute), COLON, Tens(m.second), Ones(m.second)]
  }

  function FractionText(f: Option<Text>): Text {
    match f case None => [] case Some(d) => [DOT] + d
  }

  function ZoneText(z: Zone): Text
    requires ValidZone(z)
  {
    match z
    case NoZone => []
    case Zulu(lower) => [if lower then LOWER_Z else UPPER_Z]
    case Offset(east, hours, colon, minutes) =>
      [if east then PLUS else DASH, Tens(hours), Ones(hours)] + (if colon then [COLON] else [])
      + match minutes case None => [] case Some(n) => [Tens(n), Ones(n)]
  }

  function StampText(st: Stamp): Text
    requires ValidStamp(st)
  {
    MomentText(st.at, st.blank) + FractionText(st.fraction) + ZoneText(st.zone)
  }

  // ---- Their meaning ----

  function ZoneSeconds(z: Zone): int {
    match z
    case NoZone => 0
    case Zulu(_) => 0
    case Offset(east, hours, _, minutes) =>
      var away := hours * 3600 + (if minutes.Some? then minutes.value * 60 else 0);
      if east then away else -away
  }

  function SecondOfDay(m: Moment): nat {
    m.hour * 3600 + m.minute * 60 + m.second
  }

  /** UTC seconds since the start of 1601. */
  function Seconds(st: Stamp): int
    requires ValidStamp(st)
  {
    (DayCount(st.at.year, st.at.month, st.at.day) - DayCount(1601, 1, 1)) * 86400
      + SecondOfDay(st.at) - ZoneSeconds(st.zone)
  }

  function FractionTicks(st: Stamp): nat
    requires ValidStamp(st)
  {
    Decimal(FirstSeven(WrittenDigits(st.fraction)))
  }

  function WrittenDigits(f: Option<Text>): Text {
    match f case None => [] case Some(d) => d
  }

  // ---- Reading what was written ----

  lemma DigitPair(s: Text, p: nat, n: nat)
    requires n < 100 && p + 2 <= |s| && s[p] == Tens(n) && s[p + 1] == Ones(n)
    ensures Field(s, p, 2) == Success(n) && IsDigit(s[p]) && IsDigit(s[p + 1]) && MinutesAt(s, p) == n
  {
    MinutesField(s, p);
  }

  lemma FourJoin(s: Text)
    requires |s| >= 4 && IsDigit(s[0]) && IsDigit(s[1]) && IsDigit(s[2]) && IsDigit(s[3])
    ensures Field(s, 0, 4)
            == Success(1000 * (s[0] - ZERO) as nat + 100 * (s[1] - ZERO) as nat + 10 * (s[2] - ZERO) as nat
                       + (s[3] - ZERO) as nat)
  {
    hide Decimal, IsDigit;
    NothingDecimal();
    DecimalSnoc(s[..0], s[0]);
    assert s[..0] + [s[0]] == s[..1];
    DecimalSnoc(s[..1], s[1]);
    assert s[..1] + [s[1]] == s[..2];
    DecimalSnoc(s[..2], s[2]);
    assert s[..2] + [s[2]] == s[..3];
    DecimalSnoc(s[..3], s[3]);
    assert s[..3] + [s[3]] == s[0..4];
  }

  lemma NothingDecimal()
    ensures Decimal([]) == 0
  {
  }

  lemma FourDigits(s: Text, n: nat)
    requires n < 10000 && |s| >= 4
    requires s[0] == Tens(n / 100) && s[1] == Ones(n / 100) && s[2] == Tens(n % 100) && s[3] == Ones(n % 100)
    ensures Field(s, 0, 4) == Success(n)
  {
    hide Field;
    FourJoin(s);
  }

  lemma MomentReads(m: Moment, blank: bool, tail: Text)
    requires ValidMoment(m)
    ensures FixedPart(MomentText(m, blank) + tail) == Success(m)
  {
    hide Field, Tens, Ones, MinutesAt, TwoDigits, IsLeap, IsDigit;
    var t := MomentText(m, blank);
    var s := t + tail;
    assert forall i | 0 <= i < 19 :: s[i] == t[i];
    FourDigits(s, m.year);
    DigitPair(s, 5, m.month);
    DigitPair(s, 8, m.day);
    DigitPair(s, 11, m.hour);
    DigitPair(s, 14, m.minute);
    DigitPair(s, 17, m.second);
  }

  predicate NoFractionFirst(t: Text) {
    t == [] || (t[0] != DOT && !IsDigit(t[0]))
  }

  lemma FractionReads(front: Text, f: Option<Text>, tail: Text)
    requires |front| == 19 && (f.Some? ==> AllDigits(f.value)) && NoFractionFirst(tail)
    ensures var s := front + FractionText(f) + tail;
            && FractionEnd(s) == 19 + |FractionText(f)|
            && FractionDigits(s) == WrittenDigits(f)
  {
    hide DigitRun;
    var s := front + FractionText(f) + tail;
    var p := 19 + |FractionText(f)|;
    assert s[p..] == tail;
    assert p < |s| ==> s[p] == tail[0];
    if f.Some? {
      assert s[19] == DOT && s[20..p] == f.value;
      RunIs(s, 20, p);
    }
  }

  lemma ZoneStarts(z: Zone)
    requires ValidZone(z)
    ensures NoFractionFirst(ZoneText(z))
  {
  }

  lemma ZoneReads(s: Text, p: nat, z: Zone)
    requires ValidZone(z) && p <= |s| && s[p..] == ZoneText(z)
    ensures OffsetSeconds(s, p) == Success(ZoneSeconds(z))
  {
    hide Field, Tens, Ones;
    var t := ZoneText(z);
    assert forall i | 0 <= i < |t| :: s[p + i] == t[i];
    if z.Offset? {
      DigitPair(s, p + 1, z.hours);
      var q := if z.colon then p + 4 else p + 3;
      match z.minutes {
        case None =>
          assert |t| == q - p;
          assert p + 3 < |s| ==> z.colon;
        case Some(n) =>
          DigitPair(s, q, n);
          NoColon(n);
      }
    }
  }

  lemma NoColon(n: nat)
    requires n < 100
    ensures Tens(n) != COLON && Ones(n) != COLON
  {
  }

  lemma FirstDay()
    ensures DayCount(1601, 1, 1) == DayCount(1970, 1, 1) - DAYS_1601_TO_1970
  {
    hide YearStart;
    YearStartFormula(1601);
    YearStartFormula(1970);
  }

  lemma DayCountBounded(y: nat, m: nat, d: nat)
    requires y < 10000 && ValidDate(y, m, d)
    ensures 0 <= DayCount(y, m, d) < 4_000_000
  {
    hide YearStart, MonthStart, YearLength;
    YearStartFormula(y);
    YearIsItsMonths(y, m);
    YearsBelow(y);
  }

  lemma YearsBelow(y: nat)
    requires y < 10000
    ensures 0 <= YearFormula(y) < 3_999_000 && YearLength(y) <= 366
  {
  }

  lemma {:induction false} DecimalBounded(t: Text)
    requires AllDigits(t)
    ensures Decimal(t) < Pow10(|t|)
  {
    if t == [] {
    } else {
      DecimalBounded(t[..|t| - 1]);
    }
  }

  lemma TenMillion()
    ensures Pow10(7) == TICKS
  {
    assert Pow10(3) == 1000;
    assert Pow10(5) == 100 * Pow10(3);
  }

  lemma FractionBounded(st: Stamp)
    requires ValidStamp(st)
    ensures FractionTicks(st) < TICKS
  {
    hide Pow10;
    DecimalBounded(FirstSeven(WrittenDigits(st.fraction)));
    TenMillion();
  }

  /**
   Every written time stamp converts to its own instant: calendar days since 1601 counted by year and month lengths,
   the time of day, the zone's offset taken off, and the first seven digits of the fraction.
   */
  lemma TicksOfStamp(st: Stamp)
    requires ValidStamp(st)
    ensures Ticks(StampText(st)) ==
            if Seconds(st) < 0 then Failure(PreEpoch) else Success(Seconds(st) * TICKS + FractionTicks(st))
  {
    hide FixedPart, OffsetSeconds, FractionEnd, FractionDigits, Decimal, FirstSeven, DaysFromCivil, DayCount, ZoneText;
    var s := StampText(st);
    var front, f, z := MomentText(st.at, st.blank), FractionText(st.fraction), ZoneText(st.zone);
    assert s == front + (f + z);
    MomentReads(st.at, st.blank, f + z);
    ZoneStarts(st.zone);
    FractionReads(front, st.fraction, z);
    assert s[19 + |f|..] == z;
    ZoneReads(s, 19 + |f|, st.zone);
    DaysAreCounted(st.at.year, st.at.month, st.at.day);
    FirstDay();
    EpochDay();
    DayCountBounded(st.at.year, st.at.month, st.at.day);
    FractionBounded(st);
    NoWrapInTicks(Seconds(st), FractionTicks(st));
  }

  lemma NoWrapInTicks(seconds: int, fraction: nat)
    requires seconds < 1_000_000_000_000 && fraction < TICKS
    ensures Scaled(seconds, fraction) == if seconds < 0 then Failure(PreEpoch) else Success(seconds * TICKS + fraction)
  {
  }

  // ---- Order ----

  predicate IsUtc(z: Zone) {
    !z.Offset?
  }

  /** Earlier by date, then by time of day, then by the first seven digits of the fraction. */
  predicate Before(a: Stamp, b: Stamp)
    requires ValidStamp(a) && ValidStamp(b)
  {
    var p, q := a.at, b.at;
    || EarlierDate(p.year, p.month, p.day, q.year, q.month, q.day)
    || (p.year == q.year && p.month == q.month && p.day == q.day
        && (EarlierDate(p.hour, p.minute, p.second, q.hour, q.minute, q.second)
            || (p.hour == q.hour && p.minute == q.minute && p.second == q.second
                && FractionTicks(a) < FractionTicks(b))))
  }

  function Instant(st: Stamp): int
    requires ValidStamp(st)
  {
    Seconds(st) * TICKS + FractionTicks(st)
  }

  lemma BeforeIsLess(a: Stamp, b: Stamp)
    requires ValidStamp(a) && ValidStamp(b) && IsUtc(a.zone) && IsUtc(b.zone) && Before(a, b)
    ensures Instant(a) < Instant(b)
  {
    hide DayCount, FractionTicks, ValidDate;
    FractionBounded(a);
    FractionBounded(b);
    if EarlierDate(a.at.year, a.at.month, a.at.day, b.at.year, b.at.month, b.at.day) {
      EarlierCountsLess(a.at.year, a.at.month, a.at.day, b.at.year, b.at.month, b.at.day);
    }
  }

  lemma UtcFrom1601(st: Stamp)
    requires ValidStamp(st) && IsUtc(st.zone) && st.at.year >= 1601
    ensures Seconds(st) >= 0
  {
    hide DayCount;
    if EarlierDate(1601, 1, 1, st.at.year, st.at.month, st.at.day) {
      EarlierCountsLess(1601, 1, 1, st.at.year, st.at.month, st.at.day);
    }
  }

  /** For UTC stamps from 1601 on, tick order is exactly the order of date, time and the seven fraction digits. */
  lemma TicksAreMonotone(a: Stamp, b: Stamp)
    requires ValidStamp(a) && ValidStamp(b) && IsUtc(a.zone) && IsUtc(b.zone) && a.at.year >= 1601 && b.at.year >= 1601
    ensures Ticks(StampText(a)).Success? && Ticks(StampText(b)).Success?
    ensures Ticks(StampText(a)).value < Ticks(StampText(b)).value <==> Before(a, b)
  {
    hide Ticks, StampText, FractionTicks, DayCount, ValidMoment;
    TicksOfStamp(a);
    TicksOfStamp(b);
    UtcFrom1601(a);
    UtcFrom1601(b);
    if Before(a, b) {
      BeforeIsLess(a, b);
    } else if Before(b, a) {
      BeforeIsLess(b, a);
    }
  }
}
