/**
 Which texts the time stamp conversion takes, what it refuses them for, and the instant of every text it takes, read
 off the characters themselves (src/graph_convert.cpp).
 */
module IsoGrammar {
  import opened Ascii
  import opened Calendar
  import opened IsoTime
  import opened Wrappers

  // ---- The fixed characters ----

  predicate DigitAt(s: Text, p: nat) {
    p < |s| && '0' as int <= s[p] as int <= '9' as int
  }

  /** Character `i` of "0000-00-00T00:00:00" is of the right kind. */
  predicate GoodAt(s: Text, i: nat)
    requires i < |s|
  {
    if i in {4, 7} then s[i] == '-' as int
    else if i == 10 then s[i] == 'T' as int || s[i] == ' ' as int
    else if i in {13, 16} then s[i] == ':' as int
    else DigitAt(s, i)
  }

  function ErrorAt(i: nat): IsoError {
    if i in {4, 7} then ExpectedDash
    else if i == 10 then ExpectedT
    else if i in {13, 16} then ExpectedColon
    else NonDigit
  }

  predicate GoodUpTo(s: Text, n: nat)
    requires n <= |s|
  {
    forall i: nat | i < n :: GoodAt(s, i)
  }

  lemma FieldGood(s: Text, p: nat, n: nat)
    requires p + n <= |s|
    ensures (forall i | p <= i < p + n :: DigitAt(s, i)) ==> Field(s, p, n).Success?
    ensures (exists i :: p <= i < p + n && !DigitAt(s, i)) ==> Field(s, p, n) == Failure(NonDigit)
  {
    var t := s[p..p + n];
    if i :| p <= i < p + n && !DigitAt(s, i) {
      assert t[i - p] == s[i];
    } else {
      forall j | 0 <= j < n ensures IsDigit(t[j]) {
        assert DigitAt(s, p + j);
      }
    }
  }

  /** The fixed part reads exactly when all nineteen characters are good; otherwise the first wrong one decides. */
  lemma FixedPartExactly(s: Text)
    requires |s| >= 19
    ensures GoodUpTo(s, 19) <==> FixedPart(s).Success?
    ensures forall k: nat | k < 19 && GoodUpTo(s, k) && !GoodAt(s, k) :: FixedPart(s) == Failure(ErrorAt(k))
  {
    hide Field;
    FieldGood(s, 0, 4);
    FieldGood(s, 5, 2);
    FieldGood(s, 8, 2);
    FieldGood(s, 11, 2);
    FieldGood(s, 14, 2);
    FieldGood(s, 17, 2);
    forall k: nat | k < 19 && GoodUpTo(s, k) && !GoodAt(s, k) ensures FixedPart(s) == Failure(ErrorAt(k)) {
      FirstWrong(s, k);
    }
    if GoodUpTo(s, 19) {
      AllGood(s);
    } else {
      var i: nat :| i < 19 && !GoodAt(s, i);
      var k := LeastWrong(s, i);
      FirstWrong(s, k);
    }
  }

  lemma LeastWrong(s: Text, i: nat) returns (k: nat)
    requires i < 19 <= |s| && !GoodAt(s, i)
    ensures k < 19 && GoodUpTo(s, k) && !GoodAt(s, k)
  {
    k := 0;
    while GoodAt(s, k)
      invariant k <= i && GoodUpTo(s, k)
      decreases i - k
    {
      k := k + 1;
    }
  }

  lemma AllGood(s: Text)
    requires |s| >= 19 && GoodUpTo(s, 19)
    ensures FixedPart(s).Success?
  {
    hide Field;
    FieldGood(s, 0, 4);
    FieldGood(s, 5, 2);
    FieldGood(s, 8, 2);
    FieldGood(s, 11, 2);
    FieldGood(s, 14, 2);
    FieldGood(s, 17, 2);
    assert forall i: nat | i < 19 :: GoodAt(s, i);
    assert GoodAt(s, 4) && GoodAt(s, 7) && GoodAt(s, 10) && GoodAt(s, 13) && GoodAt(s, 16);
    assert forall i: nat | i < 19 && i !in {4, 7, 10, 13, 16} :: GoodAt(s, i) && DigitAt(s, i);
  }

  lemma FirstWrong(s: Text, k: nat)
    requires |s| >= 19 && k < 19 && GoodUpTo(s, k) && !GoodAt(s, k)
    ensures FixedPart(s) == Failure(ErrorAt(k))
  {
    hide Field;
    FieldGood(s, 0, 4);
    FieldGood(s, 5, 2);
    FieldGood(s, 8, 2);
    FieldGood(s, 11, 2);
    FieldGood(s, 14, 2);
    FieldGood(s, 17, 2);
    assert forall i: nat | i < k :: GoodAt(s, i);
    assert k > 4 ==> GoodAt(s, 4);
    assert k > 7 ==> GoodAt(s, 7);
    assert k > 10 ==> GoodAt(s, 10);
    assert k > 13 ==> GoodAt(s, 13);
    assert k > 16 ==> GoodAt(s, 16);
    assert forall i: nat | i < k && i !in {4, 7, 10, 13, 16} :: GoodAt(s, i) && DigitAt(s, i);
  }

  // ---- The optional parts ----

  /** Where the digits from `p` on end. */
  function RunEnd(s: Text, p: nat): (q: nat)
    requires p <= |s|
    ensures p <= q <= |s|
    decreases |s| - p
  {
    if DigitAt(s, p) then RunEnd(s, p + 1) else p
  }

  function ZoneStart(s: Text): (p: nat)
    requires |s| >= 19
    ensures 19 <= p <= |s|
  {
    if |s| > 19 && s[19] == '.' as int then RunEnd(s, 20) else 19
  }

  lemma {:induction false} RunEndIs(s: Text, p: nat)
    requires p <= |s|
    ensures RunEnd(s, p) == p + DigitRun(s, p)
    decreases |s| - p
  {
    if DigitAt(s, p) {
      RunEndIs(s, p + 1);
    } else {
    }
  }

  lemma ZoneStartIs(s: Text)
    requires |s| >= 19
    ensures ZoneStart(s) == FractionEnd(s)
    ensures FractionDigits(s) == if |s| > 19 && s[19] == '.' as int then s[20..ZoneStart(s)] else []
  {
    hide DigitRun;
    if |s| > 19 {
      RunEndIs(s, 20);
    }
  }

  predicate Signed(s: Text, p: nat) {
    p < |s| && (s[p] == '+' as int || s[p] == '-' as int)
  }

  /** A sign must be followed by two digits. */
  function ZoneError(s: Text, p: nat): Option<IsoError> {
    if !Signed(s, p) then None
    else if p + 3 > |s| then Some(TruncatedField)
    else if DigitAt(s, p + 1) && DigitAt(s, p + 2) then None
    else Some(NonDigit)
  }

  lemma ZoneExactly(s: Text, p: nat)
    requires p <= |s|
    ensures match ZoneError(s, p)
            case None => OffsetSeconds(s, p).Success?
            case Some(e) => OffsetSeconds(s, p) == Failure(e)
  {
    hide Field;
    if Signed(s, p) && p + 3 <= |s| {
      FieldGood(s, p + 1, 2);
    } else {
      FieldTooLong(s, p + 1);
    }
  }

  lemma FieldTooLong(s: Text, p: nat)
    ensures p + 2 > |s| ==> Field(s, p, 2) == Failure(TruncatedField)
  {
  }

  // ---- What is taken ----

  /** The empty text, or nineteen good characters and no sign that lacks its digits; anything may follow. */
  predicate Taken(s: Text) {
    s == [] || (|s| >= 19 && GoodUpTo(s, 19) && ZoneError(s, ZoneStart(s)).None?)
  }

  /** What a text is refused for: it is too short, or its first wrong character, or what follows its sign. */
  lemma TakesExactly(s: Text)
    ensures Taken(s) <==> Ticks(s).Success? || Ticks(s) == Failure(PreEpoch)
    ensures 0 < |s| < 19 <==> Ticks(s) == Failure(TooShort)
    ensures |s| >= 19 ==>
              forall k: nat | k < 19 && GoodUpTo(s, k) && !GoodAt(s, k) :: Ticks(s) == Failure(ErrorAt(k))
    ensures |s| >= 19 && GoodUpTo(s, 19) && ZoneError(s, ZoneStart(s)).Some? ==>
              Ticks(s) == Failure(ZoneError(s, ZoneStart(s)).value)
  {
    hide FixedPart, OffsetSeconds, TotalSeconds, Decimal, FirstSeven, FractionDigits, FractionEnd, GoodAt, ZoneStart;
    if |s| >= 19 {
      FixedPartExactly(s);
      ZoneStartIs(s);
      ZoneExactly(s, ZoneStart(s));
      if FixedPart(s).Failure? {
        FixedErrors(s);
      }
    }
  }

  lemma FixedErrors(s: Text)
    requires |s| >= 19 && FixedPart(s).Failure?
    ensures FixedPart(s).error in {NonDigit, ExpectedDash, ExpectedT, ExpectedColon}
  {
  }

  // ---- The instant ----

  function Two(s: Text, p: nat): (n: nat)
    requires DigitAt(s, p) && DigitAt(s, p + 1)
    ensures n < 100
  {
    (s[p] as int - '0' as int) * 10 + (s[p + 1] as int - '0' as int)
  }

  /** The `k`-th digit of the fraction, zero where none is written. */
  function FractionDigit(s: Text, k: nat): nat
    requires |s| >= 19
  {
    if |s| > 19 && s[19] == '.' as int && DigitAt(s, 20 + k) && 20 + k < ZoneStart(s) then s[20 + k] as int - '0' as int
    else 0
  }

  function Fraction(s: Text): nat
    requires |s| >= 19
  {
    1000000 * FractionDigit(s, 0) + 100000 * FractionDigit(s, 1) + 10000 * FractionDigit(s, 2)
    + 1000 * FractionDigit(s, 3) + 100 * FractionDigit(s, 4) + 10 * FractionDigit(s, 5) + FractionDigit(s, 6)
  }

  /** Hours and, if two digits follow at once or after a colon, minutes. */
  function OffsetOf(s: Text, p: nat): int
    requires ZoneError(s, p).None?
  {
    if !Signed(s, p) then 0
    else
      var q := if p + 3 < |s| && s[p + 3] == ':' as int then p + 4 else p + 3;
      var minutes := if DigitAt(s, q) && DigitAt(s, q + 1) then Two(s, q) else 0;
      (if s[p] == '+' as int then 1 else -1) * (Two(s, p + 1) * 3600 + minutes * 60)
  }

  lemma PairReads(s: Text, p: nat)
    requires DigitAt(s, p) && DigitAt(s, p + 1)
    ensures Field(s, p, 2) == Success(Two(s, p))
  {
    MinutesField(s, p);
  }

  lemma OffsetIs(s: Text, p: nat)
    requires p <= |s| && ZoneError(s, p).None?
    ensures OffsetSeconds(s, p) == Success(OffsetOf(s, p))
  {
    hide Field;
    if Signed(s, p) {
      PairReads(s, p + 1);
    }
  }

  lemma YearReads(s: Text)
    requires |s| >= 4 && DigitAt(s, 0) && DigitAt(s, 1) && DigitAt(s, 2) && DigitAt(s, 3)
    ensures Field(s, 0, 4) == Success(Two(s, 0) * 100 + Two(s, 2))
  {
    hide Field;
    FourJoin(s);
  }

  /** The moment the nineteen characters spell. */
  function MomentOf(s: Text): Moment
    requires |s| >= 19 && GoodUpTo(s, 19)
  {
    DigitsGood(s);
    Moment(Two(s, 0) * 100 + Two(s, 2), Two(s, 5), Two(s, 8), Two(s, 11), Two(s, 14), Two(s, 17))
  }

  lemma DigitsGood(s: Text)
    requires |s| >= 19 && GoodUpTo(s, 19)
    ensures forall i: nat | i < 19 && i !in {4, 7, 10, 13, 16} :: DigitAt(s, i)
  {
    assert forall i: nat | i < 19 && i !in {4, 7, 10, 13, 16} :: GoodAt(s, i) && DigitAt(s, i);
  }

  lemma MomentIs(s: Text)
    requires |s| >= 19 && GoodUpTo(s, 19)
    ensures FixedPart(s) == Success(MomentOf(s))
  {
    hide Field, Two, GoodAt, DigitAt;
    FixedPartExactly(s);
    DigitsGood(s);
    YearReads(s);
    PairReads(s, 5);
    PairReads(s, 8);
    PairReads(s, 11);
    PairReads(s, 14);
    PairReads(s, 17);
  }

  lemma {:induction false} SevenJoin(t: Text)
    requires |t| == 7 && AllDigits(t)
    ensures Decimal(t) as int == 1000000 * (t[0] - ZERO) + 100000 * (t[1] - ZERO) + 10000 * (t[2] - ZERO)
                                 + 1000 * (t[3] - ZERO) + 100 * (t[4] - ZERO) + 10 * (t[5] - ZERO) + (t[6] - ZERO)
  {
    hide Decimal;
    DecimalSnoc(t[..0], t[0]);
    assert t[..0] + [t[0]] == t[..1];
    DecimalSnoc(t[..1], t[1]);
    assert t[..1] + [t[1]] == t[..2];
    DecimalSnoc(t[..2], t[2]);
    assert t[..2] + [t[2]] == t[..3];
    DecimalSnoc(t[..3], t[3]);
    assert t[..3] + [t[3]] == t[..4];
    DecimalSnoc(t[..4], t[4]);
    assert t[..4] + [t[4]] == t[..5];
    DecimalSnoc(t[..5], t[5]);
    assert t[..5] + [t[5]] == t[..6];
    DecimalSnoc(t[..6], t[6]);
    assert t[..6] + [t[6]] == t;
    NothingDecimal();
  }

  lemma DigitIs(s: Text, k: nat)
    requires |s| >= 19 && k < 7
    ensures FirstSeven(FractionDigits(s))[k] as int - ZERO as int == FractionDigit(s, k)
  {
    hide DigitRun, RunEnd;
    ZoneStartIs(s);
    if |s| > 19 && s[19] == '.' as int {
      RunEndIs(s, 20);
      var d := FractionDigits(s);
      assert k < |d| ==> d[k] == s[20 + k] && IsDigit(d[k]);
    }
  }

  lemma FractionIs(s: Text)
    requires |s| >= 19
    ensures Decimal(FirstSeven(FractionDigits(s))) == Fraction(s)
  {
    hide Decimal, FirstSeven, FractionDigits, FractionDigit;
    SevenJoin(FirstSeven(FractionDigits(s)));
    DigitIs(s, 0);
    DigitIs(s, 1);
    DigitIs(s, 2);
    DigitIs(s, 3);
    DigitIs(s, 4);
    DigitIs(s, 5);
    DigitIs(s, 6);
  }

  lemma FractionSmall(s: Text)
    requires |s| >= 19
    ensures Fraction(s) < 10_000_000
  {
    hide Decimal, Pow10;
    FractionIs(s);
    DecimalBounded(FirstSeven(FractionDigits(s)));
    TenMillion();
  }

  /** Seconds since the start of 1601. */
  function SecondsOf(s: Text): int
    requires |s| >= 19 && Taken(s) && MomentOf(s).month >= 1
  {
    var m := MomentOf(s);
    (DayCount(m.year, m.month, m.day) - DayCount(1601, 1, 1)) * 86400 + m.hour * 3600 + m.minute * 60 + m.second
      - OffsetOf(s, ZoneStart(s))
  }

  /**
   Every text that is taken and names a month and a day other than 00, whatever its time of day and whatever follows:
   days since 1601, the written time of day, the written offset, and seven digits of the fraction, in units of 100
   nanoseconds.
   */
  lemma TicksOfText(s: Text)
    requires |s| >= 19 && Taken(s) && 1 <= MomentOf(s).month <= 12 && MomentOf(s).day >= 1
    ensures Ticks(s) ==
            if SecondsOf(s) < 0 then Failure(PreEpoch) else Success(SecondsOf(s) * 10_000_000 + Fraction(s))
  {
    hide FixedPart, OffsetSeconds, FractionEnd, FractionDigits, Decimal, FirstSeven, DaysFromCivil, DayCount, ZoneStart,
         OffsetOf, Fraction, MomentOf, ZoneError, GoodAt;
    var m := MomentOf(s);
    MomentIs(s);
    ZoneStartIs(s);
    OffsetIs(s, ZoneStart(s));
    FractionIs(s);
    FractionSmall(s);
    SmallMoment(s);
    OffsetSmall(s, ZoneStart(s));
    DaysAreCounted(m.year, m.month, m.day);
    FirstDay();
    EpochDay();
    DayCountBounded(m.year, m.month, 1);
    DaysFollow(m.year, m.month, m.day);
    NoWrapInTicks(SecondsOf(s), Fraction(s));
  }

  lemma DaysFollow(y: int, m: nat, d: nat)
    requires m >= 1
    ensures DayCount(y, m, d) == DayCount(y, m, 1) + d - 1
  {
  }

  lemma SmallMoment(s: Text)
    requires |s| >= 19 && GoodUpTo(s, 19)
    ensures var m := MomentOf(s);
            m.year < 10000 && m.month < 100 && m.day < 100 && m.hour < 100 && m.minute < 100 && m.second < 100
  {
    DigitsGood(s);
  }

  lemma OffsetSmall(s: Text, p: nat)
    requires ZoneError(s, p).None?
    ensures -1_000_000 < OffsetOf(s, p) < 1_000_000
  {
  }
}
