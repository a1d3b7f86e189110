/** A concrete instance of the calendar-time converter the wrapper applies to
    `start_time` and `end_time` (backend/mcp_handler.py): for timestamps written
    `YYYY-MM-DDTHH:MM:SS+HH:MM` or `...-HH:MM`: the local time moved to UTC and written
    as `YYYY-MM-DDTHH:MM:SSZ`, with the Gregorian calendar written out in integer
    arithmetic. */
module IsoTime {
  import opened Outcomes
  import opened Text
  import opened ToolCall

  /** A wall-clock date and time to the second. */
  datatype DateTime = DateTime(year: int, month: int, day: int, hour: int, minute: int, second: int)

  predicate IsLeap(y: int) {
    y % 4 == 0 && (y % 100 != 0 || y % 400 == 0)
  }

  function DaysInMonth(y: int, m: int): int
    requires 1 <= m <= 12
  {
    if m == 2 then (if IsLeap(y) then 29 else 28)
    else if m == 4 || m == 6 || m == 9 || m == 11 then 30
    else 31
  }

  /** A calendar date and a time of day, the year left unbounded. */
  predicate WellFormed(t: DateTime) {
    && 1 <= t.month <= 12 && 1 <= t.day <= DaysInMonth(t.year, t.month)
    && 0 <= t.hour < 24 && 0 <= t.minute < 60 && 0 <= t.second < 60
  }

  /** Within `datetime`'s range of years, 1 to 9999. */
  predicate InRange(t: DateTime) {
    WellFormed(t) && 1 <= t.year <= 9999
  }

  function NextDay(t: DateTime): DateTime
    requires WellFormed(t)
  {
    if t.day < DaysInMonth(t.year, t.month) then t.(day := t.day + 1)
    else if t.month < 12 then t.(month := t.month + 1, day := 1)
    else t.(year := t.year + 1, month := 1, day := 1)
  }

  function PrevDay(t: DateTime): DateTime
    requires WellFormed(t)
  {
    if t.day > 1 then t.(day := t.day - 1)
    else if t.month > 1 then t.(month := t.month - 1, day := DaysInMonth(t.year, t.month - 1))
    else t.(year := t.year - 1, month := 12, day := 31)
  }

  /** Moves a time by fewer than 24 hours' worth of minutes, crossing at most one
      midnight. */
  function ShiftMinutes(t: DateTime, delta: int): (r: DateTime)
    requires WellFormed(t) && -1440 < delta < 1440
    ensures WellFormed(r) && r.second == t.second
  {
    var total := t.hour * 60 + t.minute + delta;
    if total < 0 then
      var d := PrevDay(t);
      d.(hour := (total + 1440) / 60, minute := (total + 1440) % 60)
    else if total >= 1440 then
      var d := NextDay(t);
      d.(hour := (total - 1440) / 60, minute := (total - 1440) % 60)
    else t.(hour := total / 60, minute := total % 60)
  }

  lemma NextPrevInverse(t: DateTime)
    requires WellFormed(t)
    ensures WellFormed(PrevDay(t)) && NextDay(PrevDay(t)) == t
    ensures WellFormed(NextDay(t)) && PrevDay(NextDay(t)) == t
  {
  }

  /** Shifting by an offset and back restores the original time: converting to UTC
      loses nothing. */
  lemma ShiftRoundTrip(t: DateTime, offset: int)
    requires WellFormed(t) && -1440 < offset < 1440
    ensures ShiftMinutes(ShiftMinutes(t, -offset), offset) == t
  {
    NextPrevInverse(t);
    var total := t.hour * 60 + t.minute - offset;
    assert t.hour == (t.hour * 60 + t.minute) / 60;
    assert t.minute == (t.hour * 60 + t.minute) % 60;
    if total < 0 {
      var u := ShiftMinutes(t, -offset);
      assert u.hour * 60 + u.minute == total + 1440;
    } else if total >= 1440 {
      var u := ShiftMinutes(t, -offset);
      assert u.hour * 60 + u.minute == total - 1440;
    } else {
      var u := ShiftMinutes(t, -offset);
      assert u.hour * 60 + u.minute == total;
    }
  }

  // ---------------------------------------------------------------------------
  // Absolute time
  // ---------------------------------------------------------------------------

  function DaysInYear(y: int): int {
    if IsLeap(y) then 366 else 365
  }

  /** The days of the proleptic Gregorian calendar before 1 January of year `y`,
      counted as `date.toordinal` counts them, with floor division for years before 1. */
  function DaysBeforeYear(y: int): int {
    var p := y - 1;
    p * 365 + p / 4 - p / 100 + p / 400
  }

  /** The days of year `y` before the first of month `m`. */
  function DaysBeforeMonth(y: int, m: int): (r: int)
    requires 1 <= m <= 12
    ensures 0 <= r <= 31 * (m - 1)
  {
    if m == 1 then 0 else DaysBeforeMonth(y, m - 1) + DaysInMonth(y, m - 1)
  }

  /** The day number of a date: 1 January of year 1 is day 1. */
  function Ordinal(t: DateTime): int
    requires 1 <= t.month <= 12
  {
    DaysBeforeYear(t.year) + DaysBeforeMonth(t.year, t.month) + t.day
  }

  /** The instant a wall-clock time denotes, in minutes from the start of day 0. It
      is defined from the calendar alone, independently of how times are shifted. */
  function AbsMinutes(t: DateTime): int
    requires 1 <= t.month <= 12
  {
    Ordinal(t) * 1440 + t.hour * 60 + t.minute
  }

  /** Stepping from `y - 1` to `y` crosses a multiple of `k` exactly when `k` divides
      `y`, for the three divisors of the Gregorian leap rule. */
  lemma DivStep(y: int, k: int)
    requires k == 4 || k == 100 || k == 400
    ensures y / k - (y - 1) / k == (if y % k == 0 then 1 else 0)
  {
    if k == 4 {
      assert y / 4 - (y - 1) / 4 == (if y % 4 == 0 then 1 else 0);
    } else if k == 100 {
      assert y / 100 - (y - 1) / 100 == (if y % 100 == 0 then 1 else 0);
    } else {
      assert y / 400 - (y - 1) / 400 == (if y % 400 == 0 then 1 else 0);
    }
  }

  /** One more year adds that year's days. */
  lemma YearStep(y: int)
    ensures DaysBeforeYear(y + 1) == DaysBeforeYear(y) + DaysInYear(y)
  {
    var p := y - 1;
    DivStep(y, 4);
    DivStep(y, 100);
    DivStep(y, 400);
    DivisorChain(y);
    assert DaysBeforeYear(y + 1) - DaysBeforeYear(y)
      == 365 + (y / 4 - p / 4) - (y / 100 - p / 100) + (y / 400 - p / 400);
  }

  /** The divisors of the leap rule divide each other. */
  lemma DivisorChain(y: int)
    ensures y % 400 == 0 ==> y % 100 == 0
    ensures y % 100 == 0 ==> y % 4 == 0
  {
  }

  /** The twelve months fill the year. */
  lemma MonthsFillYear(y: int)
    ensures DaysBeforeMonth(y, 12) + DaysInMonth(y, 12) == DaysInYear(y)
  {
    var f := if IsLeap(y) then 29 else 28;
    assert DaysBeforeMonth(y, 2) == 31;
    assert DaysBeforeMonth(y, 3) == 31 + f;
    assert DaysBeforeMonth(y, 4) == 62 + f;
    assert DaysBeforeMonth(y, 5) == 92 + f;
    assert DaysBeforeMonth(y, 6) == 123 + f;
    assert DaysBeforeMonth(y, 7) == 153 + f;
    assert DaysBeforeMonth(y, 8) == 184 + f;
    assert DaysBeforeMonth(y, 9) == 215 + f;
    assert DaysBeforeMonth(y, 10) == 245 + f;
    assert DaysBeforeMonth(y, 11) == 276 + f;
    assert DaysBeforeMonth(y, 12) == 306 + f;
  }

  /** A month ends within its year. */
  lemma {:induction false} MonthWithinYear(y: int, m: int)
    requires 1 <= m <= 12
    ensures DaysBeforeMonth(y, m) + DaysInMonth(y, m) <= DaysInYear(y)
    decreases 12 - m
  {
    if m == 12 {
      MonthsFillYear(y);
    } else {
      MonthWithinYear(y, m + 1);
    }
  }

  /** The next day is the next day number. */
  lemma OrdinalNextDay(t: DateTime)
    requires WellFormed(t)
    ensures Ordinal(NextDay(t)) == Ordinal(t) + 1
  {
    if t.day == DaysInMonth(t.year, t.month) && t.month == 12 {
      YearStep(t.year);
      MonthsFillYear(t.year);
    }
  }

  /** The previous day is the previous day number. */
  lemma OrdinalPrevDay(t: DateTime)
    requires WellFormed(t)
    ensures Ordinal(PrevDay(t)) == Ordinal(t) - 1
  {
    NextPrevInverse(t);
    OrdinalNextDay(PrevDay(t));
  }

  /** Shifting by `delta` minutes moves the instant by exactly `delta` minutes,
      across midnight, month ends, leap days and year ends. */
  lemma ShiftMovesInstant(t: DateTime, delta: int)
    requires WellFormed(t) && -1440 < delta < 1440
    ensures AbsMinutes(ShiftMinutes(t, delta)) == AbsMinutes(t) + delta
  {
    var total := t.hour * 60 + t.minute + delta;
    if total < 0 {
      OrdinalPrevDay(t);
      assert (total + 1440) / 60 * 60 + (total + 1440) % 60 == total + 1440;
    } else if total >= 1440 {
      OrdinalNextDay(t);
      assert (total - 1440) / 60 * 60 + (total - 1440) % 60 == total - 1440;
    } else {
      assert total / 60 * 60 + total % 60 == total;
    }
  }

  /** Day numbers grow with the year. */
  lemma {:induction false} DaysBeforeYearGrows(a: int, b: int)
    requires a <= b
    ensures DaysBeforeYear(a) <= DaysBeforeYear(b)
    decreases b - a
  {
    if a < b {
      YearStep(a);
      DaysBeforeYearGrows(a + 1, b);
    }
  }

  /** Day numbers grow with the month. */
  lemma {:induction false} DaysBeforeMonthGrows(y: int, a: int, b: int)
    requires 1 <= a <= b <= 12
    ensures DaysBeforeMonth(y, a) <= DaysBeforeMonth(y, b)
    decreases b - a
  {
    if a < b {
      DaysBeforeMonthGrows(y, a + 1, b);
    }
  }

  /** Distinct dates have distinct day numbers. */
  lemma OrdinalInjective(a: DateTime, b: DateTime)
    requires WellFormed(a) && WellFormed(b) && Ordinal(a) == Ordinal(b)
    ensures a.year == b.year && a.month == b.month && a.day == b.day
  {
    MonthWithinYear(a.year, a.month);
    MonthWithinYear(b.year, b.month);
    if a.year < b.year {
      YearStep(a.year);
      DaysBeforeYearGrows(a.year + 1, b.year);
      assert false;
    } else if b.year < a.year {
      YearStep(b.year);
      DaysBeforeYearGrows(b.year + 1, a.year);
      assert false;
    }
    if a.month < b.month {
      DaysBeforeMonthGrows(a.year, a.month + 1, b.month);
      assert false;
    } else if b.month < a.month {
      DaysBeforeMonthGrows(a.year, b.month + 1, a.month);
      assert false;
    }
  }

  /** An instant names one wall-clock minute: times at the same instant agree on
      everything but the second. */
  lemma AbsMinutesInjective(a: DateTime, b: DateTime)
    requires WellFormed(a) && WellFormed(b) && AbsMinutes(a) == AbsMinutes(b)
    ensures a.(second := 0) == b.(second := 0)
  {
    var ma, mb := a.hour * 60 + a.minute, b.hour * 60 + b.minute;
    assert Ordinal(a) == Ordinal(b);
    OrdinalInjective(a, b);
    assert ma == mb;
    assert a.hour == ma / 60 && b.hour == mb / 60;
  }

  // ---------------------------------------------------------------------------
  // Text
  // ---------------------------------------------------------------------------

  /** The value of a fixed-width run of ASCII digits, or `None`. */
  function Digits(s: string, from: nat, width: nat): Option<nat>
    requires from + width <= |s|
  {
    ParseNat(s[from..from + width])
  }

  /** Recognises `YYYY-MM-DDTHH:MM:SS±HH:MM` and returns the local time and the UTC
      offset in minutes (positive east of Greenwich). The offset's hour and minute
      fields are read as plain two-digit numbers, so `+05:60` is six hours; only an
      offset of a whole day or more is refused, as `timezone` refuses it. */
  function ParseOffsetTimestamp(s: string): (r: Option<(DateTime, int)>)
    ensures r.Some? ==> |s| == 25 && InRange(r.value.0) && -1440 < r.value.1 < 1440
  {
    if |s| != 25 || s[4] != '-' || s[7] != '-' || s[10] != 'T' || s[13] != ':' || s[16] != ':'
       || (s[19] != '+' && s[19] != '-') || s[22] != ':'
    then None
    else
      var y := Digits(s, 0, 4);
      var mo := Digits(s, 5, 2);
      var d := Digits(s, 8, 2);
      var h := Digits(s, 11, 2);
      var mi := Digits(s, 14, 2);
      var se := Digits(s, 17, 2);
      var oh := Digits(s, 20, 2);
      var om := Digits(s, 23, 2);
      if y.None? || mo.None? || d.None? || h.None? || mi.None? || se.None? || oh.None? || om.None? then None
      else
        var t := DateTime(y.value, mo.value, d.value, h.value, mi.value, se.value);
        var off := oh.value * 60 + om.value;
        if !InRange(t) || off >= 1440 then None
        else Some((t, if s[19] == '+' then off else -off))
  }

  function Pow10(w: nat): nat {
    if w == 0 then 1 else 10 * Pow10(w - 1)
  }

  /** The last `width` decimal digits of `n`, most significant first: `n` zero-padded
      to `width` digits when it has no more. */
  function Fixed(n: nat, width: nat): (r: string)
    ensures |r| == width
    ensures forall i :: 0 <= i < |r| ==> IsDigit(r[i])
  {
    if width == 0 then "" else Fixed(n / 10, width - 1) + [DigitChar(n % 10)]
  }

  /** A number that fits in `width` digits reads back from its padded rendering. */
  lemma {:induction false} FixedValue(n: nat, width: nat)
    requires n < Pow10(width)
    ensures DigitsValue(Fixed(n, width)) == n
  {
    if width > 0 {
      FixedValue(n / 10, width - 1);
      var r := Fixed(n, width);
      assert r[..|r| - 1] == Fixed(n / 10, width - 1);
      assert DigitValue(r[|r| - 1]) == n % 10;
    }
  }

  /** A run of digits is the padded rendering of its own value. */
  lemma {:induction false} FixedOfDigits(t: string)
    requires forall i :: 0 <= i < |t| ==> IsDigit(t[i])
    ensures Fixed(DigitsValue(t), |t|) == t
  {
    if t != [] {
      var init := t[..|t| - 1];
      FixedOfDigits(init);
      var v := DigitsValue(t);
      assert v / 10 == DigitsValue(init) && v % 10 == DigitValue(t[|t| - 1]);
      assert DigitChar(DigitValue(t[|t| - 1])) == t[|t| - 1];
      assert t == init + [t[|t| - 1]];
    }
  }

  /** An in-range time written as `YYYY-MM-DDTHH:MM:SSZ`, every field zero-padded. */
  function FormatUtc(t: DateTime): string
    requires InRange(t)
  {
    DatePart(t) + "T" + TimePart(t) + "Z"
  }

  /** `YYYY-MM-DD`. */
  function DatePart(t: DateTime): string
    requires InRange(t)
  {
    Fixed(t.year, 4) + "-" + Fixed(t.month, 2) + "-" + Fixed(t.day, 2)
  }

  /** `HH:MM:SS`. */
  function TimePart(t: DateTime): string
    requires InRange(t)
  {
    Fixed(t.hour, 2) + ":" + Fixed(t.minute, 2) + ":" + Fixed(t.second, 2)
  }

  /** Recognises the `YYYY-MM-DDTHH:MM:SSZ` text the converter writes and returns the
      time it denotes. */
  function ParseUtcTimestamp(s: string): Option<DateTime> {
    if |s| != 20 || s[4] != '-' || s[7] != '-' || s[10] != 'T' || s[13] != ':' || s[16] != ':'
       || s[19] != 'Z'
    then None
    else
      var y := Digits(s, 0, 4);
      var mo := Digits(s, 5, 2);
      var d := Digits(s, 8, 2);
      var h := Digits(s, 11, 2);
      var mi := Digits(s, 14, 2);
      var se := Digits(s, 17, 2);
      if y.None? || mo.None? || d.None? || h.None? || mi.None? || se.None? then None
      else
        var t := DateTime(y.value, mo.value, d.value, h.value, mi.value, se.value);
        if InRange(t) then Some(t) else None
  }

  /** The UTC parser on a well-shaped text whose fields are known. */
  lemma UtcFieldsParse(s: string, t: DateTime)
    requires |s| == 20 && s[4] == '-' && s[7] == '-' && s[10] == 'T' && s[13] == ':' && s[16] == ':'
    requires s[19] == 'Z'
    requires Digits(s, 0, 4) == Some(t.year) && Digits(s, 5, 2) == Some(t.month)
    requires Digits(s, 8, 2) == Some(t.day) && Digits(s, 11, 2) == Some(t.hour)
    requires Digits(s, 14, 2) == Some(t.minute) && Digits(s, 17, 2) == Some(t.second)
    requires InRange(t)
    ensures ParseUtcTimestamp(s) == Some(t)
  {
  }

  /** The parser on a well-shaped east-of-Greenwich timestamp whose fields are known. */
  lemma ParseEastFields(s: string, t: DateTime, oh: nat, om: nat)
    requires |s| == 25 && s[4] == '-' && s[7] == '-' && s[10] == 'T' && s[13] == ':' && s[16] == ':'
    requires s[19] == '+' && s[22] == ':'
    requires Digits(s, 0, 4) == Some(t.year) && Digits(s, 5, 2) == Some(t.month)
    requires Digits(s, 8, 2) == Some(t.day) && Digits(s, 11, 2) == Some(t.hour)
    requires Digits(s, 14, 2) == Some(t.minute) && Digits(s, 17, 2) == Some(t.second)
    requires Digits(s, 20, 2) == Some(oh) && Digits(s, 23, 2) == Some(om)
    requires InRange(t) && oh * 60 + om < 1440
    ensures ParseOffsetTimestamp(s) == Some((t, oh * 60 + om))
  {
  }

  /** The parser on a well-shaped west-of-Greenwich timestamp whose fields are known. */
  lemma ParseWestFields(s: string, t: DateTime, oh: nat, om: nat)
    requires |s| == 25 && s[4] == '-' && s[7] == '-' && s[10] == 'T' && s[13] == ':' && s[16] == ':'
    requires s[19] == '-' && s[22] == ':'
    requires Digits(s, 0, 4) == Some(t.year) && Digits(s, 5, 2) == Some(t.month)
    requires Digits(s, 8, 2) == Some(t.day) && Digits(s, 11, 2) == Some(t.hour)
    requires Digits(s, 14, 2) == Some(t.minute) && Digits(s, 17, 2) == Some(t.second)
    requires Digits(s, 20, 2) == Some(oh) && Digits(s, 23, 2) == Some(om)
    requires InRange(t) && oh * 60 + om < 1440
    ensures ParseOffsetTimestamp(s) == Some((t, -(oh * 60 + om)))
  {
  }

  /** A field rendered at a known position of a text reads back as its value. */
  lemma FieldReadsBack(s: string, from: nat, n: nat, width: nat)
    requires 0 < width && from + width <= |s| && n < Pow10(width)
    requires s[from..from + width] == Fixed(n, width)
    ensures Digits(s, from, width) == Some(n)
  {
    FixedValue(n, width);
  }

  /** A digit field of an infix reads the same in the whole text. */
  lemma DigitsInInfix(s: string, k: nat, part: string, from: nat, width: nat)
    requires k + |part| <= |s| && s[k..k + |part|] == part && from + width <= |part|
    ensures Digits(s, k + from, width) == Digits(part, from, width)
  {
    var inS, inPart := s[k + from..k + from + width], part[from..from + width];
    forall i | 0 <= i < |inS|
      ensures inS[i] == inPart[i]
    {
      assert inS[i] == s[k + from + i] && inPart[i] == part[from + i];
      assert s[k..k + |part|][from + i] == s[k + from + i];
    }
    assert inS == inPart;
  }

  lemma DatePartReadsBack(t: DateTime)
    requires InRange(t)
    ensures var d := DatePart(t);
      && |d| == 10 && d[4] == '-' && d[7] == '-'
      && Digits(d, 0, 4) == Some(t.year) && Digits(d, 5, 2) == Some(t.month) && Digits(d, 8, 2) == Some(t.day)
  {
    var d := DatePart(t);
    assert Pow10(2) == 100 && Pow10(4) == 10000;
    assert d[0..4] == Fixed(t.year, 4) && d[5..7] == Fixed(t.month, 2) && d[8..10] == Fixed(t.day, 2);
    FieldReadsBack(d, 0, t.year, 4);
    FieldReadsBack(d, 5, t.month, 2);
    FieldReadsBack(d, 8, t.day, 2);
  }

  lemma TimePartReadsBack(t: DateTime)
    requires InRange(t)
    ensures var p := TimePart(t);
      && |p| == 8 && p[2] == ':' && p[5] == ':'
      && Digits(p, 0, 2) == Some(t.hour) && Digits(p, 3, 2) == Some(t.minute) && Digits(p, 6, 2) == Some(t.second)
  {
    var p := TimePart(t);
    assert Pow10(2) == 100;
    assert p[0..2] == Fixed(t.hour, 2) && p[3..5] == Fixed(t.minute, 2) && p[6..8] == Fixed(t.second, 2);
    FieldReadsBack(p, 0, t.hour, 2);
    FieldReadsBack(p, 3, t.minute, 2);
    FieldReadsBack(p, 6, t.second, 2);
  }

  /** The UTC text's fields read back as the time it was written from. */
  lemma {:induction false} FormatUtcReadsBack(t: DateTime)
    requires InRange(t)
    ensures ParseUtcTimestamp(FormatUtc(t)) == Some(t)
  {
    var f := FormatUtc(t);
    var d, p := DatePart(t), TimePart(t);
    DatePartReadsBack(t);
    TimePartReadsBack(t);
    assert f[0..10] == d && f[11..19] == p;
    DigitsInInfix(f, 0, d, 0, 4);
    DigitsInInfix(f, 0, d, 5, 2);
    DigitsInInfix(f, 0, d, 8, 2);
    DigitsInInfix(f, 11, p, 0, 2);
    DigitsInInfix(f, 11, p, 3, 2);
    DigitsInInfix(f, 11, p, 6, 2);
    UtcFieldsParse(f, t);
  }

  /** Every text the UTC parser accepts is the rendering of the time it denotes, so
      rendering and parsing are inverse on in-range times. */
  lemma {:induction false} ParseUtcFormats(s: string)
    requires ParseUtcTimestamp(s).Some?
    ensures FormatUtc(ParseUtcTimestamp(s).value) == s
  {
    var t := ParseUtcTimestamp(s).value;
    FixedOfDigits(s[0..4]);
    FixedOfDigits(s[5..7]);
    FixedOfDigits(s[8..10]);
    FixedOfDigits(s[11..13]);
    FixedOfDigits(s[14..16]);
    FixedOfDigits(s[17..19]);
    assert s == s[0..4] + [s[4]] + s[5..7] + [s[7]] + s[8..10] + [s[10]] + s[11..13] + [s[13]]
      + s[14..16] + [s[16]] + s[17..19] + [s[19]];
  }

  /** The converter on offset-aware timestamps: the UTC text, `ValueError` for text
      outside the recognised form, and `OverflowError` when the UTC time falls
      outside the years 1 to 9999. */
  function IsoToUtc(s: string): (r: Conversion)
    ensures r.Unparsable? <==> ParseOffsetTimestamp(s).None?
    ensures r.ConversionError? <==> (
      && ParseOffsetTimestamp(s).Some?
      && var p := ParseOffsetTimestamp(s).value;
         !InRange(ShiftMinutes(p.0, -p.1)))
    ensures r.Converted? ==> (
      && ParseOffsetTimestamp(s).Some?
      && var p := ParseOffsetTimestamp(s).value;
         var u := ShiftMinutes(p.0, -p.1);
         && InRange(u)
         && ParseUtcTimestamp(r.utc) == Some(u)
         && AbsMinutes(u) == AbsMinutes(p.0) - p.1 && u.second == p.0.second
         && ShiftMinutes(u, p.1) == p.0)
  {
    match ParseOffsetTimestamp(s)
    case None => Unparsable
    case Some(p) =>
      var u := ShiftMinutes(p.0, -p.1);
      if 1 <= u.year <= 9999 then
        ShiftedFacts(p.0, p.1);
        Converted(FormatUtc(u))
      else ConversionError("date value out of range")
  }

  /** What the converter relies on about a local time moved back by its offset. */
  lemma ShiftedFacts(t: DateTime, offset: int)
    requires InRange(t) && -1440 < offset < 1440 && InRange(ShiftMinutes(t, -offset))
    ensures var u := ShiftMinutes(t, -offset);
      && ParseUtcTimestamp(FormatUtc(u)) == Some(u)
      && AbsMinutes(u) == AbsMinutes(t) - offset && u.second == t.second
      && ShiftMinutes(u, offset) == t
  {
    ShiftRoundTrip(t, offset);
    ShiftMovesInstant(t, -offset);
    FormatUtcReadsBack(ShiftMinutes(t, -offset));
  }

  /** The converter output is the rendering of the one in-range time at the instant
      the offset names: the local instant minus the offset, at the same second. */
  lemma ConvertedIsInstant(s: string, v: DateTime)
    requires ParseOffsetTimestamp(s).Some?
    requires var p := ParseOffsetTimestamp(s).value;
      InRange(v) && AbsMinutes(v) == AbsMinutes(p.0) - p.1 && v.second == p.0.second
    ensures IsoToUtc(s) == Converted(FormatUtc(v))
  {
    var p := ParseOffsetTimestamp(s).value;
    var u := ShiftMinutes(p.0, -p.1);
    ShiftMovesInstant(p.0, -p.1);
    AbsMinutesInjective(u, v);
    assert u == v;
  }

  // ---------------------------------------------------------------------------
  // Worked examples
  // ---------------------------------------------------------------------------

  /** The value of a one- or more-digit string is the value of its prefix times ten
      plus its last digit. */
  lemma DigitsStep(t: string)
    requires |t| > 0 && forall i :: 0 <= i < |t| ==> IsDigit(t[i])
    ensures ParseNat(t) == Some(DigitsValue(t[..|t| - 1]) * 10 + DigitValue(t[|t| - 1]))
  {
  }

  lemma TwoDigits(s: string, from: nat)
    requires from + 2 <= |s| && IsDigit(s[from]) && IsDigit(s[from + 1])
    ensures Digits(s, from, 2) == Some(DigitValue(s[from]) * 10 + DigitValue(s[from + 1]))
  {
    var t := s[from..from + 2];
    assert t[0] == s[from] && t[1] == s[from + 1];
    DigitsStep(t);
    var a := t[..1];
    assert a == [s[from]];
    assert a[..0] == [];
    assert DigitsValue(a) == DigitValue(s[from]);
  }

  lemma FourDigits(s: string, from: nat)
    requires from + 4 <= |s|
    requires forall i :: from <= i < from + 4 ==> IsDigit(s[i])
    ensures Digits(s, from, 4) == Some(
      ((DigitValue(s[from]) * 10 + DigitValue(s[from + 1])) * 10 + DigitValue(s[from + 2])) * 10
        + DigitValue(s[from + 3]))
  {
    var t := s[from..from + 4];
    DigitsStep(t);
    var c := t[..3];
    var b := c[..2];
    var a := b[..1];
    assert a == [s[from]] && a[..0] == [];
    assert b[1] == s[from + 1] && c[2] == s[from + 2] && t[3] == s[from + 3];
    assert DigitsValue(a) == DigitValue(s[from]);
    assert DigitsValue(b) == DigitsValue(a) * 10 + DigitValue(s[from + 1]);
    assert DigitsValue(c) == DigitsValue(b) * 10 + DigitValue(s[from + 2]);
  }

  /** Two decimal digits at `i` and `i + 1`. */
  function Pair(s: string, i: nat): nat
    requires i + 1 < |s| && IsDigit(s[i]) && IsDigit(s[i + 1])
  {
    DigitValue(s[i]) * 10 + DigitValue(s[i + 1])
  }

  /** Digits wherever `YYYY-MM-DDTHH:MM:SS` has them. */
  predicate StampDigits(s: string) {
    && |s| >= 19
    && IsDigit(s[0]) && IsDigit(s[1]) && IsDigit(s[2]) && IsDigit(s[3])
    && IsDigit(s[5]) && IsDigit(s[6]) && IsDigit(s[8]) && IsDigit(s[9])
    && IsDigit(s[11]) && IsDigit(s[12]) && IsDigit(s[14]) && IsDigit(s[15])
    && IsDigit(s[17]) && IsDigit(s[18])
  }

  /** The date and time fields of any text shaped like a timestamp. */
  lemma StampFields(s: string)
    requires StampDigits(s)
    ensures Digits(s, 0, 4) == Some(Pair(s, 0) * 100 + Pair(s, 2))
    ensures Digits(s, 5, 2) == Some(Pair(s, 5)) && Digits(s, 8, 2) == Some(Pair(s, 8))
    ensures Digits(s, 11, 2) == Some(Pair(s, 11)) && Digits(s, 14, 2) == Some(Pair(s, 14))
    ensures Digits(s, 17, 2) == Some(Pair(s, 17))
  {
    FourDigits(s, 0);
    TwoDigits(s, 5);
    TwoDigits(s, 8);
    TwoDigits(s, 11);
    TwoDigits(s, 14);
    TwoDigits(s, 17);
  }

  /** The offset fields of any text shaped like an offset timestamp. */
  lemma OffsetFields(s: string)
    requires |s| >= 25 && IsDigit(s[20]) && IsDigit(s[21]) && IsDigit(s[23]) && IsDigit(s[24])
    ensures Digits(s, 20, 2) == Some(Pair(s, 20)) && Digits(s, 23, 2) == Some(Pair(s, 23))
  {
    TwoDigits(s, 20);
    TwoDigits(s, 23);
  }

  /** The time written in the date and time fields of a timestamp-shaped text. */
  function StampTime(s: string): DateTime
    requires StampDigits(s)
  {
    DateTime(Pair(s, 0) * 100 + Pair(s, 2), Pair(s, 5), Pair(s, 8), Pair(s, 11), Pair(s, 14), Pair(s, 17))
  }

  /** `YYYY-MM-DDTHH:MM:SS±HH:MM` with digits and separators in place. */
  predicate OffsetShaped(s: string) {
    && |s| == 25 && s[4] == '-' && s[7] == '-' && s[10] == 'T' && s[13] == ':' && s[16] == ':'
    && (s[19] == '+' || s[19] == '-') && s[22] == ':'
    && StampDigits(s) && IsDigit(s[20]) && IsDigit(s[21]) && IsDigit(s[23]) && IsDigit(s[24])
  }

  /** A well-shaped offset timestamp parses to the time and signed offset its fields
      spell, once the time is in range and the offset under a day. */
  lemma ParseShaped(s: string)
    requires OffsetShaped(s) && InRange(StampTime(s)) && Pair(s, 20) * 60 + Pair(s, 23) < 1440
    ensures s[19] == '+' ==> ParseOffsetTimestamp(s) == Some((StampTime(s), Pair(s, 20) * 60 + Pair(s, 23)))
    ensures s[19] == '-' ==> ParseOffsetTimestamp(s) == Some((StampTime(s), -(Pair(s, 20) * 60 + Pair(s, 23))))
  {
    StampFields(s);
    OffsetFields(s);
    if s[19] == '+' {
      ParseEastFields(s, StampTime(s), Pair(s, 20), Pair(s, 23));
    } else {
      ParseWestFields(s, StampTime(s), Pair(s, 20), Pair(s, 23));
    }
  }

  /** A well-shaped UTC timestamp parses to the time its fields spell, once in range. */
  lemma ParseUtcShaped(s: string)
    requires |s| == 20 && s[4] == '-' && s[7] == '-' && s[10] == 'T' && s[13] == ':' && s[16] == ':'
    requires s[19] == 'Z' && StampDigits(s) && InRange(StampTime(s))
    ensures ParseUtcTimestamp(s) == Some(StampTime(s))
  {
    StampFields(s);
    UtcFieldsParse(s, StampTime(s));
  }

  /** A conversion whose parse, shift and UTC text are known. */
  lemma ConvertsTo(s: string, t: DateTime, offset: int, utc: string, u: DateTime)
    requires ParseOffsetTimestamp(s) == Some((t, offset))
    requires ShiftMinutes(t, -offset) == u && InRange(u)
    requires ParseUtcTimestamp(utc) == Some(u)
    ensures IsoToUtc(s) == Converted(utc)
  {
    ShiftMovesInstant(t, -offset);
    ConvertedIsInstant(s, u);
    ParseUtcFormats(utc);
  }

  /** The offset's minute field is not range-checked: `+05:60` is read as six hours. */
  lemma SixtyMinuteOffset(s: string)
    requires s == "2024-03-01T10:00:00+05:60"
    ensures ParseOffsetTimestamp(s) == Some((DateTime(2024, 3, 1, 10, 0, 0), 360))
  {
    assert OffsetShaped(s) && StampTime(s) == DateTime(2024, 3, 1, 10, 0, 0);
    ParseShaped(s);
  }

  lemma IndiaMorningParse(s: string)
    requires s == "2024-03-01T10:00:00+05:30"
    ensures ParseOffsetTimestamp(s) == Some((DateTime(2024, 3, 1, 10, 0, 0), 330))
  {
    assert OffsetShaped(s) && StampTime(s) == DateTime(2024, 3, 1, 10, 0, 0);
    ParseShaped(s);
  }

  lemma IndiaMorningUtc(utc: string)
    requires utc == "2024-03-01T04:30:00Z"
    ensures ParseUtcTimestamp(utc) == Some(DateTime(2024, 3, 1, 4, 30, 0))
  {
    assert StampDigits(utc) && StampTime(utc) == DateTime(2024, 3, 1, 4, 30, 0);
    ParseUtcShaped(utc);
  }

  /** A meeting at 10:00 in India Standard Time is sent upstream as 04:30 UTC. */
  lemma IndiaMorningToUtc(s: string)
    requires s == "2024-03-01T10:00:00+05:30"
    ensures IsoToUtc(s) == Converted("2024-03-01T04:30:00Z")
  {
    IndiaMorningParse(s);
    IndiaMorningUtc("2024-03-01T04:30:00Z");
    assert ShiftMinutes(DateTime(2024, 3, 1, 10, 0, 0), -330) == DateTime(2024, 3, 1, 4, 30, 0);
    ConvertsTo(s, DateTime(2024, 3, 1, 10, 0, 0), 330, "2024-03-01T04:30:00Z", DateTime(2024, 3, 1, 4, 30, 0));
  }

  lemma IndiaSmallHoursParse(s: string)
    requires s == "2024-03-01T02:00:00+05:30"
    ensures ParseOffsetTimestamp(s) == Some((DateTime(2024, 3, 1, 2, 0, 0), 330))
  {
    assert OffsetShaped(s) && StampTime(s) == DateTime(2024, 3, 1, 2, 0, 0);
    ParseShaped(s);
  }

  lemma IndiaSmallHoursUtc(utc: string)
    requires utc == "2024-02-29T20:30:00Z"
    ensures ParseUtcTimestamp(utc) == Some(DateTime(2024, 2, 29, 20, 30, 0))
  {
    assert StampDigits(utc) && StampTime(utc) == DateTime(2024, 2, 29, 20, 30, 0);
    ParseUtcShaped(utc);
  }

  /** 02:00 in India on 1 March 2024 is still the previous day in UTC, and 2024 is a
      leap year: the UTC date is 29 February. */
  lemma IndiaSmallHoursToUtc(s: string)
    requires s == "2024-03-01T02:00:00+05:30"
    ensures IsoToUtc(s) == Converted("2024-02-29T20:30:00Z")
  {
    IndiaSmallHoursParse(s);
    IndiaSmallHoursUtc("2024-02-29T20:30:00Z");
    assert ShiftMinutes(DateTime(2024, 3, 1, 2, 0, 0), -330) == DateTime(2024, 2, 29, 20, 30, 0);
    ConvertsTo(s, DateTime(2024, 3, 1, 2, 0, 0), 330, "2024-02-29T20:30:00Z", DateTime(2024, 2, 29, 20, 30, 0));
  }

  lemma NewYorkEveParse(s: string)
    requires s == "2024-12-31T22:00:00-05:00"
    ensures ParseOffsetTimestamp(s) == Some((DateTime(2024, 12, 31, 22, 0, 0), -300))
  {
    assert OffsetShaped(s) && StampTime(s) == DateTime(2024, 12, 31, 22, 0, 0);
    ParseShaped(s);
  }

  lemma NewYorkEveUtc(utc: string)
    requires utc == "2025-01-01T03:00:00Z"
    ensures ParseUtcTimestamp(utc) == Some(DateTime(2025, 1, 1, 3, 0, 0))
  {
    assert StampDigits(utc) && StampTime(utc) == DateTime(2025, 1, 1, 3, 0, 0);
    ParseUtcShaped(utc);
  }

  /** 22:00 on New Year's Eve five hours west of Greenwich is 03:00 on New Year's Day
      in UTC: a negative offset moves the time forward. */
  lemma NewYorkEveToUtc(s: string)
    requires s == "2024-12-31T22:00:00-05:00"
    ensures IsoToUtc(s) == Converted("2025-01-01T03:00:00Z")
  {
    NewYorkEveParse(s);
    NewYorkEveUtc("2025-01-01T03:00:00Z");
    assert ShiftMinutes(DateTime(2024, 12, 31, 22, 0, 0), 300) == DateTime(2025, 1, 1, 3, 0, 0);
    ConvertsTo(s, DateTime(2024, 12, 31, 22, 0, 0), -300, "2025-01-01T03:00:00Z", DateTime(2025, 1, 1, 3, 0, 0));
  }
}
