/** `DateTime` and `TimeSpan` as the analyzer uses them: a point in time is a
    count of 100-nanosecond ticks since 0001-01-01 00:00, a span is a
    difference of ticks, and a date renders as `yyyy-MM-dd` in the proleptic
    Gregorian calendar. */
module Clock {
  import opened Text

  const TicksPerDay: int := 864_000_000_000

  /** `DateTime.MinValue.Ticks` and `DateTime.MaxValue.Ticks` (9999-12-31 23:59:59.9999999). */
  const MinTicks: int := 0
  const MaxTicks: int := 3_155_378_975_999_999_999

  type Ticks = t: int | MinTicks <= t <= MaxTicks

  /** `TimeSpan.FromDays(days)` in ticks. */
  function Days(days: int): int {
    days * TicksPerDay
  }

  datatype CivilDate = CivilDate(year: int, month: int, day: int)

  /** The calendar date of a tick count (days-to-civil conversion on a calendar
      whose years start on 1 March, in 400-year eras of 146097 days). */
  function DateOf(t: Ticks): (d: CivilDate)
    ensures 1 <= d.year <= 9999 && 1 <= d.month <= 12 && 1 <= d.day <= 31
  {
    assert t / TicksPerDay <= 3_652_058;
    CivilFromDays(t / TicksPerDay)
  }

  /** The calendar date `days` days after 0001-01-01. */
  function CivilFromDays(days: nat): (d: CivilDate)
    ensures 1 <= d.year && 1 <= d.month <= 12 && 1 <= d.day <= 31
    ensures days <= 3_652_058 ==> d.year <= 9999
  {
    var z := days + 306;  // days since 0000-03-01
    var era := z / 146097;
    var doe := z % 146097;
    var yoe := YearOfEra(doe);
    YearStartsBefore(doe);
    var md := MonthDay(doe - StartOfYear(yoe));
    assert era == 0 && yoe == 0 ==> md.0 <= 2 by {
      if era == 0 && yoe == 0 {
        assert StartOfYear(0) == 0;
        assert doe < 366 by {
          assert doe - doe / 1460 < 365;
        }
      }
    }
    assert days <= 3_652_058 ==> yoe + era * 400 + (if md.0 <= 2 then 1 else 0) <= 9999 by {
      if days <= 3_652_058 && era == 24 && yoe == 399 {
        assert StartOfYear(399) == 145_731;
      }
    }
    var year := yoe + era * 400 + (if md.0 <= 2 then 1 else 0);
    CivilDate(year, md.0, md.1)
  }

  /** Days from the start of an era to the start of its year `yoe`: 365 a
      year, plus a leap day every fourth year but not every hundredth. */
  function StartOfYear(yoe: int): int {
    365 * yoe + yoe / 4 - yoe / 100
  }

  /** The year within a 400-year era of a day within it. The bound on the
      distance from the start of that year is far looser than the true 365,
      and is all the month arithmetic needs. */
  function YearOfEra(doe: int): (yoe: int)
    requires 0 <= doe < 146097
    ensures 0 <= yoe <= 399
    ensures doe - StartOfYear(yoe) < 466
  {
    (doe - doe / 1460 + doe / 36524 - doe / 146096) / 365
  }

  /** A day never falls before the start of its year. */
  lemma YearStartsBefore(doe: int)
    requires 0 <= doe < 146097
    ensures StartOfYear(YearOfEra(doe)) <= doe
  {
    var a, b, c := doe / 1460, doe / 36524, doe / 146096;
    var q := YearOfEra(doe);
    assert 365 * q <= doe - a + b - c;
    QuarterBound(doe, q);
    CenturyBound(doe, q);
  }

  /** No more leap years than quadrennia elapsed. */
  lemma QuarterBound(doe: int, q: int)
    requires 0 <= doe && 0 <= q && 365 * q <= doe
    ensures q / 4 <= doe / 1460
  {
    assert 1460 * (q / 4) <= 365 * q;
  }

  /** Every century counted by the day formula is one the year has reached. */
  lemma CenturyBound(doe: int, q: int)
    requires 0 <= doe < 146097 && 0 <= q
    requires 365 * q <= doe - doe / 1460 + doe / 36524 - doe / 146096
    requires q == (doe - doe / 1460 + doe / 36524 - doe / 146096) / 365
    ensures doe / 36524 - doe / 146096 <= q / 100
  {
    var k := doe / 36524 - doe / 146096;
    var n := doe - doe / 1460 + doe / 36524 - doe / 146096;
    assert 0 <= k <= 4;
    assert n >= 36500 * k;
    assert q >= 100 * k;
  }

  /** Month and day of the `doy`-th day of a year that starts on 1 March. */
  function MonthDay(doy: int): (md: (int, int))
    requires 0 <= doy < 466
    ensures 1 <= md.0 <= 12 && 1 <= md.1 <= 31
    ensures 306 <= doy < 366 ==> md.0 <= 2
    ensures doy < 306 ==> 3 <= md.0
  {
    var mp := (5 * doy + 2) / 153;
    var day := doy - (153 * mp + 2) / 5 + 1;
    (if mp < 10 then mp + 3 else mp - 9, day)
  }

  /** `DateTime.ToString("yyyy-MM-dd")` under a culture whose calendar is the
      Gregorian one; a culture with another calendar numbers the years
      differently. */
  function DateText(t: Ticks): (s: string)
    ensures |s| == 10
    ensures s[4] == '-' && s[7] == '-'
    ensures forall i :: 0 <= i < 10 && i != 4 && i != 7 ==> IsDigit(s[i])
    ensures DigitsValue(s[..4]) == DateOf(t).year
    ensures DigitsValue(s[5..7]) == DateOf(t).month
    ensures DigitsValue(s[8..10]) == DateOf(t).day
  {
    var d := DateOf(t);
    var year, month, day := Pad(d.year, 4), Pad(d.month, 2), Pad(d.day, 2);
    assert Pow10(2) == 100 && Pow10(4) == 10_000;
    PadValue(d.year, 4);
    PadValue(d.month, 2);
    PadValue(d.day, 2);
    DateFields(year, month, day);
    year + "-" + month + "-" + day
  }

  /** Where the three fields sit in `yyyy-MM-dd`. */
  lemma DateFields(year: string, month: string, day: string)
    requires |year| == 4 && |month| == 2 && |day| == 2
    ensures var s := year + "-" + month + "-" + day;
      |s| == 10 && s[..4] == year && s[4] == '-' && s[5..7] == month && s[7] == '-' && s[8..10] == day
  {
  }

  /** Spot checks of the calendar arithmetic at both ends of the `DateTime`
      range and on a leap day. */
  lemma DateOfMin()
    ensures DateOf(MinTicks) == CivilDate(1, 1, 1)
  {
    assert MinTicks / TicksPerDay == 0;
    assert YearOfEra(306) == 0;
    assert MonthDay(306 - StartOfYear(YearOfEra(306))) == (1, 1);
  }

  lemma DateOfMax()
    ensures DateOf(MaxTicks) == CivilDate(9999, 12, 31)
  {
    assert MaxTicks / TicksPerDay == 3_652_058;
    assert (3_652_058 + 306) / 146097 == 24 && (3_652_058 + 306) % 146097 == 146036;
    assert YearOfEra(146036) == 399;
    assert MonthDay(146036 - StartOfYear(YearOfEra(146036))) == (12, 31);
  }

  lemma DateOfLeapDay()
    ensures DateOf(638_447_616_000_000_000) == CivilDate(2024, 2, 29)
  {
    assert 638_447_616_000_000_000 / TicksPerDay == 738_944;
    assert (738_944 + 306) / 146097 == 5 && (738_944 + 306) % 146097 == 8765;
    assert YearOfEra(8765) == 23;
    assert MonthDay(8765 - StartOfYear(YearOfEra(8765))) == (2, 29);
  }

  lemma PadSamples()
    ensures Pad(2024, 4) == "2024" && Pad(2, 2) == "02" && Pad(29, 2) == "29"
  {
    assert Pad(0, 1) == "0";
    assert Pad(2, 1) == "2";
    assert Pad(20, 2) == Pad(2, 1) + "0" == "20";
    assert Pad(202, 3) == Pad(20, 2) + "2" == "202";
    assert Pad(2024, 4) == Pad(202, 3) + "4" == "2024";
    assert Pad(2, 2) == Pad(0, 1) + "2" == "02";
    assert Pad(29, 2) == Pad(2, 1) + "9" == "29";
  }

  lemma DateTextSample()
    ensures DateText(638_447_616_000_000_000) == "2024-02-29"
  {
    DateOfLeapDay();
    PadSamples();
    assert "2024" + "-" + "02" + "-" + "29" == "2024-02-29";
  }
}
