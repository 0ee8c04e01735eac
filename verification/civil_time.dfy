/**
 * A minimal model of the proleptic Gregorian calendar that Python's `datetime` uses, enough to
 * render the three `strftime` patterns the scheduler needs: "%Y%m%dT%H%M%S" (calendar stamps),
 * "%H:%M" (time-of-day options) and "%I:%M %p" (12-hour clock in conflict messages).
 *
 * A point in time is a number of whole minutes since 0001-01-01T00:00, so day number `d` is the
 * date whose Python ordinal is `d + 1`.
 */
module CivilTime {

  const MinutesPerDay: nat := 1440

  /** Number of days from 0001-01-01 up to and including 9999-12-31, the last day Python's
      `datetime` can represent. */
  const MaxDays: nat := 3652059

  /** The first minute that Python's `datetime` cannot represent. */
  const MaxMinute: nat := MaxDays * MinutesPerDay

  datatype Date = Date(year: int, month: int, day: int)

  predicate IsLeap(y: int) {
    y % 4 == 0 && (y % 100 != 0 || y % 400 == 0)
  }

  function DaysInYear(y: int): nat {
    if IsLeap(y) then 366 else 365
  }

  function DaysInMonth(y: int, m: int): nat {
    if m == 2 then (if IsLeap(y) then 29 else 28)
    else if m == 4 || m == 6 || m == 9 || m == 11 then 30
    else 31
  }

  predicate ValidDate(dt: Date) {
    1 <= dt.year <= 9999 && 1 <= dt.month <= 12 && 1 <= dt.day <= DaysInMonth(dt.year, dt.month)
  }

  /** Days from 0001-01-01 to January 1st of year `y` (zero for the years before the first). */
  function DaysBeforeYear(y: int): nat
    decreases y
  {
    if y <= 1 then 0 else DaysBeforeYear(y - 1) + DaysInYear(y - 1)
  }

  /** Days from January 1st of year `y` to the first day of month `m`. */
  function DaysBeforeMonth(y: int, m: int): nat
    requires 1 <= m <= 12
  {
    if m == 1 then 0 else DaysBeforeMonth(y, m - 1) + DaysInMonth(y, m - 1)
  }

  /** The day number of a date (its Python ordinal minus one). */
  function ToDayNumber(dt: Date): int
    requires 1 <= dt.month <= 12
  {
    DaysBeforeYear(dt.year) + DaysBeforeMonth(dt.year, dt.month) + dt.day - 1
  }

  lemma YearStep(y: int)
    requires 1 <= y
    ensures DaysBeforeYear(y + 1) == DaysBeforeYear(y) + DaysInYear(y)
  {
  }

  /** The closed form `datetime` counts the days before a year by: 365 days a year plus one for
      every fourth year, less the centuries, plus every fourth century. */
  function DaysBeforeYearFormula(y: int): int {
    var p := y - 1;
    365 * p + p / 4 - p / 100 + p / 400
  }

  lemma FormulaStep(y: int)
    ensures DaysBeforeYearFormula(y + 1) == DaysBeforeYearFormula(y) + DaysInYear(y)
  {
    var p := y - 1;
    assert (p + 1) / 4 == p / 4 + (if y % 4 == 0 then 1 else 0);
    assert (p + 1) / 100 == p / 100 + (if y % 100 == 0 then 1 else 0);
    assert (p + 1) / 400 == p / 400 + (if y % 400 == 0 then 1 else 0);
  }

  /** The count agrees with the closed form. */
  lemma {:induction false} DaysBeforeYearClosed(y: int)
    requires 1 <= y
    ensures DaysBeforeYear(y) == DaysBeforeYearFormula(y)
    decreases y
  {
    if y > 1 {
      DaysBeforeYearClosed(y - 1);
      FormulaStep(y - 1);
    }
  }

  lemma MonthStep(y: int, m: int)
    requires 1 <= m <= 12
    ensures m < 12 ==> DaysBeforeMonth(y, m + 1) == DaysBeforeMonth(y, m) + DaysInMonth(y, m)
    ensures m == 12 ==> DaysBeforeMonth(y, m) + DaysInMonth(y, m) == DaysInYear(y)
  {
    if m == 12 {
      YearLength(y);
    }
  }

  /** The twelve months fill the year. */
  lemma YearLength(y: int)
    ensures DaysBeforeMonth(y, 12) + DaysInMonth(y, 12) == DaysInYear(y)
  {
    var leap := if IsLeap(y) then 1 else 0;
    assert DaysBeforeMonth(y, 2) == 31;
    assert DaysBeforeMonth(y, 3) == 59 + leap;
    assert DaysBeforeMonth(y, 4) == 90 + leap;
    assert DaysBeforeMonth(y, 5) == 120 + leap;
    assert DaysBeforeMonth(y, 6) == 151 + leap;
    assert DaysBeforeMonth(y, 7) == 181 + leap;
    assert DaysBeforeMonth(y, 8) == 212 + leap;
    assert DaysBeforeMonth(y, 9) == 243 + leap;
    assert DaysBeforeMonth(y, 10) == 273 + leap;
    assert DaysBeforeMonth(y, 11) == 304 + leap;
  }

  lemma {:induction false} YearsIncrease(a: int, b: int)
    requires 1 <= a <= b
    ensures DaysBeforeYear(a) <= DaysBeforeYear(b)
    decreases b - a
  {
    if a < b {
      YearStep(b - 1);
      YearsIncrease(a, b - 1);
    }
  }

  /** The date of day `doy` (0-based) of year `y`, counting months from `m` on. */
  function MonthFrom(y: int, doy: int, m: int): (dt: Date)
    requires 1 <= m <= 12 && 0 <= doy < DaysInYear(y) - DaysBeforeMonth(y, m)
    ensures dt.year == y && m <= dt.month <= 12 && 1 <= dt.day <= DaysInMonth(y, dt.month)
    decreases 12 - m
  {
    MonthStep(y, m);
    if m == 12 || doy < DaysInMonth(y, m) then Date(y, m, doy + 1)
    else MonthFrom(y, doy - DaysInMonth(y, m), m + 1)
  }

  /** The date `d` days after January 1st of year `y`, counting years from `y` on. */
  function DateFrom(d: int, y: int): (dt: Date)
    requires 1 <= y && 0 <= d && DaysBeforeYear(y) + d < MaxDays
    ensures ValidDate(dt)
    decreases d
  {
    YearStep(y);
    if d < DaysInYear(y) then
      assert y < 10000 by {
        if y >= 10000 {
          DaysBeforeYearClosed(10000);
          YearsIncrease(10000, y);
        }
      }
      MonthFrom(y, d, 1)
    else DateFrom(d - DaysInYear(y), y + 1)
  }

  /** The calendar date of day number `d` (Python's `date.fromordinal(d + 1)`). */
  function FromDayNumber(d: nat): (dt: Date)
    requires d < MaxDays
    ensures ValidDate(dt)
  {
    DateFrom(d, 1)
  }

  lemma {:induction false} MonthFromCorrect(y: int, doy: int, m: int)
    requires 1 <= m <= 12 && 0 <= doy < DaysInYear(y) - DaysBeforeMonth(y, m)
    ensures var dt := MonthFrom(y, doy, m);
            DaysBeforeMonth(y, dt.month) + dt.day - 1 == DaysBeforeMonth(y, m) + doy
    decreases 12 - m
  {
    MonthStep(y, m);
    if !(m == 12 || doy < DaysInMonth(y, m)) {
      MonthFromCorrect(y, doy - DaysInMonth(y, m), m + 1);
    }
  }

  lemma {:induction false} DateFromCorrect(d: int, y: int)
    requires 1 <= y && 0 <= d && DaysBeforeYear(y) + d < MaxDays
    ensures ToDayNumber(DateFrom(d, y)) == DaysBeforeYear(y) + d
    decreases d
  {
    if d < DaysInYear(y) {
      assert DateFrom(d, y) == MonthFrom(y, d, 1);
      MonthFromCorrect(y, d, 1);
    } else {
      YearStep(y);
      assert DateFrom(d, y) == DateFrom(d - DaysInYear(y), y + 1);
      DateFromCorrect(d - DaysInYear(y), y + 1);
    }
  }

  /** Day numbers and dates correspond one to one: the date of a day number has that number. */
  lemma FromDayNumberCorrect(d: nat)
    requires d < MaxDays
    ensures ToDayNumber(FromDayNumber(d)) == d
  {
    DateFromCorrect(d, 1);
  }

  // ----- decimal fields -----

  function DigitChar(n: int): char
    requires 0 <= n < 10
  {
    ('0' as int + n) as char
  }

  predicate Digits(s: string) {
    forall k :: 0 <= k < |s| ==> '0' <= s[k] <= '9'
  }

  /** The decimal value of a string of digits (used to read rendered fields back). */
  function Number(s: string): int {
    if s == [] then 0 else 10 * Number(s[..|s| - 1]) + (s[|s| - 1] as int - '0' as int)
  }

  /** `n` as two zero-padded digits, as `strftime` renders %m, %d, %H, %I, %M and %S. */
  function Pad2(n: int): (s: string)
    requires 0 <= n < 100
    ensures |s| == 2
  {
    [DigitChar(n / 10), DigitChar(n % 10)]
  }

  lemma Pad2Value(n: int)
    requires 0 <= n < 100
    ensures Number(Pad2(n)) == n && Digits(Pad2(n))
  {
    var s := Pad2(n);
    assert s[..1] == [s[0]] && s[..1][..0] == [];
    assert Number(s[..1]) == n / 10;
  }

  /** `n` as four zero-padded digits, as `strftime` renders %Y. */
  function Pad4(n: int): (s: string)
    requires 0 <= n < 10000
    ensures |s| == 4
  {
    Pad2(n / 100) + Pad2(n % 100)
  }

  lemma Pad4Value(n: int)
    requires 0 <= n < 10000
    ensures Number(Pad4(n)) == n && Digits(Pad4(n))
  {
    var hi, lo := Pad2(n / 100), Pad2(n % 100);
    Pad2Value(n / 100);
    Pad2Value(n % 100);
    var s := hi + lo;
    assert s[..3] == hi + [lo[0]] && s[..2] == hi;
    assert (hi + [lo[0]])[..2] == hi;
    assert lo[..1] == [lo[0]] && lo[..1][..0] == [];
  }

  // ----- rendered forms -----

  /** "%Y%m%dT%H%M%S" of minute `t`; the seconds are always zero in this model. */
  function Stamp(t: int): (s: string)
    requires 0 <= t < MaxMinute
    ensures |s| == 15 && s[8] == 'T'
  {
    var dt := FromDayNumber(t / MinutesPerDay);
    var m := t % MinutesPerDay;
    Pad4(dt.year) + Pad2(dt.month) + Pad2(dt.day) + "T" + Pad2(m / 60) + Pad2(m % 60) + "00"
  }

  /** Reads a stamp back as a minute count (-1 when the month field is out of range). */
  function ParseStamp(s: string): int
    requires |s| == 15
  {
    var month := Number(s[4..6]);
    if 1 <= month <= 12 then
      ToDayNumber(Date(Number(s[..4]), month, Number(s[6..8]))) * MinutesPerDay
        + Number(s[9..11]) * 60 + Number(s[11..13])
    else -1
  }

  /** A stamp is digits around the 'T' and reads back as the minute it renders. */
  lemma StampReadsBack(t: int)
    requires 0 <= t < MaxMinute
    ensures Digits(Stamp(t)[..8]) && Digits(Stamp(t)[9..])
    ensures ParseStamp(Stamp(t)) == t
  {
    var dt := FromDayNumber(t / MinutesPerDay);
    var m := t % MinutesPerDay;
    var year, month, day := Pad4(dt.year), Pad2(dt.month), Pad2(dt.day);
    var hour, minute := Pad2(m / 60), Pad2(m % 60);
    var s := Stamp(t);
    assert s == year + month + day + "T" + hour + minute + "00";
    Pad4Value(dt.year);
    Pad2Value(dt.month);
    Pad2Value(dt.day);
    Pad2Value(m / 60);
    Pad2Value(m % 60);
    assert Digits(s[..8]) && Digits(s[9..]) by {
      StampFields(year, month, day, hour, minute);
      DigitsConcat(year, month, day);
      DigitsConcat(hour, minute, "00");
    }
    assert ParseStamp(s) == t by {
      FromDayNumberCorrect(t / MinutesPerDay);
      ParseFields(year, month, day, hour, minute, dt, m);
    }
  }

  /** A stamp assembled from fields that read back as a date and a minute of the day reads back
      as that minute of that date. */
  lemma ParseFields(year: string, month: string, day: string, hour: string, minute: string, dt: Date, m: int)
    requires |year| == 4 && |month| == 2 && |day| == 2 && |hour| == 2 && |minute| == 2
    requires 1 <= dt.month <= 12 && 0 <= m < MinutesPerDay
    requires Number(year) == dt.year && Number(month) == dt.month && Number(day) == dt.day
    requires Number(hour) == m / 60 && Number(minute) == m % 60
    ensures ParseStamp(year + month + day + "T" + hour + minute + "00") == ToDayNumber(dt) * MinutesPerDay + m
  {
    StampFields(year, month, day, hour, minute);
  }

  lemma DigitsConcat(a: string, b: string, c: string)
    requires Digits(a) && Digits(b) && Digits(c)
    ensures Digits(a + b + c)
  {
  }

  /** Where the fields of a stamp sit. */
  lemma StampFields(year: string, month: string, day: string, hour: string, minute: string)
    requires |year| == 4 && |month| == 2 && |day| == 2 && |hour| == 2 && |minute| == 2
    ensures var s := year + month + day + "T" + hour + minute + "00";
            && s[..4] == year && s[4..6] == month && s[6..8] == day
            && s[9..11] == hour && s[11..13] == minute
            && s[..8] == year + month + day && s[9..] == hour + minute + "00"
  {
  }

  /** "%H:%M" of minute-of-day `m`. */
  function Clock24(m: int): (s: string)
    requires 0 <= m < MinutesPerDay
    ensures |s| == 5 && s[2] == ':'
  {
    Pad2(m / 60) + ":" + Pad2(m % 60)
  }

  function ParseClock24(s: string): int
    requires |s| == 5
  {
    Number(s[..2]) * 60 + Number(s[3..5])
  }

  lemma Clock24ReadsBack(m: int)
    requires 0 <= m < MinutesPerDay
    ensures ParseClock24(Clock24(m)) == m
  {
    var hour, minute := Pad2(m / 60), Pad2(m % 60);
    Pad2Value(m / 60);
    Pad2Value(m % 60);
    var s := Clock24(m);
    assert s[..2] == hour && s[3..5] == minute;
  }

  /** "%I:%M %p" of minute-of-day `m`: a 12-hour clock whose hour runs 12, 01, ..., 11. */
  function Clock12(m: int): (s: string)
    requires 0 <= m < MinutesPerDay
    ensures |s| == 8 && s[2] == ':' && s[5] == ' ' && s[7] == 'M'
    ensures s[6] == (if m < 720 then 'A' else 'P')
  {
    var h := m / 60;
    var h12 := if h % 12 == 0 then 12 else h % 12;
    Pad2(h12) + ":" + Pad2(m % 60) + " " + (if h < 12 then "AM" else "PM")
  }

  function ParseClock12(s: string): int
    requires |s| == 8
  {
    (Number(s[..2]) % 12 + (if s[6] == 'P' then 12 else 0)) * 60 + Number(s[3..5])
  }

  /** The hour of the 12-hour clock lies in 1..12, and the rendering reads back as `m`. */
  lemma Clock12ReadsBack(m: int)
    requires 0 <= m < MinutesPerDay
    ensures 1 <= Number(Clock12(m)[..2]) <= 12
    ensures ParseClock12(Clock12(m)) == m
  {
    var h := m / 60;
    var h12 := if h % 12 == 0 then 12 else h % 12;
    assert h12 % 12 + (if h < 12 then 0 else 12) == h;
    assert m == h * 60 + m % 60;
    var hour := Pad2(h12);
    var minute := Pad2(m % 60);
    Pad2Value(h12);
    Pad2Value(m % 60);
    var s := Clock12(m);
    assert s[..2] == hour && s[3..5] == minute;
  }
}
