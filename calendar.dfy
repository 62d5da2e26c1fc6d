/** The proleptic Gregorian calendar as Python's `datetime` and `calendar`
    modules compute it: days in a month, the ordinal day number
    (`toordinal()`, 0001-01-01 is day 1), `weekday()` (Monday is 0),
    stepping by whole days within 0001-01-01 .. 9999-12-31, and the
    `"%Y-%m-%d"` / `"%H:%M"` renderings the scheduler compares. */
module Calendar {
  import opened Text

  datatype Date = Date(year: int, month: int, day: int)

  predicate IsLeap(year: int) {
    year % 4 == 0 && (year % 100 != 0 || year % 400 == 0)
  }

  /** `calendar.monthrange(year, month)[1]`. */
  function DaysInMonth(year: int, month: int): (n: int)
    requires 1 <= month <= 12
    ensures 28 <= n <= 31
  {
    if month == 2 then (if IsLeap(year) then 29 else 28)
    else if month == 4 || month == 6 || month == 9 || month == 11 then 30
    else 31
  }

  function DaysInYear(year: int): int {
    if IsLeap(year) then 366 else 365
  }

  /** Days of `year` before the first of `month`. */
  function DaysBeforeMonth(year: int, month: int): int
    requires 1 <= month <= 12
  {
    var table := [0, 31, 59, 90, 120, 151, 181, 212, 243, 273, 304, 334];
    table[month - 1] + (if month > 2 && IsLeap(year) then 1 else 0)
  }

  /** Days before January 1st of `year`, counted from 0001-01-01. */
  function DaysBeforeYear(year: int): int
    requires year >= 1
  {
    var y := year - 1;
    y * 365 + y / 4 - y / 100 + y / 400
  }

  /** A date `datetime.date` accepts. */
  predicate ValidDate(d: Date) {
    1 <= d.year <= 9999 && 1 <= d.month <= 12 && 1 <= d.day <= DaysInMonth(d.year, d.month)
  }

  const MinDate := Date(1, 1, 1)
  const MaxDate := Date(9999, 12, 31)
  const MaxOrdinal := 3652059

  /** `date.toordinal()`. */
  function Ordinal(d: Date): (n: int)
    requires ValidDate(d)
    ensures 1 <= n <= MaxOrdinal
  {
    DaysBeforeYearBounds(d.year);
    DaysBeforeYear(d.year) + DaysBeforeMonth(d.year, d.month) + d.day
  }

  /** `date.weekday()`: 0 for Monday, 6 for Sunday. */
  function Weekday(d: Date): (w: int)
    requires ValidDate(d)
    ensures 0 <= w < 7
  {
    (Ordinal(d) + 6) % 7
  }

  /** The weekday as the residue of the ordinal, for callers that only
      know the ordinal as a number. */
  lemma WeekdayOfOrdinal(d: Date, o: int)
    requires ValidDate(d) && o == Ordinal(d)
    ensures Weekday(d) == (o + 6) % 7
  {
  }

  lemma DaysBeforeYearBounds(year: int)
    requires 1 <= year <= 9999
    ensures 0 <= DaysBeforeYear(year)
    ensures DaysBeforeYear(year) + DaysInYear(year) <= MaxOrdinal
  {
    if year < 9999 {
      DaysBeforeYearStep(year);
      DaysBeforeYearMonotone(year + 1, 9999);
    }
  }

  lemma DaysBeforeYearStep(year: int)
    requires year >= 1
    ensures DaysBeforeYear(year + 1) == DaysBeforeYear(year) + DaysInYear(year)
  {
    var y := year - 1;
    assert DaysBeforeYear(year) == y * 365 + y / 4 - y / 100 + y / 400;
    assert DaysBeforeYear(year + 1) == year * 365 + year / 4 - year / 100 + year / 400;
    QuotientStep4(year);
    QuotientStep100(year);
    QuotientStep400(year);
    LeapDivisors(year);
  }

  lemma LeapDivisors(n: int)
    ensures n % 400 == 0 ==> n % 100 == 0
    ensures n % 100 == 0 ==> n % 4 == 0
  {
    if n % 400 == 0 {
      var x := 4 * (n / 400);
      assert n == 100 * x;
      Multiple100(x);
    }
    if n % 100 == 0 {
      var x := 25 * (n / 100);
      assert n == 4 * x;
      Multiple4(x);
    }
  }

  lemma Multiple100(x: int)
    ensures (100 * x) % 100 == 0
  {
  }

  lemma Multiple4(x: int)
    ensures (4 * x) % 4 == 0
  {
  }

  lemma QuotientStep4(n: int)
    requires n >= 1
    ensures n / 4 == (n - 1) / 4 + (if n % 4 == 0 then 1 else 0)
  {
  }

  lemma QuotientStep100(n: int)
    requires n >= 1
    ensures n / 100 == (n - 1) / 100 + (if n % 100 == 0 then 1 else 0)
  {
  }

  lemma QuotientStep400(n: int)
    requires n >= 1
    ensures n / 400 == (n - 1) / 400 + (if n % 400 == 0 then 1 else 0)
  {
  }

  /** The first and the last day `datetime.date` can represent. */
  lemma OrdinalBounds()
    ensures ValidDate(MinDate) && Ordinal(MinDate) == 1
    ensures ValidDate(MaxDate) && Ordinal(MaxDate) == MaxOrdinal
  {
    assert Ordinal(MinDate) == DaysBeforeYear(1) + DaysBeforeMonth(1, 1) + 1;
    assert DaysBeforeYear(9999) == 3651694;
    assert DaysBeforeMonth(9999, 12) == 334;
    assert Ordinal(MaxDate) == DaysBeforeYear(9999) + DaysBeforeMonth(9999, 12) + 31;
  }

  lemma BeforeMaxDate(d: Date)
    requires ValidDate(d) && Ordinal(d) < MaxOrdinal
    ensures d != MaxDate
  {
    OrdinalBounds();
  }

  lemma AfterMinDate(d: Date)
    requires ValidDate(d) && Ordinal(d) > 1
    ensures d != MinDate
  {
    OrdinalBounds();
  }

  lemma {:induction false} DaysBeforeYearMonotone(a: int, b: int)
    requires 1 <= a <= b
    ensures DaysBeforeYear(a) + 365 * (b - a) <= DaysBeforeYear(b)
    decreases b - a
  {
    if a < b {
      DaysBeforeYearStep(a);
      DaysBeforeYearMonotone(a + 1, b);
    }
  }

  lemma DaysBeforeMonthStep(year: int, month: int)
    requires 1 <= month < 12
    ensures DaysBeforeMonth(year, month + 1) == DaysBeforeMonth(year, month) + DaysInMonth(year, month)
  {
  }

  /** A later month of the same year starts after the earlier one ends. */
  lemma DaysBeforeMonthMonotone(year: int, m1: int, m2: int)
    requires 1 <= m1 < m2 <= 12
    ensures DaysBeforeMonth(year, m1) + DaysInMonth(year, m1) <= DaysBeforeMonth(year, m2)
  {
  }

  /** The day after `d`. */
  function NextDay(d: Date): (r: Date)
    requires ValidDate(d) && d != MaxDate
    ensures ValidDate(r) && Ordinal(r) == Ordinal(d) + 1
  {
    if d.day < DaysInMonth(d.year, d.month) then Date(d.year, d.month, d.day + 1)
    else if d.month < 12 then
      DaysBeforeMonthStep(d.year, d.month);
      Date(d.year, d.month + 1, 1)
    else
      DaysBeforeYearStep(d.year);
      Date(d.year + 1, 1, 1)
  }

  /** The day before `d`. */
  function PrevDay(d: Date): (r: Date)
    requires ValidDate(d) && d != MinDate
    ensures ValidDate(r) && Ordinal(r) == Ordinal(d) - 1
  {
    if d.day > 1 then Date(d.year, d.month, d.day - 1)
    else if d.month > 1 then
      DaysBeforeMonthStep(d.year, d.month - 1);
      Date(d.year, d.month - 1, DaysInMonth(d.year, d.month - 1))
    else
      DaysBeforeYearStep(d.year - 1);
      Date(d.year - 1, 12, 31)
  }

  /** `d + timedelta(days=k)`, defined where the result is still a date. */
  function AddDays(d: Date, k: nat): (r: Date)
    requires ValidDate(d) && Ordinal(d) + k <= MaxOrdinal
    ensures ValidDate(r) && Ordinal(r) == Ordinal(d) + k
    decreases k
  {
    if k == 0 then d
    else
      BeforeMaxDate(d);
      AddDays(NextDay(d), k - 1)
  }

  /** `d - timedelta(days=k)`, defined where the result is still a date. */
  function SubDays(d: Date, k: nat): (r: Date)
    requires ValidDate(d) && Ordinal(d) - k >= 1
    ensures ValidDate(r) && Ordinal(r) == Ordinal(d) - k
    decreases k
  {
    if k == 0 then d
    else
      AfterMinDate(d);
      SubDays(PrevDay(d), k - 1)
  }

  /** Every position a valid date can take is counted once: the ordinal
      numbering is one-to-one. */
  lemma OrdinalInjective(a: Date, b: Date)
    requires ValidDate(a) && ValidDate(b)
    ensures Ordinal(a) == Ordinal(b) <==> a == b
  {
    if a.year < b.year {
      OrdinalYearOrder(a, b);
    } else if b.year < a.year {
      OrdinalYearOrder(b, a);
    } else if a.month < b.month {
      OrdinalMonthOrder(a, b);
    } else if b.month < a.month {
      OrdinalMonthOrder(b, a);
    }
  }

  lemma OrdinalYearOrder(a: Date, b: Date)
    requires ValidDate(a) && ValidDate(b) && a.year < b.year
    ensures Ordinal(a) < Ordinal(b)
  {
    OrdinalWithinYear(a);
    DaysBeforeYearStep(a.year);
    DaysBeforeYearMonotone(a.year + 1, b.year);
  }

  lemma OrdinalMonthOrder(a: Date, b: Date)
    requires ValidDate(a) && ValidDate(b) && a.year == b.year && a.month < b.month
    ensures Ordinal(a) < Ordinal(b)
  {
    DaysBeforeMonthMonotone(a.year, a.month, b.month);
  }

  lemma OrdinalWithinYear(d: Date)
    requires ValidDate(d)
    ensures Ordinal(d) <= DaysBeforeYear(d.year) + DaysInYear(d.year)
  {
    if d.month < 12 {
      DaysBeforeMonthMonotone(d.year, d.month, 12);
    }
  }

  /** Weekdays advance with the days, modulo seven. */
  lemma AddDaysWeekday(d: Date, k: nat)
    requires ValidDate(d) && Ordinal(d) + k <= MaxOrdinal
    ensures Weekday(AddDays(d, k)) == (Weekday(d) + k) % 7
  {
    var o := Ordinal(d);
    assert o + 6 == 7 * ((o + 6) / 7) + Weekday(d);
    ShiftMod7((o + 6) / 7, Weekday(d) + k);
  }

  lemma ShiftMod7(q: int, x: int)
    ensures (7 * q + x) % 7 == x % 7
  {
  }

  /** The Monday that starts the week of `d`
      (`d - timedelta(days=d.weekday())`); it never falls before 0001-01-01. */
  function WeekStart(d: Date): (r: Date)
    requires ValidDate(d)
    ensures ValidDate(r)
    ensures Ordinal(d) - 6 <= Ordinal(r) <= Ordinal(d)
    ensures Ordinal(r) + Weekday(d) == Ordinal(d)
  {
    var o, w := Ordinal(d), Weekday(d);
    WeekdayOfOrdinal(d, o);
    MondayArithmetic(o, w);
    SubDays(d, w)
  }

  /** The week of any day starts on a Monday. */
  lemma WeekStartMonday(d: Date)
    requires ValidDate(d)
    ensures Weekday(WeekStart(d)) == 0
  {
    var o, w := Ordinal(d), Weekday(d);
    WeekdayOfOrdinal(d, o);
    MondayArithmetic(o, w);
    WeekdayOfOrdinal(WeekStart(d), o - w);
  }

  /** Stepping back `w` days from ordinal `o`, whose weekday is `w`, lands
      on a Monday no earlier than ordinal 1. */
  lemma MondayArithmetic(o: int, w: int)
    requires o >= 1 && w == (o + 6) % 7
    ensures w <= o - 1 && (o - w + 6) % 7 == 0
  {
    var q := (o + 6) / 7;
    assert o + 6 == 7 * q + w && q >= 1;
    ShiftMod7(q, 0);
  }

  /** `"%Y-%m-%d"`, and equally the f-string `f"{year}-{month:02d}-{day:02d}"`:
      the year without padding, month and day as two digits. */
  function DateKey(d: Date): string
    requires d.year >= 0 && d.month >= 0 && d.day >= 0
  {
    Decimal(d.year) + "-" + Pad2(d.month) + "-" + Pad2(d.day)
  }

  /** The key built from a `Gtk.Calendar` reading, whose month counts from 0:
      `f"{year}-{month+1:02d}-{day:02d}"`. It is the key of the date the
      calendar shows. */
  function CalendarKey(year: nat, month0: nat, day: nat): (k: string)
    ensures k == DateKey(Date(year, month0 + 1, day))
  {
    Decimal(year) + "-" + Pad2(month0 + 1) + "-" + Pad2(day)
  }

  /** The calendar widget's key names exactly the date it shows: it equals
      the `"%Y-%m-%d"` key of a valid date `e` iff `e` is that date. */
  lemma CalendarKeyNamesDate(year: nat, month0: nat, day: nat, e: Date)
    requires ValidDate(Date(year, month0 + 1, day)) && ValidDate(e)
    ensures CalendarKey(year, month0, day) == DateKey(e) <==> e == Date(year, month0 + 1, day)
  {
    DateKeyInjective(Date(year, month0 + 1, day), e);
  }

  /** Two valid dates have the same key exactly when they are the same date,
      so the equality tests on keys are equality tests on dates. */
  lemma DateKeyInjective(a: Date, b: Date)
    requires ValidDate(a) && ValidDate(b)
    ensures DateKey(a) == DateKey(b) <==> a == b
  {
    if DateKey(a) == DateKey(b) {
      KeyParts(Decimal(a.year), Pad2(a.month), Pad2(a.day), Decimal(b.year), Pad2(b.month), Pad2(b.day));
      DecimalInjective(a.year, b.year);
      Pad2Injective(a.month, b.month);
      Pad2Injective(a.day, b.day);
    }
  }

  /** A `year-mm-dd` text splits back into its three parts. */
  lemma KeyParts(y1: string, m1: string, d1: string, y2: string, m2: string, d2: string)
    requires |m1| == 2 && |d1| == 2 && |m2| == 2 && |d2| == 2
    requires y1 + "-" + m1 + "-" + d1 == y2 + "-" + m2 + "-" + d2
    ensures y1 == y2 && m1 == m2 && d1 == d2
  {
    var k1, k2 := y1 + "-" + m1 + "-" + d1, y2 + "-" + m2 + "-" + d2;
    var n := |y1|;
    assert |y2| == n;
    assert k1[..n] == y1 && k2[..n] == y2;
    assert k1[n + 1..n + 3] == m1 && k2[n + 1..n + 3] == m2;
    assert k1[n + 4..] == d1 && k2[n + 4..] == d2;
  }

  /** `"%H:%M"`. */
  function TimeText(hour: nat, minute: nat): (t: string)
    requires hour < 24 && minute < 60
    ensures |t| == 5 && t[2] == ':'
  {
    Pad2(hour) + ":" + Pad2(minute)
  }

  /** The `"%H:%M"` rendering of a minute of the day (0 .. 1439). */
  function MinuteText(m: nat): (t: string)
    requires m < 1440
    ensures |t| == 5
  {
    TimeText(m / 60, m % 60)
  }

  /** Different minutes of the day are rendered differently. */
  lemma MinuteTextInjective(a: nat, b: nat)
    requires a < 1440 && b < 1440
    ensures MinuteText(a) == MinuteText(b) <==> a == b
  {
    if MinuteText(a) == MinuteText(b) {
      TimeTextInjective(a / 60, a % 60, b / 60, b % 60);
      SameDivMod60(a, b);
    }
  }

  /** An `"HH:MM"` text determines its hour and minute. */
  lemma TimeTextInjective(h1: nat, m1: nat, h2: nat, m2: nat)
    requires h1 < 24 && m1 < 60 && h2 < 24 && m2 < 60
    requires TimeText(h1, m1) == TimeText(h2, m2)
    ensures h1 == h2 && m1 == m2
  {
    var t1, t2 := TimeText(h1, m1), TimeText(h2, m2);
    assert t1[..2] == Pad2(h1) && t2[..2] == Pad2(h2);
    Pad2Injective(h1, h2);
    assert t1[3..] == Pad2(m1) && t2[3..] == Pad2(m2);
    Pad2Injective(m1, m2);
  }

  lemma SameDivMod60(a: nat, b: nat)
    requires a / 60 == b / 60 && a % 60 == b % 60
    ensures a == b
  {
    assert a == 60 * (a / 60) + a % 60 && b == 60 * (b / 60) + b % 60;
  }
}
