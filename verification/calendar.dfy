/**
 UTC instants and the proleptic Gregorian calendar of Go's time package.
 An instant is a number of nanoseconds since 0001-01-01T00:00:00Z, which is Go's zero time.
 */
module Calendar {
  const SECOND := 1_000_000_000
  const MINUTE := 60_000_000_000
  const HOUR := 3_600_000_000_000
  const DAY := 86_400_000_000_000

  datatype Date = Date(year: int, month: int, day: int)

  predicate IsLeap(y: int) {
    y % 4 == 0 && (y % 100 != 0 || y % 400 == 0)
  }

  /** Days from 0001-01-01 to the first day of year y. */
  function DaysBeforeYear(y: int): int {
    365 * (y - 1) + (y - 1) / 4 - (y - 1) / 100 + (y - 1) / 400
  }

  function MonthLength(y: int, m: int): int {
    if m == 2 then (if IsLeap(y) then 29 else 28)
    else if m == 4 || m == 6 || m == 9 || m == 11 then 30
    else 31
  }

  /** Days of year y before month m. */
  function DaysBeforeMonth(y: int, m: int): int
    requires 1 <= m <= 13
  {
    if m == 1 then 0 else DaysBeforeMonth(y, m - 1) + MonthLength(y, m - 1)
  }

  predicate ValidDate(d: Date) {
    1 <= d.month <= 12 && 1 <= d.day <= MonthLength(d.year, d.month)
  }

  /** The day count that time.Date computes for a valid date. */
  function DayNumber(d: Date): int
    requires ValidDate(d)
  {
    DaysBeforeYear(d.year) + DaysBeforeMonth(d.year, d.month) + d.day - 1
  }

  /** The year of a day count, by 400-, 100-, 4- and 1-year cycles. */
  function YearOf(n: int): int {
    var n400, d400 := n / 146097, n % 146097;
    var n100 := if d400 / 36524 == 4 then 3 else d400 / 36524;
    var d100 := d400 - 36524 * n100;
    var n4, d4 := d100 / 1461, d100 % 1461;
    var n1 := if d4 / 365 == 4 then 3 else d4 / 365;
    400 * n400 + 100 * n100 + 4 * n4 + n1 + 1
  }

  /** The month, m or later, that holds day number yday of year y. */
  function MonthFrom(y: int, yday: int, m: int): int
    requires 1 <= m <= 12
    decreases 12 - m
  {
    if m == 12 || yday < DaysBeforeMonth(y, m + 1) then m else MonthFrom(y, yday, m + 1)
  }

  /** Year, Month and Day of a day count. */
  function DateOf(n: int): Date {
    var y := YearOf(n);
    var yday := n - DaysBeforeYear(y);
    var m := MonthFrom(y, yday, 1);
    Date(y, m, yday - DaysBeforeMonth(y, m) + 1)
  }

  lemma MonthTable(y: int)
    ensures var l := if IsLeap(y) then 1 else 0;
            && DaysBeforeMonth(y, 1) == 0 && DaysBeforeMonth(y, 2) == 31 && DaysBeforeMonth(y, 3) == 59 + l
            && DaysBeforeMonth(y, 4) == 90 + l && DaysBeforeMonth(y, 5) == 120 + l && DaysBeforeMonth(y, 6) == 151 + l
            && DaysBeforeMonth(y, 7) == 181 + l && DaysBeforeMonth(y, 8) == 212 + l && DaysBeforeMonth(y, 9) == 243 + l
            && DaysBeforeMonth(y, 10) == 273 + l && DaysBeforeMonth(y, 11) == 304 + l && DaysBeforeMonth(y, 12) == 334 + l
            && DaysBeforeMonth(y, 13) == 365 + l
  {
    var l := if IsLeap(y) then 1 else 0;
    assert DaysBeforeMonth(y, 2) == 31;
    assert DaysBeforeMonth(y, 3) == 59 + l;
    assert DaysBeforeMonth(y, 4) == 90 + l;
    assert DaysBeforeMonth(y, 5) == 120 + l;
    assert DaysBeforeMonth(y, 6) == 151 + l;
    assert DaysBeforeMonth(y, 7) == 181 + l;
    assert DaysBeforeMonth(y, 8) == 212 + l;
    assert DaysBeforeMonth(y, 9) == 243 + l;
    assert DaysBeforeMonth(y, 10) == 273 + l;
    assert DaysBeforeMonth(y, 11) == 304 + l;
    assert DaysBeforeMonth(y, 12) == 334 + l;
  }

  lemma MultiplesPassed(y: int, n: int)
    requires n in {4, 100, 400}
    ensures y / n - (y - 1) / n == if y % n == 0 then 1 else 0
  {
  }

  lemma MultiplesOfMultiples(y: int)
    ensures y % 400 == 0 ==> y % 100 == 0
    ensures y % 100 == 0 ==> y % 4 == 0
  {
  }

  lemma YearSpan(y: int)
    ensures DaysBeforeYear(y + 1) - DaysBeforeYear(y) == if IsLeap(y) then 366 else 365
  {
    MultiplesPassed(y, 4);
    MultiplesPassed(y, 100);
    MultiplesPassed(y, 400);
    MultiplesOfMultiples(y);
  }

  lemma YearLength(y: int)
    ensures DaysBeforeYear(y + 1) - DaysBeforeYear(y) == DaysBeforeMonth(y, 13)
  {
    YearSpan(y);
    MonthTable(y);
  }

  lemma CycleQuotients(a: int, b: int, c: int, e: int)
    requires 0 <= b <= 3 && 0 <= c <= 24 && 0 <= e <= 3
    ensures var y := 400 * a + 100 * b + 4 * c + e;
            y / 4 == 100 * a + 25 * b + c && y / 100 == 4 * a + b && y / 400 == a
  {
  }

  lemma EndOfCycle(n: int, q: int, r: int)
    requires n in {4, 100, 400} && 0 < r <= n
    ensures (n * q + r) % n == 0 <==> r == n
  {
    assert r < n ==> (n * q + r) % n == r;
  }

  lemma LeapInCycles(a: int, b: int, c: int, e: int)
    requires 0 <= b <= 3 && 0 <= c <= 24 && 0 <= e <= 3
    ensures IsLeap(400 * a + 100 * b + 4 * c + e + 1) <==> e == 3 && (c < 24 || b == 3)
  {
    EndOfCycle(4, 100 * a + 25 * b + c, e + 1);
    EndOfCycle(100, 4 * a + b, 4 * c + e + 1);
    EndOfCycle(400, a, 100 * b + 4 * c + e + 1);
  }

  /** Year 400a + 100b + 4c + e + 1 within its cycles. */
  lemma YearInCycles(a: int, b: int, c: int, e: int)
    requires 0 <= b <= 3 && 0 <= c <= 24 && 0 <= e <= 3
    ensures var y := 400 * a + 100 * b + 4 * c + e;
            && DaysBeforeYear(y + 1) == 146097 * a + 36524 * b + 1461 * c + 365 * e
            && (IsLeap(y + 1) <==> e == 3 && (c < 24 || b == 3))
  {
    CycleQuotients(a, b, c, e);
    LeapInCycles(a, b, c, e);
    hide IsLeap;
  }

  /** Day d400 of a 400-year cycle: its century, its leap cycle, its year, and its place in the year. */
  lemma CyclesHoldDay(d400: int, b: int, c: int, e: int)
    requires 0 <= d400 < 146097
    requires b == (if d400 / 36524 == 4 then 3 else d400 / 36524)
    requires c == (d400 - 36524 * b) / 1461
    requires e == var d4 := (d400 - 36524 * b) % 1461; if d4 / 365 == 4 then 3 else d4 / 365
    ensures 0 <= b <= 3 && 0 <= c <= 24 && 0 <= e <= 3
    ensures var day := d400 - 36524 * b - 1461 * c - 365 * e;
            0 <= day < if e == 3 && (c < 24 || b == 3) then 366 else 365
  {
    var d100 := d400 - 36524 * b;
    assert 0 <= b <= 3 && 0 <= d100 <= (if b == 3 then 36524 else 36523);
    var d4 := d100 % 1461;
    assert d100 == 1461 * c + d4 && 0 <= c <= 24;
    assert c == 24 ==> d4 <= if b == 3 then 1460 else 1459;
  }

  lemma YearHoldsDay(n: int)
    ensures DaysBeforeYear(YearOf(n)) <= n < DaysBeforeYear(YearOf(n) + 1)
  {
    var a, d400 := n / 146097, n % 146097;
    var b := if d400 / 36524 == 4 then 3 else d400 / 36524;
    var c := (d400 - 36524 * b) / 1461;
    var d4 := (d400 - 36524 * b) % 1461;
    var e := if d4 / 365 == 4 then 3 else d4 / 365;
    CyclesHoldDay(d400, b, c, e);
    assert YearOf(n) == 400 * a + 100 * b + 4 * c + e + 1;
    hide DaysBeforeYear, IsLeap, YearOf;
    YearInCycles(a, b, c, e);
    YearSpan(400 * a + 100 * b + 4 * c + e + 1);
  }

  lemma {:induction false} MonthHoldsDay(y: int, yday: int, m: int)
    requires 1 <= m <= 12 && DaysBeforeMonth(y, m) <= yday < DaysBeforeMonth(y, 13)
    ensures var k := MonthFrom(y, yday, m);
            m <= k <= 12 && DaysBeforeMonth(y, k) <= yday < DaysBeforeMonth(y, k + 1)
    decreases 12 - m
  {
    if m < 12 && yday >= DaysBeforeMonth(y, m + 1) { MonthHoldsDay(y, yday, m + 1); }
  }

  /** Decomposing a day count into a date and recomposing it gives the day count back. */
  lemma DateRoundTrip(n: int)
    ensures ValidDate(DateOf(n)) && DayNumber(DateOf(n)) == n
  {
    var y := YearOf(n);
    YearHoldsDay(n);
    YearLength(y);
    MonthHoldsDay(y, n - DaysBeforeYear(y), 1);
  }

  lemma {:induction false} YearsAscend(x: int, y: int)
    requires x <= y
    ensures DaysBeforeYear(y) - DaysBeforeYear(x) >= 365 * (y - x)
    decreases y - x
  {
    if x < y {
      YearsAscend(x, y - 1);
      YearLength(y - 1);
      MonthTable(y - 1);
    }
  }

  lemma {:induction false} MonthsAscend(y: int, m: int, k: int)
    requires 1 <= m <= k <= 13
    ensures m < k ==> DaysBeforeMonth(y, m) + MonthLength(y, m) <= DaysBeforeMonth(y, k)
    decreases k - m
  {
    if m < k - 1 { MonthsAscend(y, m, k - 1); }
  }

  predicate DateBefore(a: Date, b: Date) {
    || a.year < b.year
    || (a.year == b.year && (a.month < b.month || (a.month == b.month && a.day < b.day)))
  }

  /** Day counts order dates as calendars do. */
  lemma DayNumberOrder(a: Date, b: Date)
    requires ValidDate(a) && ValidDate(b)
    ensures DateBefore(a, b) <==> DayNumber(a) < DayNumber(b)
  {
    if DateBefore(a, b) {
      EarlierDateEarlierDay(a, b);
    } else if a != b {
      EarlierDateEarlierDay(b, a);
    }
  }

  lemma EarlierDateEarlierDay(a: Date, b: Date)
    requires ValidDate(a) && ValidDate(b) && DateBefore(a, b)
    ensures DayNumber(a) < DayNumber(b)
  {
    MonthsAscend(a.year, a.month, 13);
    MonthsAscend(b.year, 1, b.month);
    if a.year < b.year {
      YearLength(a.year);
      YearsAscend(a.year + 1, b.year);
    } else {
      MonthsAscend(a.year, a.month, b.month);
    }
  }

  /** Composing a date into a day count and decomposing it gives the date back. */
  lemma DayNumberRoundTrip(d: Date)
    requires ValidDate(d)
    ensures DateOf(DayNumber(d)) == d
  {
    var e := DateOf(DayNumber(d));
    DateRoundTrip(DayNumber(d));
    DayNumberOrder(d, e);
    DayNumberOrder(e, d);
  }

  /* ---------- Instants ---------- */

  function DayOf(t: int): int { t / DAY }

  function HourOf(t: int): int { t % DAY / HOUR }

  function MinuteOf(t: int): int { t % HOUR / MINUTE }

  function SecondOf(t: int): int { t % MINUTE / SECOND }

  function NanosecondOf(t: int): int { t % SECOND }

  /** time.Date(year, month, day, hour, minute, second, nanosecond, time.UTC). */
  function Instant(d: Date, hour: int, minute: int, second: int, nanosecond: int): int
    requires ValidDate(d)
  {
    DayNumber(d) * DAY + hour * HOUR + minute * MINUTE + second * SECOND + nanosecond
  }

  /** The Unix epoch lies 719162 days after day 0. */
  lemma UnixEpoch()
    ensures DateOf(719162) == Date(1970, 1, 1) && Instant(Date(1970, 1, 1), 0, 0, 0, 0) == 62_135_596_800 * SECOND
  {
    DayNumberRoundTrip(Date(1970, 1, 1));
  }

  lemma NestedRemainder(t: int, n: nat, unit: int)
    requires (n, unit) in {(24, HOUR), (60, MINUTE), (60, SECOND)}
    ensures t % (n * unit) % unit == t % unit
  {
    var k := t / (n * unit) * n + t % (n * unit) / unit;
    assert t == k * unit + t % (n * unit) % unit;
  }

  /** The time of day, field by field. */
  lemma TimeOfDay(t: int)
    ensures t % DAY == HourOf(t) * HOUR + MinuteOf(t) * MINUTE + SecondOf(t) * SECOND + NanosecondOf(t)
    ensures 0 <= HourOf(t) < 24 && 0 <= MinuteOf(t) < 60 && 0 <= SecondOf(t) < 60 && 0 <= NanosecondOf(t) < SECOND
  {
    NestedRemainder(t, 24, HOUR);
    NestedRemainder(t, 60, MINUTE);
    NestedRemainder(t, 60, SECOND);
  }

  lemma ClockFieldsAreUnique(h: int, m: int, s: int, n: int, h': int, m': int)
    requires h * HOUR + m * MINUTE + s * SECOND + n == h' * HOUR + m' * MINUTE
    requires 0 <= m < 60 && 0 <= s < 60 && 0 <= n < SECOND && 0 <= m' < 60
    ensures h == h' && m == m' && s == 0 && n == 0
  {
  }

  lemma WholeDays(q: int, r: int)
    requires 0 <= r < DAY
    ensures (q * DAY + r) / DAY == q && (q * DAY + r) % DAY == r
  {
  }

  /** An instant is recomposed from its date and clock fields. */
  lemma InstantRoundTrip(t: int)
    ensures ValidDate(DateOf(DayOf(t)))
    ensures Instant(DateOf(DayOf(t)), HourOf(t), MinuteOf(t), SecondOf(t), NanosecondOf(t)) == t
  {
    DateRoundTrip(DayOf(t));
    TimeOfDay(t);
  }
}
