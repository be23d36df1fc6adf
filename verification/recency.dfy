/** RFC3339Nano stamps, and whether ordering them as text orders them by time. */
module Recency {
  import opened Text
  import opened Decimal
  import opened Calendar

  predicate IsZero(c: char) {
    c == '0'
  }

  /** The fraction of a second: nothing for a whole second, else without trailing zeros. */
  function Fraction(nanosecond: nat): string {
    if nanosecond == 0 then "" else "." + TrimRight(IsZero, Pad(nanosecond, 9))
  }

  predicate InRange(t: int) {
    0 <= DateOf(DayOf(t)).year <= 9999
  }

  lemma FirstInstantInRange()
    ensures InRange(0)
  {
  }

  /** The clock's reading, in any of the years that a stamp has room for. */
  method ReadClock() returns (now: int)
    ensures InRange(now)
  {
    now := *;
    if !InRange(now) {
      FirstInstantInRange();
      now := 0;
    }
  }

  /** Year, month, day, hour, minute and second. */
  function Fields(t: int): seq<int> {
    var d := DateOf(DayOf(t));
    [d.year, d.month, d.day, HourOf(t), MinuteOf(t), SecondOf(t)]
  }

  const WIDTHS: seq<nat> := [4, 2, 2, 2, 2, 2]

  const MARKS: string := "--T::"

  /** Padded fields from the k-th on, each after its mark; the first has none. */
  function FieldsText(values: seq<int>, k: nat): string
    requires |values| == 6 && k <= 6 && forall i | k <= i < 6 :: values[i] >= 0
    decreases 6 - k
  {
    if k == 6 then ""
    else (if k == 0 then "" else [MARKS[k - 1]]) + Pad(values[k], WIDTHS[k]) + FieldsText(values, k + 1)
  }

  ghost predicate Fitting(values: seq<int>) {
    |values| == 6 && forall i | 0 <= i < 6 :: 0 <= values[i] < Pow10(WIDTHS[i])
  }

  lemma FieldsFit(t: int)
    requires InRange(t)
    ensures Fitting(Fields(t))
  {
    DateRoundTrip(DayOf(t));
    TimeOfDay(t);
    assert Pow10(2) == 100 && Pow10(4) == 10_000 by {
      assert Pow10(3) == 1000;
    }
  }

  /** t.UTC().Format(time.RFC3339Nano). */
  function Stamp(t: int): string
    requires InRange(t)
  {
    FieldsFit(t);
    TimeOfDay(t);
    FieldsText(Fields(t), 0) + Fraction(NanosecondOf(t)) + "Z"
  }

  lemma FieldsLayout(v: seq<int>)
    requires |v| == 6 && forall i | 0 <= i < 6 :: v[i] >= 0
    ensures FieldsText(v, 0) ==
            Pad(v[0], 4) + ("-" + Pad(v[1], 2) + ("-" + Pad(v[2], 2) +
            ("T" + Pad(v[3], 2) + (":" + Pad(v[4], 2) + (":" + Pad(v[5], 2))))))
  {
    hide Pad;
    assert FieldsText(v, 6) == "";
    assert FieldsText(v, 5) == ":" + Pad(v[5], 2);
    assert FieldsText(v, 4) == ":" + Pad(v[4], 2) + FieldsText(v, 5);
    assert FieldsText(v, 3) == "T" + Pad(v[3], 2) + FieldsText(v, 4);
    assert FieldsText(v, 2) == "-" + Pad(v[2], 2) + FieldsText(v, 3);
    assert FieldsText(v, 1) == "-" + Pad(v[1], 2) + FieldsText(v, 2);
  }

  /** A stamp reads year-month-dayThour:minute:second, each in its digits, then the fraction, then "Z". */
  lemma StampLayout(t: int)
    requires InRange(t)
    ensures var d := DateOf(DayOf(t));
            && 0 <= d.year <= 9999 && 1 <= d.month <= 12 && 1 <= d.day <= 31
            && 0 <= HourOf(t) < 24 && 0 <= MinuteOf(t) < 60 && 0 <= SecondOf(t) < 60 && 0 <= NanosecondOf(t) < SECOND
            && Stamp(t) == Pad(d.year, 4) + ("-" + Pad(d.month, 2) + ("-" + Pad(d.day, 2) + ("T" + Pad(HourOf(t), 2) +
                           (":" + Pad(MinuteOf(t), 2) + (":" + Pad(SecondOf(t), 2)))))) + Fraction(NanosecondOf(t)) + "Z"
  {
    DateRoundTrip(DayOf(t));
    TimeOfDay(t);
    FieldsLayout(Fields(t));
    hide DateOf, Pad, Fraction, HourOf, MinuteOf, SecondOf, NanosecondOf, FieldsText;
  }

  /** A fraction reads back as its nanoseconds, and is written without zeros at the end. */
  lemma FractionReadsBack(n: nat)
    requires 0 < n < SECOND
    ensures var s := Fraction(n);
            && 2 <= |s| <= 10 && s[0] == '.' && s[|s| - 1] != '0'
            && (forall i | 1 <= i < |s| :: IsDigit(s[i]))
            && DigitsValue(s[1..]) * Pow10(10 - |s|) == n
  {
    assert Pow10(9) == SECOND by { assert Pow10(5) == 100_000; }
    ParsePadded(n, 9);
    PadEndsInZeros(n, 9, 0);
    var p := Pad(n, 9);
    hide Pad, Pow10;
    var m := TrimRightDrops(IsZero, p);
    assert m > 0 && IsDigit(p[m - 1]) && !IsZero(p[m - 1]);
    DigitsBeforeZeros(p, m);
    var s := Fraction(n);
    assert s == "." + p[..m];
    hide TrimRight, Fraction, DigitsValue;
    assert s[1..] == p[..m] && s[|s| - 1] == p[m - 1];
  }

  lemma TimesTen(x: int, d: int)
    ensures x * (10 * d) == 10 * (x * d)
  {
  }

  lemma {:induction false} DigitsBeforeZeros(p: string, m: nat)
    requires m <= |p| && (forall k | 0 <= k < |p| :: IsDigit(p[k])) && ZerosFrom(p, m)
    ensures DigitsValue(p[..m]) * Pow10(|p| - m) == DigitsValue(p)
  {
    if m < |p| {
      var front := p[..|p| - 1];
      assert p[|p| - 1] == '0';
      DigitsBeforeZeros(front, m);
      assert front[..m] == p[..m];
      assert DigitsValue(p) == 10 * DigitsValue(front) && Pow10(|p| - m) == 10 * Pow10(|front| - m);
      hide DigitsValue, Pow10;
      TimesTen(DigitsValue(p[..m]), Pow10(|front| - m));
    } else {
      assert p[..m] == p;
    }
  }

  /* ---------- Comparing texts ---------- */

  lemma {:induction false} LessFromFirstDifference(a: string, b: string, k: nat)
    requires k < |a| && k < |b| && a[..k] == b[..k] && a[k] < b[k]
    ensures TextLess(a, b) && !TextLess(b, a)
  {
    if k > 0 {
      assert a[0] == a[..k][0] == b[..k][0] == b[0];
      assert a[1..][..k - 1] == a[..k][1..] == b[..k][1..] == b[1..][..k - 1];
      LessFromFirstDifference(a[1..], b[1..], k - 1);
    }
  }

  /** A common beginning does not matter. */
  lemma {:induction false} SameBeginning(x: string, u: string, v: string)
    ensures TextLess(x + u, x + v) <==> TextLess(u, v)
  {
    if x == "" {
      assert x + u == u && x + v == v;
    } else {
      assert (x + u)[1..] == x[1..] + u && (x + v)[1..] == x[1..] + v;
      SameBeginning(x[1..], u, v);
    }
  }

  /** Of two padded numbers, the smaller is the smaller text, whatever stands before and after. */
  lemma SmallerNumberSmallerText(mark: string, m: nat, n: nat, width: nat, u: string, v: string)
    requires m < n < Pow10(width)
    ensures TextLess(mark + Pad(m, width) + u, mark + Pad(n, width) + v)
  {
    var a, b := mark + Pad(m, width) + u, mark + Pad(n, width) + v;
    var d := PadOrder(m, n, width);
    hide TextLess, Pad, Pow10;
    assert a[..|mark| + d] == mark + Pad(m, width)[..d] == mark + Pad(n, width)[..d] == b[..|mark| + d];
    LessFromFirstDifference(a, b, |mark| + d);
  }

  /** Of two padded field lists, the one smaller where they first differ is the smaller text, whatever follows. */
  lemma {:induction false} SmallerFieldsSmallerText(x: seq<int>, y: seq<int>, k: nat, at: nat, u: string, v: string)
    requires Fitting(x) && Fitting(y) && k <= at < 6
    requires x[at] < y[at] && forall i | k <= i < at :: x[i] == y[i]
    ensures TextLess(FieldsText(x, k) + u, FieldsText(y, k) + v)
    decreases 6 - k
  {
    hide TextLess, Pad, Pow10;
    var mark := if k == 0 then "" else [MARKS[k - 1]];
    var restX, restY := FieldsText(x, k + 1) + u, FieldsText(y, k + 1) + v;
    assert FieldsText(x, k) + u == mark + Pad(x[k], WIDTHS[k]) + restX;
    assert FieldsText(y, k) + v == mark + Pad(y[k], WIDTHS[k]) + restY;
    if k < at {
      SmallerFieldsSmallerText(x, y, k + 1, at, u, v);
      SameBeginning(mark + Pad(x[k], WIDTHS[k]), restX, restY);
    } else {
      SmallerNumberSmallerText(mark, x[k], y[k], WIDTHS[k], restX, restY);
    }
  }

  /* ---------- Seconds ---------- */

  lemma SameSecondSameFields(a: int, b: int)
    requires a / SECOND == b / SECOND
    ensures Fields(a) == Fields(b)
  {
    hide DateOf;
    assert a == a / SECOND * SECOND + a % SECOND && b == b / SECOND * SECOND + b % SECOND;
    UnitsFromSeconds(a);
    UnitsFromSeconds(b);
  }

  lemma SecondsPerUnit(t: int, n: int, unit: int)
    requires (n, unit) in {(86400, DAY), (3600, HOUR), (60, MINUTE)}
    ensures t / unit == t / SECOND / n
    ensures t % unit == t / SECOND % n * SECOND + t % SECOND
  {
    var s := t / SECOND;
    assert t == s / n * unit + (s % n * SECOND + t % SECOND);
  }

  lemma UnitsFromSeconds(t: int)
    ensures var s := t / SECOND;
            DayOf(t) == s / 86400 && HourOf(t) == s % 86400 / 3600 && MinuteOf(t) == s % 3600 / 60 && SecondOf(t) == s % 60
  {
    SecondsPerUnit(t, 86400, DAY);
    SecondsPerUnit(t, 3600, HOUR);
    SecondsPerUnit(t, 60, MINUTE);
    SecondsPerUnit(t % DAY, 3600, HOUR);
    SecondsPerUnit(t % HOUR, 60, MINUTE);
  }

  /** Fields compare like the seconds they denote. */
  lemma EarlierSecondSmallerFields(a: int, b: int) returns (at: nat)
    requires a / SECOND < b / SECOND
    ensures at < 6 && Fields(a)[at] < Fields(b)[at] && forall i | 0 <= i < at :: Fields(a)[i] == Fields(b)[i]
  {
    UnitsFromSeconds(a);
    UnitsFromSeconds(b);
    if DayOf(a) != DayOf(b) {
      assert DayOf(a) < DayOf(b);
      at := EarlierDaySmallerFields(a, b);
    } else {
      at := EarlierClockSmallerFields(a, b);
    }
  }

  lemma EarlierDaySmallerFields(a: int, b: int) returns (at: nat)
    requires DayOf(a) < DayOf(b)
    ensures at < 3 && Fields(a)[at] < Fields(b)[at] && forall i | 0 <= i < at :: Fields(a)[i] == Fields(b)[i]
  {
    var c, d := DateOf(DayOf(a)), DateOf(DayOf(b));
    DateRoundTrip(DayOf(a));
    DateRoundTrip(DayOf(b));
    DayNumberOrder(c, d);
    hide DateOf, DayNumber, DayOf;
    at := if c.year != d.year then 0 else if c.month != d.month then 1 else 2;
  }

  lemma EarlierClockSmallerFields(a: int, b: int) returns (at: nat)
    requires a / SECOND < b / SECOND && DayOf(a) == DayOf(b)
    ensures at < 6 && Fields(a)[at] < Fields(b)[at] && forall i | 0 <= i < at :: Fields(a)[i] == Fields(b)[i]
  {
    UnitsFromSeconds(a);
    UnitsFromSeconds(b);
    hide DateOf, DayOf, HourOf, MinuteOf, SecondOf;
    at := if HourOf(a) != HourOf(b) then 3 else if MinuteOf(a) != MinuteOf(b) then 4 else 5;
    ClockOrder(a / SECOND, b / SECOND, at);
  }

  lemma SplitOrder(x: int, y: int, n: int)
    requires x < y && n in {86400, 3600, 60}
    ensures x / n < y / n || (x / n == y / n && x % n < y % n)
  {
  }

  lemma NestedSeconds(x: int, n: int, unit: int)
    requires (n, unit) in {(24, 3600), (60, 60)}
    ensures x % (n * unit) % unit == x % unit
  {
    assert x == (x / (n * unit) * n + x % (n * unit) / unit) * unit + x % (n * unit) % unit;
  }

  lemma ClockOrder(x: int, y: int, at: nat)
    requires x < y && x / 86400 == y / 86400
    requires at == if x % 86400 / 3600 != y % 86400 / 3600 then 3 else if x % 3600 / 60 != y % 3600 / 60 then 4 else 5
    ensures at == 3 ==> x % 86400 / 3600 < y % 86400 / 3600
    ensures at == 4 ==> x % 3600 / 60 < y % 3600 / 60
    ensures at == 5 ==> x % 60 < y % 60
  {
    SplitOrder(x, y, 86400);
    NestedSeconds(x, 24, 3600);
    NestedSeconds(y, 24, 3600);
    SplitOrder(x % 86400, y % 86400, 3600);
    if at > 3 {
      NestedSeconds(x, 60, 60);
      NestedSeconds(y, 60, 60);
      SplitOrder(x % 3600, y % 3600, 60);
    }
  }

  /* ---------- Fractions ---------- */

  /** Digits p[..m] and q[..n], which first differ at k, as fractions followed by "Z". */
  lemma FractionTextOrder(p: string, q: string, m: nat, n: nat, k: nat)
    requires m <= |p| == |q| && k < n <= |q| && p[..k] == q[..k] && p[k] < q[k]
    requires forall i | 0 <= i < |q| :: IsDigit(q[i])
    ensures var a, b := "." + p[..m] + "Z", "." + q[..n] + "Z";
            if k < m then TextLess(a, b) else TextLess(b, a)
  {
    var a, b := "." + p[..m] + "Z", "." + q[..n] + "Z";
    if k < m {
      assert a[..k + 1] == "." + p[..k] == "." + q[..k] == b[..k + 1];
      LessFromFirstDifference(a, b, k + 1);
    } else {
      assert p[..m] == p[..k][..m] == q[..k][..m] == q[..m];
      assert b[..m + 1] == "." + q[..m] == a[..m + 1];
      assert IsDigit(q[m]) && b[m + 1] == q[m] && a[m + 1] == 'Z';
      LessFromFirstDifference(b, a, m + 1);
    }
  }

  /** f and g, in nanoseconds, agree on the first k of nine digits, and f has only zeros after them. */
  predicate AgreeUpTo(f: nat, g: nat, k: nat)
    requires k <= 9
  {
    Pow10IsPositive(9 - k);
    f % Pow10(9 - k) == 0 && f / Pow10(9 - k) == g / Pow10(9 - k)
  }

  /** Where the digits of f end, m, and where they first differ from those of g, d, say whether they agree that way. */
  lemma AgreeBeforeDifference(f: nat, g: nat, m: nat, d: nat)
    requires f < Pow10(9) && g < Pow10(9) && m <= 9 && d < 9
    requires ZerosFrom(Pad(f, 9), m)
    requires m > 0 ==> Pad(f, 9)[m - 1] != '0'
    requires Pad(f, 9)[..d] == Pad(g, 9)[..d] && Pad(f, 9)[d] != Pad(g, 9)[d]
    ensures m <= d <==> exists k: nat :: k < 9 && AgreeUpTo(f, g, k)
  {
    hide Pad, Pow10;
    if m <= d {
      PadEndsInZeros(f, 9, d);
      PadsAgree(f, g, 9, d);
      assert AgreeUpTo(f, g, d);
    }
    forall k | d < k <= 9 ensures Pad(f, 9)[..k] != Pad(g, 9)[..k] {
      assert Pad(f, 9)[..k][d] != Pad(g, 9)[..k][d];
    }
    if k: nat :| k < 9 && AgreeUpTo(f, g, k) {
      PadEndsInZeros(f, 9, k);
      PadsAgree(f, g, 9, k);
    }
  }

  /** Within a second, the smaller fraction is the smaller text unless it is the beginning of the larger. */
  lemma FractionOrder(f: nat, g: nat)
    requires f < g < SECOND
    ensures var a, b := Fraction(f) + "Z", Fraction(g) + "Z";
            if exists k: nat :: k < 9 && AgreeUpTo(f, g, k) then TextLess(b, a) else TextLess(a, b)
  {
    assert Pow10(9) == SECOND by { assert Pow10(5) == 100_000; }
    var p, q := Pad(f, 9), Pad(g, 9);
    var d := PadOrder(f, g, 9);
    var m := TrimRightDrops(IsZero, p);
    var n := TrimRightDrops(IsZero, q);
    assert IsDigit(p[d]) && !IsZero(q[d]);
    AgreeBeforeDifference(f, g, m, d);
    hide Pad, TrimRight, TextLess, AgreeUpTo;
    assert Fraction(g) == "." + q[..n];
    if f == 0 {
      ZeroHasNoDigits(p, m);
      var b := Fraction(g) + "Z";
      assert b[..0] == "Z"[..0] && Fraction(f) + "Z" == "Z";
      LessFromFirstDifference(b, "Z", 0);
    } else {
      FractionTextOrder(p, q, m, n, d);
    }
  }

  lemma ZeroHasNoDigits(p: string, m: nat)
    requires p == Pad(0, 9) && m <= 9 && (m > 0 ==> !IsZero(p[m - 1]))
    ensures m == 0
  {
    PadEndsInZeros(0, 9, 0);
    hide Pad, Pow10;
  }

  /**
   a is earlier than b in the same second, and the digits of its fraction, without the zeros at the end, begin those of b:
   .1 and .12, say, or a whole second and anything later in it.
   */
  ghost predicate Misordered(a: int, b: int) {
    a < b && a / SECOND == b / SECOND && exists k: nat :: k < 9 && AgreeUpTo(a % SECOND, b % SECOND, k)
  }

  lemma StampParts(t: int)
    requires InRange(t)
    ensures Fitting(Fields(t)) && 0 <= NanosecondOf(t) < SECOND
    ensures Stamp(t) == FieldsText(Fields(t), 0) + (Fraction(NanosecondOf(t)) + "Z")
  {
    FieldsFit(t);
    hide DateOf, FieldsText, Fraction, Pow10, Fields;
  }

  lemma StampsOfOneSecond(a: int, b: int)
    requires a < b && a / SECOND == b / SECOND && InRange(a) && InRange(b)
    ensures if Misordered(a, b) then TextLess(Stamp(b), Stamp(a)) else TextLess(Stamp(a), Stamp(b))
  {
    StampParts(a);
    StampParts(b);
    SameSecondSameFields(a, b);
    assert NanosecondOf(a) < NanosecondOf(b);
    FractionOrder(NanosecondOf(a), NanosecondOf(b));
    hide InRange, TextLess, Fraction, Stamp, FieldsText, Fields, NanosecondOf;
    var head, u, v := FieldsText(Fields(a), 0), Fraction(NanosecondOf(a)) + "Z", Fraction(NanosecondOf(b)) + "Z";
    SameBeginning(head, u, v);
    SameBeginning(head, v, u);
  }

  lemma StampsOfTwoSeconds(a: int, b: int)
    requires a / SECOND < b / SECOND && InRange(a) && InRange(b)
    ensures TextLess(Stamp(a), Stamp(b))
  {
    hide InRange, TextLess, Fraction, Stamp, FieldsText, Fields, NanosecondOf;
    StampParts(a);
    StampParts(b);
    var at := EarlierSecondSmallerFields(a, b);
    SmallerFieldsSmallerText(Fields(a), Fields(b), 0, at, Fraction(NanosecondOf(a)) + "Z", Fraction(NanosecondOf(b)) + "Z");
  }

  /** Text order of stamps is time order except exactly for misordered instants, whose stamps are in the opposite order. */
  lemma StampsOrderLikeTime(a: int, b: int)
    requires a < b && InRange(a) && InRange(b)
    ensures TextLess(Stamp(a), Stamp(b)) <==> !Misordered(a, b)
    ensures TextLess(Stamp(b), Stamp(a)) <==> Misordered(a, b)
  {
    hide InRange, TextLess, Stamp, NanosecondOf, Fraction;
    TextOrderIsTotal(Stamp(a), Stamp(b));
    if a / SECOND == b / SECOND { StampsOfOneSecond(a, b); } else { StampsOfTwoSeconds(a, b); }
  }

  /** A row written on a whole second is taken for newer than any written later in that second. */
  lemma WholeSecondsAreMisordered(t: int, n: int)
    requires t % SECOND == 0 && 0 < n < SECOND
    ensures Misordered(t, t + n)
  {
    assert Pow10(9) == SECOND by { assert Pow10(5) == 100_000; }
    assert (t + n) % SECOND == n && t / SECOND == (t + n) / SECOND;
    assert AgreeUpTo(t % SECOND, (t + n) % SECOND, 0);
  }
}
