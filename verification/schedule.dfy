/** Cron expressions and the daily slots they stand for. */
module Schedule {
  import opened Wrappers
  import opened Text
  import opened Decimal
  import opened Calendar

  datatype Schedule = Schedule(minute: int, hour: int)

  predicate ValidSchedule(s: Schedule) {
    0 <= s.minute <= 59 && 0 <= s.hour <= 23
  }

  function ParseField(value: string, min: int, max: int): Option<int> {
    if value == "*" then Some(min)
    else
      match Atoi(value)
      case None => None
      case Some(n) => if n < min || n > max then None else Some(n)
  }

  function ParseSchedule(expr: string): Option<Schedule> {
    var parts := Fields(expr);
    if |parts| < 2 then None
    else
      match (ParseField(parts[0], 0, 59), ParseField(parts[1], 0, 23))
      case (Some(minute), Some(hour)) => Some(Schedule(minute, hour))
      case _ => None
  }

  function NextTime(s: Schedule, now: int): int {
    var date := DateOf(DayOf(now));
    var next := (DateRoundTrip(DayOf(now)); Instant(date, s.hour, s.minute, 0, 0));
    if next > now then next else next + DAY
  }

  /** t is an instant at the schedule's hour and minute, on the dot. */
  ghost predicate IsSlot(s: Schedule, t: int) {
    HourOf(t) == s.hour && MinuteOf(t) == s.minute && SecondOf(t) == 0 && NanosecondOf(t) == 0
  }

  /** The schedule's time of day. */
  function Offset(s: Schedule): int {
    s.hour * HOUR + s.minute * MINUTE
  }

  /* ---------- Parsing ---------- */

  lemma ParsedScheduleIsValid(expr: string)
    ensures ParseSchedule(expr).Some? ==> ValidSchedule(ParseSchedule(expr).value)
  {
  }

  /** What a field stands for: a numeral for a number up to max, or a star for 0. */
  ghost predicate FieldReads(value: string, n: int, max: int) {
    (value == "*" && n == 0) || (value != "*" && 0 <= n <= max && IsNumeral(value, n))
  }

  /** A schedule is what the first two fields stand for, minute before hour; all other expressions are refused. */
  lemma ParsesExactly(expr: string, s: Schedule)
    ensures ParseSchedule(expr) == Some(s) <==>
            && |Fields(expr)| >= 2
            && FieldReads(Fields(expr)[0], s.minute, 59)
            && FieldReads(Fields(expr)[1], s.hour, 23)
  {
    hide Fields, Atoi, IsNumeral;
    if |Fields(expr)| >= 2 {
      AtoiExactly(Fields(expr)[0], s.minute);
      AtoiExactly(Fields(expr)[1], s.hour);
    }
  }

  /** Every time of day can be written, whatever fields follow; "*" means 0, not "every". */
  lemma EveryTimeOfDayParses(minute: int, hour: int, rest: seq<string>)
    requires ValidSchedule(Schedule(minute, hour))
    requires forall w | w in rest :: w != "" && All(NotSpace, w)
    ensures ParseSchedule(Join([FormatInt(minute), FormatInt(hour)] + rest, " ")) == Some(Schedule(minute, hour))
    ensures ParseSchedule(Join(["*", "*"] + rest, " ")) == Some(Schedule(0, 0))
  {
    ParseFormatted(minute);
    ParseFormatted(hour);
    var words, stars := [FormatInt(minute), FormatInt(hour)] + rest, ["*", "*"] + rest;
    assert FormatInt(minute) != "*" by { assert IsDigit(FormatInt(minute)[0]); }
    assert FormatInt(hour) != "*" by { assert IsDigit(FormatInt(hour)[0]); }
    forall w | w in words ensures w != "" && All(NotSpace, w) {
      assert w in rest || forall k | 0 <= k < |w| :: IsDigit(w[k]);
    }
    RunsOfJoin(NotSpace, words, " ");
    RunsOfJoin(NotSpace, stars, " ");
  }

  /* ---------- The next slot ---------- */

  /** Slots recur every 24 hours. */
  lemma SlotsAreDaily(s: Schedule, t: int)
    requires ValidSchedule(s)
    ensures IsSlot(s, t) <==> t % DAY == Offset(s)
  {
    TimeOfDay(t);
    if t % DAY == Offset(s) {
      ClockFieldsAreUnique(HourOf(t), MinuteOf(t), SecondOf(t), NanosecondOf(t), s.hour, s.minute);
    }
  }

  lemma NextIsTodayOrTomorrow(s: Schedule, now: int)
    ensures var today := DayOf(now) * DAY + Offset(s);
            NextTime(s, now) == if today > now then today else today + DAY
  {
    DateRoundTrip(DayOf(now));
  }

  lemma NextByRemainder(s: Schedule, now: int)
    requires ValidSchedule(s)
    ensures NextTime(s, now) % DAY == Offset(s) && now < NextTime(s, now) <= now + DAY
  {
    NextIsTodayOrTomorrow(s, now);
    assert 0 <= Offset(s) < DAY;
    assert DayOf(now) * DAY <= now < DayOf(now) * DAY + DAY;
    WholeDays(DayOf(now), Offset(s));
    WholeDays(DayOf(now) + 1, Offset(s));
  }

  /** Two instants at the same time of day, less than a day apart, are the same. */
  lemma SameTimeOfDay(a: int, b: int)
    requires a % DAY == b % DAY && a - DAY < b < a + DAY
    ensures a == b
  {
    assert a == a / DAY * DAY + a % DAY && b == b / DAY * DAY + b % DAY;
  }

  /** next(now) is the first slot strictly after now, and at most a day away. */
  lemma NextIsTheFirstSlotAfter(s: Schedule, now: int)
    requires ValidSchedule(s)
    ensures now < NextTime(s, now) <= now + DAY
    ensures IsSlot(s, NextTime(s, now))
    ensures forall t | now < t && IsSlot(s, t) :: NextTime(s, now) <= t
  {
    NextByRemainder(s, now);
    SlotsAreDaily(s, NextTime(s, now));
    forall t | now < t && IsSlot(s, t) ensures NextTime(s, now) <= t {
      SlotsAreDaily(s, t);
      if t < NextTime(s, now) { SameTimeOfDay(NextTime(s, now), t); }
    }
  }

  /** The next slot is the same from any two instants with no slot in between. */
  lemma NextIsUnchangedBetweenSlots(s: Schedule, a: int, b: int)
    requires ValidSchedule(s) && a <= b < NextTime(s, a)
    ensures NextTime(s, b) == NextTime(s, a)
  {
    NextIsTheFirstSlotAfter(s, a);
    NextIsTheFirstSlotAfter(s, b);
  }

  /* ---------- Counting slots ---------- */

  /** The slots in (a, b]. */
  ghost function Slots(s: Schedule, a: int, b: int): set<int> {
    set t | a < t <= b && IsSlot(s, t)
  }

  /** How many slots lie in (a, b]. */
  ghost function Elapsed(s: Schedule, a: int, b: int): nat {
    |Slots(s, a, b)|
  }

  lemma ElapsedAddsUp(s: Schedule, a: int, b: int, c: int)
    requires a <= b <= c
    ensures Elapsed(s, a, c) == Elapsed(s, a, b) + Elapsed(s, b, c)
  {
    assert Slots(s, a, c) == Slots(s, a, b) + Slots(s, b, c);
    assert Slots(s, a, b) !! Slots(s, b, c);
  }

  /** A slot lies in (a, b] exactly when the first slot after a does. */
  lemma SomeSlotElapsed(s: Schedule, a: int, b: int)
    requires ValidSchedule(s)
    ensures Elapsed(s, a, b) > 0 <==> NextTime(s, a) <= b
  {
    NextIsTheFirstSlotAfter(s, a);
    if NextTime(s, a) <= b {
      assert NextTime(s, a) in Slots(s, a, b);
    } else {
      assert Slots(s, a, b) == {};
    }
  }

  /** At most one slot fits into a gap of up to 24 hours. */
  lemma ShortGapHoldsOneSlot(s: Schedule, a: int, b: int)
    requires ValidSchedule(s) && b - a <= DAY
    ensures Elapsed(s, a, b) <= 1
  {
    NextIsTheFirstSlotAfter(s, a);
    forall t | t in Slots(s, a, b) ensures t == NextTime(s, a) {
      SlotsAreDaily(s, t);
      SlotsAreDaily(s, NextTime(s, a));
      SameTimeOfDay(NextTime(s, a), t);
    }
    assert Slots(s, a, b) <= {NextTime(s, a)};
    assert |Slots(s, a, b)| <= |{NextTime(s, a)}| by {
      assert {NextTime(s, a)} == Slots(s, a, b) + ({NextTime(s, a)} - Slots(s, a, b));
    }
  }

  /** Slots can be counted by whole days. */
  lemma {:induction false} ElapsedByDays(s: Schedule, a: int, b: int)
    requires ValidSchedule(s) && a <= b
    ensures Elapsed(s, a, b) == (b - Offset(s)) / DAY - (a - Offset(s)) / DAY
    decreases b - a
  {
    var n := NextTime(s, a);
    NextByRemainder(s, a);
    SomeSlotElapsed(s, a, b);
    var q := n / DAY;
    assert n == q * DAY + Offset(s);
    assert (a - Offset(s)) / DAY == q - 1;
    if n <= b {
      ElapsedAddsUp(s, a, n, b);
      ElapsedByDays(s, n, b);
      assert (n - Offset(s)) / DAY == q;
      assert Slots(s, a, n) == {n} by {
        NextIsTheFirstSlotAfter(s, a);
      }
    } else {
      assert (b - Offset(s)) / DAY == q - 1;
    }
  }
}
