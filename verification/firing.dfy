/** When one job fires, over a whole sequence of ticks. A tick is the clock reading it acts on. */
module Firing {
  import opened Calendar
  import opened Schedule

  /** What a tick at reading now does to a job's next time. The zero time stands for "never". */
  function Advance(s: Schedule, next: int, now: int): int {
    if next == 0 || next > now then next else NextTime(s, now)
  }

  function NextAfter(s: Schedule, next: int, ticks: seq<int>): int {
    if ticks == [] then next
    else Advance(s, NextAfter(s, next, ticks[..|ticks| - 1]), ticks[|ticks| - 1])
  }

  /** Tick i fires the job. */
  predicate FiresAt(s: Schedule, next: int, ticks: seq<int>, i: nat)
    requires i < |ticks|
  {
    var due := NextAfter(s, next, ticks[..i]);
    due != 0 && due <= ticks[i]
  }

  ghost function FireCount(s: Schedule, next: int, ticks: seq<int>): nat {
    if ticks == [] then 0
    else
      var n := |ticks| - 1;
      FireCount(s, next, ticks[..n]) + if FiresAt(s, next, ticks, n) then 1 else 0
  }

  /** The reading before tick i, or the one at load time. */
  function Before(t0: int, ticks: seq<int>, i: nat): int
    requires i <= |ticks|
  {
    if i == 0 then t0 else ticks[i - 1]
  }

  ghost predicate NonDecreasing(t0: int, ticks: seq<int>) {
    forall i | 0 <= i < |ticks| :: Before(t0, ticks, i) <= ticks[i]
  }

  /** Slots that a gap between readings holds beyond the one that can fire. */
  ghost function Missed(s: Schedule, t0: int, ticks: seq<int>): nat {
    if ticks == [] then 0
    else
      var n := |ticks| - 1;
      var elapsed := Elapsed(s, Before(t0, ticks, n), ticks[n]);
      Missed(s, t0, ticks[..n]) + if elapsed > 1 then elapsed - 1 else 0
  }

  /* ---------- A clock that does not go back ---------- */

  lemma PrefixOfTicks(t0: int, ticks: seq<int>)
    requires ticks != [] && NonDecreasing(t0, ticks)
    ensures NonDecreasing(t0, ticks[..|ticks| - 1])
    ensures Before(t0, ticks[..|ticks| - 1], |ticks| - 1) == Before(t0, ticks, |ticks| - 1)
  {
    var front := ticks[..|ticks| - 1];
    forall i | 0 <= i < |front| ensures Before(t0, front, i) <= front[i] {
      assert Before(t0, ticks, i) <= ticks[i];
    }
  }

  /** A loaded job always waits for the first slot after the last reading. */
  lemma {:induction false} WaitsForTheNextSlot(s: Schedule, t0: int, ticks: seq<int>)
    requires ValidSchedule(s) && 0 <= t0 && NonDecreasing(t0, ticks)
    ensures 0 <= t0 <= Before(t0, ticks, |ticks|)
    ensures NextAfter(s, NextTime(s, t0), ticks) == NextTime(s, Before(t0, ticks, |ticks|))
  {
    if ticks != [] {
      var n := |ticks| - 1;
      PrefixOfTicks(t0, ticks);
      WaitsForTheNextSlot(s, t0, ticks[..n]);
      assert Before(t0, ticks, n) <= ticks[n];
      var was := Before(t0, ticks, n);
      NextByRemainder(s, was);
      if NextTime(s, was) > ticks[n] { NextIsUnchangedBetweenSlots(s, was, ticks[n]); }
    }
  }

  lemma {:induction false} PrefixIsNonDecreasing(t0: int, ticks: seq<int>, i: nat)
    requires NonDecreasing(t0, ticks) && i <= |ticks|
    ensures NonDecreasing(t0, ticks[..i]) && Before(t0, ticks[..i], i) == Before(t0, ticks, i)
  {
    forall k | 0 <= k < i ensures Before(t0, ticks[..i], k) <= ticks[..i][k] {
      assert Before(t0, ticks, k) <= ticks[k];
    }
  }

  /** A tick fires the job exactly when a slot has passed since the reading before. */
  lemma FiresExactlyWhenASlotHasPassed(s: Schedule, t0: int, ticks: seq<int>, i: nat)
    requires ValidSchedule(s) && 0 <= t0 && NonDecreasing(t0, ticks) && i < |ticks|
    ensures FiresAt(s, NextTime(s, t0), ticks, i) <==>
            exists t :: Before(t0, ticks, i) < t <= ticks[i] && IsSlot(s, t)
  {
    var was := Before(t0, ticks, i);
    PrefixIsNonDecreasing(t0, ticks, i);
    WaitsForTheNextSlot(s, t0, ticks[..i]);
    NextIsTheFirstSlotAfter(s, was);
    SomeSlotElapsed(s, was, ticks[i]);
    if t :| was < t <= ticks[i] && IsSlot(s, t) { assert NextTime(s, was) <= t; }
  }

  /** Every slot between load time and the last tick fired its own tick or shared one: nothing else is lost. */
  lemma {:induction false} FiresPlusMissedIsElapsed(s: Schedule, t0: int, ticks: seq<int>)
    requires ValidSchedule(s) && 0 <= t0 && NonDecreasing(t0, ticks)
    ensures FireCount(s, NextTime(s, t0), ticks) + Missed(s, t0, ticks) == Elapsed(s, t0, Before(t0, ticks, |ticks|))
  {
    if ticks == [] {
      assert Slots(s, t0, t0) == {};
    } else {
      var n := |ticks| - 1;
      PrefixOfTicks(t0, ticks);
      FiresPlusMissedIsElapsed(s, t0, ticks[..n]);
      WaitsForTheNextSlot(s, t0, ticks[..n]);
      var was := Before(t0, ticks, n);
      assert was <= ticks[n];
      ElapsedAddsUp(s, t0, was, ticks[n]);
      SomeSlotElapsed(s, was, ticks[n]);
      NextByRemainder(s, was);
    }
  }

  /** With readings at most 24 hours apart, the job fires once for every slot. */
  lemma {:induction false} FiresOncePerSlot(s: Schedule, t0: int, ticks: seq<int>)
    requires ValidSchedule(s) && 0 <= t0 && NonDecreasing(t0, ticks)
    requires forall i | 0 <= i < |ticks| :: ticks[i] - Before(t0, ticks, i) <= DAY
    ensures FireCount(s, NextTime(s, t0), ticks) == Elapsed(s, t0, Before(t0, ticks, |ticks|))
  {
    FiresPlusMissedIsElapsed(s, t0, ticks);
    NothingMissed(s, t0, ticks);
  }

  lemma {:induction false} NothingMissed(s: Schedule, t0: int, ticks: seq<int>)
    requires ValidSchedule(s) && NonDecreasing(t0, ticks)
    requires forall i | 0 <= i < |ticks| :: ticks[i] - Before(t0, ticks, i) <= DAY
    ensures Missed(s, t0, ticks) == 0
  {
    if ticks != [] {
      var n := |ticks| - 1;
      PrefixOfTicks(t0, ticks);
      forall i | 0 <= i < n ensures ticks[..n][i] - Before(t0, ticks[..n], i) <= DAY {
        assert ticks[i] - Before(t0, ticks, i) <= DAY;
      }
      NothingMissed(s, t0, ticks[..n]);
      ShortGapHoldsOneSlot(s, Before(t0, ticks, n), ticks[n]);
    }
  }

  /* ---------- Any clock, even one set back ---------- */

  /** The next time stays on the schedule's time of day, and never moves back. */
  lemma {:induction false} NextStaysOnSlots(s: Schedule, next: int, ticks: seq<int>)
    requires ValidSchedule(s) && next % DAY == Offset(s)
    ensures NextAfter(s, next, ticks) % DAY == Offset(s) && next <= NextAfter(s, next, ticks)
  {
    if ticks != [] {
      NextStaysOnSlots(s, next, ticks[..|ticks| - 1]);
      NextByRemainder(s, ticks[|ticks| - 1]);
    }
  }

  lemma {:induction false} NextAfterSplits(s: Schedule, next: int, a: seq<int>, b: seq<int>)
    ensures NextAfter(s, next, a + b) == NextAfter(s, NextAfter(s, next, a), b)
  {
    if b == [] {
      assert a + b == a;
    } else {
      assert (a + b)[..|a + b| - 1] == a + b[..|b| - 1];
      NextAfterSplits(s, next, a, b[..|b| - 1]);
    }
  }

  /** Each fire moves the next time forward by a positive number of whole days. */
  lemma FireMovesNextByWholeDays(s: Schedule, next: int, ticks: seq<int>, i: nat)
    requires ValidSchedule(s) && next % DAY == Offset(s) && i < |ticks|
    ensures var (due, later) := (NextAfter(s, next, ticks[..i]), NextAfter(s, next, ticks[..i + 1]));
            if FiresAt(s, next, ticks, i) then due < later && (later - due) % DAY == 0 else later == due
  {
    assert ticks[..i + 1][..i] == ticks[..i];
    NextStaysOnSlots(s, next, ticks[..i]);
    NextByRemainder(s, ticks[i]);
    var due, later := NextAfter(s, next, ticks[..i]), NextTime(s, ticks[i]);
    WholeDays(later / DAY - due / DAY, 0);
  }

  /** Whatever the clock does, no slot fires twice. */
  lemma NoSlotFiresTwice(s: Schedule, next: int, ticks: seq<int>, i: nat, j: nat)
    requires ValidSchedule(s) && next % DAY == Offset(s) && i < j < |ticks|
    requires FiresAt(s, next, ticks, i) && FiresAt(s, next, ticks, j)
    ensures NextAfter(s, next, ticks[..i]) < NextAfter(s, next, ticks[..j])
  {
    FireMovesNextByWholeDays(s, next, ticks, i);
    hide NextTime, Advance, FiresAt;
    NextStaysOnSlots(s, next, ticks[..i + 1]);
    assert ticks[..j] == ticks[..i + 1] + ticks[i + 1..j];
    NextAfterSplits(s, next, ticks[..i + 1], ticks[i + 1..j]);
    NextStaysOnSlots(s, NextAfter(s, next, ticks[..i + 1]), ticks[i + 1..j]);
  }

  /** Only a midnight job loaded on the day before year 1 gets the zero time as its next time. */
  lemma WhenNextIsZero(s: Schedule, t0: int)
    requires ValidSchedule(s)
    ensures NextTime(s, t0) == 0 <==> Offset(s) == 0 && -DAY <= t0 < 0
  {
    NextByRemainder(s, t0);
    if Offset(s) == 0 && -DAY <= t0 < 0 {
      assert 0 % DAY == 0;
      SameTimeOfDay(0, NextTime(s, t0));
    }
  }

  /** A job whose next time is the zero time never fires. */
  lemma {:induction false} ZeroTimeNeverFires(s: Schedule, ticks: seq<int>)
    ensures NextAfter(s, 0, ticks) == 0 && FireCount(s, 0, ticks) == 0
  {
    if ticks != [] { ZeroTimeNeverFires(s, ticks[..|ticks| - 1]); }
  }
}
