/** `calculateProgress`: how far through the school day and the school
    week an instant is, as whole percentages. */
module Progress {
  import opened Clock
  import opened Timetable
  import opened Resolver

  /** `Math.round(a / b)` for non-negative operands: the nearest integer,
      halves rounded up. */
  function RoundHalfUp(a: nat, b: nat): (r: nat)
    requires b > 0
    ensures 2 * b * r <= 2 * a + b < 2 * b * (r + 1)
  {
    var r := (2 * a + b) / (2 * b);
    DivBounds(2 * a + b, 2 * b);
    r
  }

  lemma DivBounds(x: nat, y: nat)
    requires y > 0
    ensures y * (x / y) <= x < y * (x / y + 1)
  {
  }

  /** The rounding is determined by its bounds. */
  lemma RoundUnique(a: nat, b: nat, r: nat)
    requires b > 0 && 2 * b * r <= 2 * a + b < 2 * b * (r + 1)
    ensures RoundHalfUp(a, b) == r
  {
    var q := RoundHalfUp(a, b);
    if q < r {
      MulMonotone(2 * b, q + 1, r);
    } else if r < q {
      MulMonotone(2 * b, r + 1, q);
    }
  }

  lemma MulMonotone(k: nat, x: nat, y: nat)
    requires x <= y
    ensures k * x <= k * y
  {
  }

  /** Rounding never decreases as the numerator grows. */
  lemma RoundMonotone(a1: nat, a2: nat, b: nat)
    requires b > 0 && a1 <= a2
    ensures RoundHalfUp(a1, b) <= RoundHalfUp(a2, b)
  {
    var r1, r2 := RoundHalfUp(a1, b), RoundHalfUp(a2, b);
    if r2 < r1 {
      MulMonotone(2 * b, r2 + 1, r1);
    }
  }

  /** A fraction of at most one rounds to at most the whole. */
  lemma RoundAtMost(a: nat, b: nat, k: nat)
    requires b > 0 && a <= k * b
    ensures RoundHalfUp(a, b) <= k
  {
    var r := RoundHalfUp(a, b);
    if k < r {
      MulMonotone(2 * b, k + 1, r);
    }
  }

  /** The length of the school day in seconds. */
  const DaySpan: nat := DayEnd - DayStart

  /** `calculateProgress('day')`: 0 before the first slot, 100 from the end
      of the last, and in between the elapsed share of the day rounded to a
      whole percent. On the weekend it is 0. */
  function DayProgress(d: DayIndex, now: nat): (p: nat)
    ensures p <= 100
    ensures IsWeekend(d) ==> p == 0
    ensures !IsWeekend(d) && now < DayStart ==> p == 0
    ensures !IsWeekend(d) && now >= DayEnd ==> p == 100
    ensures !IsWeekend(d) && DayStart <= now < DayEnd ==>
      2 * DaySpan * p <= 200 * (now - DayStart) + DaySpan < 2 * DaySpan * (p + 1)
  {
    if IsWeekend(d) then 0
    else if now < DayStart then 0
    else if now >= DayEnd then 100
    else
      RoundAtMost(100 * (now - DayStart), DaySpan, 100);
      RoundHalfUp(100 * (now - DayStart), DaySpan)
  }

  /** `calculateProgress('week')`: on a weekday, the days already finished
      plus the share of today, out of five; Saturday and Sunday count as a
      finished week. (The script's 0 for any other index cannot arise, since
      the index is always 0..6.) */
  function WeekProgress(d: DayIndex, now: nat): (p: nat)
    ensures p <= 100
    ensures IsWeekend(d) ==> p == 100
    ensures !IsWeekend(d) ==> 10 * p <= 2 * (100 * d + DayProgress(d, now)) + 5 < 10 * (p + 1)
    ensures !IsWeekend(d) ==> 20 * d <= p <= 20 * d + 20
  {
    if IsWeekend(d) then 100
    else
      var p := RoundHalfUp(100 * d + DayProgress(d, now), 5);
      RoundAtMost(100 * d + DayProgress(d, now), 5, 20 * d + 20);
      RoundUnique(100 * d, 5, 20 * d);
      RoundMonotone(100 * d, 100 * d + DayProgress(d, now), 5);
      p
  }

  /** Day progress never falls as the day goes on. */
  lemma {:induction false} DayProgressMonotone(d: DayIndex, t1: nat, t2: nat)
    requires t1 <= t2
    ensures DayProgress(d, t1) <= DayProgress(d, t2)
  {
    if !IsWeekend(d) && DayStart <= t1 && t2 < DayEnd {
      RoundMonotone(100 * (t1 - DayStart), 100 * (t2 - DayStart), DaySpan);
    }
  }

  /** Week progress never falls from Monday morning to Friday night. */
  lemma WeekProgressMonotone(d1: DayIndex, t1: nat, d2: DayIndex, t2: nat)
    requires !IsWeekend(d1) && !IsWeekend(d2)
    requires d1 < d2 || (d1 == d2 && t1 <= t2)
    ensures WeekProgress(d1, t1) <= WeekProgress(d2, t2)
  {
    if d1 == d2 {
      DayProgressMonotone(d1, t1, t2);
      RoundMonotone(100 * d1 + DayProgress(d1, t1), 100 * d2 + DayProgress(d2, t2), 5);
    }
  }

  /** The week is complete once Friday's last slot is over. */
  lemma WeekCompleteFridayEvening(now: nat)
    requires now >= DayEnd
    ensures WeekProgress(4, now) == 100
  {
  }

  /** The weekend rule: Saturday and Sunday show a full week and an empty
      day, whatever the time. */
  lemma WeekendProgress(d: DayIndex, now: nat)
    requires d == 5 || d == 6
    ensures WeekProgress(d, now) == 100 && DayProgress(d, now) == 0
  {
  }

  /** A Wednesday: 0% at 07:30, half the day at 12:42:30, all of it at
      17:55; the week moves from 40% through 50% to 60%. */
  lemma WednesdayProgress()
    ensures DayProgress(2, 27000) == 0 && WeekProgress(2, 27000) == 40
    ensures DayProgress(2, 45750) == 50 && WeekProgress(2, 45750) == 50
    ensures DayProgress(2, 64500) == 100 && WeekProgress(2, 64500) == 60
  {
    RoundUnique(0, DaySpan, 0);
    RoundUnique(100 * 18750, DaySpan, 50);
    RoundUnique(200, 5, 40);
    RoundUnique(250, 5, 50);
    RoundUnique(300, 5, 60);
  }

  /** Rounding, not the lesson, decides the bar: ninety seconds into the
      first lesson the day still shows 0%, and ninety seconds before the
      end of the last one it already shows 100%. */
  lemma BarAtLessonEdges()
    ensures FindCurrentSlot(DefaultWeek, 0, 27090).Lesson? && DayProgress(0, 27090) == 0
    ensures FindCurrentSlot(DefaultWeek, 0, 64410).Lesson? && DayProgress(0, 64410) == 100
  {
    LessonExactly(DefaultWeek, 0, 27090, 0);
    LessonExactly(DefaultWeek, 0, 64410, 11);
    RoundUnique(100 * 90, DaySpan, 0);
    RoundUnique(100 * 37410, DaySpan, 100);
  }
}
