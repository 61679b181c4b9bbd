/** `findCurrentSlot`: what is happening at school at a given instant. */
module Resolver {
  import opened Clock
  import opened Timetable

  /** The state the dashboard shows; times are seconds since midnight. */
  datatype SlotState =
    | Weekend
    | Lesson(slot: nat, start: nat, end: nat, subject: string)
    | Break(after: nat, end: nat, nextSubject: string)
    | None

  /** `now` lies in the break after slot `i`: `end_i <= now < start_{i+1}`. */
  predicate InGap(slots: seq<Slot>, i: nat, now: nat)
    requires i + 1 < |slots|
  {
    slots[i].end * 60 <= now < slots[i + 1].start * 60
  }

  /** The lesson loop: the first slot at or after `i` that contains `now`,
      or `|slots|` when the loop runs out. */
  function FirstLesson(slots: seq<Slot>, now: nat, i: nat): (r: nat)
    requires i <= |slots|
    ensures i <= r <= |slots|
    ensures r < |slots| ==> slots[r].Contains(now)
    ensures forall j :: i <= j < r ==> !slots[j].Contains(now)
    decreases |slots| - i
  {
    if i == |slots| then i
    else if slots[i].Contains(now) then i
    else FirstLesson(slots, now, i + 1)
  }

  /** The break loop: the first gap at or after `i` that contains `now`;
      a result with no following slot means the loop ran out. */
  function FirstBreak(slots: seq<Slot>, now: nat, i: nat): (r: nat)
    ensures i <= r
    ensures r + 1 < |slots| ==> InGap(slots, r, now)
    ensures i < r ==> r < |slots|
    ensures forall j :: i <= j < r ==> !InGap(slots, j, now)
    ensures r + 1 >= |slots| ==> forall j :: i <= j && j + 1 < |slots| ==> !InGap(slots, j, now)
    decreases |slots| - i
  {
    if i + 1 >= |slots| then i
    else if InGap(slots, i, now) then i
    else FirstBreak(slots, now, i + 1)
  }

  /** The subject shown for a lesson: an empty cell is a free period. */
  function LessonSubject(code: string): (s: string)
    ensures s != ""
    ensures code != "" ==> s == code
    ensures code == "" ==> s == "frei"
  {
    if code != "" then code else "frei"
  }

  /** A weekday's row must exist; on the weekend the grid is not read. */
  predicate RowReadable(week: Week, d: DayIndex) {
    IsWeekend(d) || d < |week|
  }

  /** `findCurrentSlot`: on a weekday, the first slot that contains `now`
      is the lesson; failing that, the first gap that contains it is the
      break; otherwise nothing is on. */
  function FindCurrentSlot(week: Week, d: DayIndex, now: nat): (r: SlotState)
    requires RowReadable(week, d)
    ensures r.Weekend? <==> IsWeekend(d)
    ensures r.Lesson? <==> !IsWeekend(d) && exists i :: 0 <= i < |SlotTimes| && SlotTimes[i].Contains(now)
    ensures r.Lesson? ==>
      && r.slot < |SlotTimes| && SlotTimes[r.slot].Contains(now)
      && (forall j :: 0 <= j < r.slot ==> !SlotTimes[j].Contains(now))
      && r.start == SlotTimes[r.slot].start * 60 && r.end == SlotTimes[r.slot].end * 60
      && r.subject == LessonSubject(Cell(week, d, r.slot))
    ensures r.Break? ==>
      && r.after + 1 < |SlotTimes| && InGap(SlotTimes, r.after, now)
      && (forall j :: 0 <= j < r.after ==> !InGap(SlotTimes, j, now))
      && r.end == SlotTimes[r.after + 1].start * 60
      && r.nextSubject == Cell(week, d, r.after + 1)
    ensures r.None? ==>
      && !IsWeekend(d)
      && (forall i :: 0 <= i < |SlotTimes| ==> !SlotTimes[i].Contains(now))
      && (forall i :: 0 <= i && i + 1 < |SlotTimes| ==> !InGap(SlotTimes, i, now))
  {
    if IsWeekend(d) then Weekend
    else
      var i := FirstLesson(SlotTimes, now, 0);
      if i < |SlotTimes| then
        Lesson(i, SlotTimes[i].start * 60, SlotTimes[i].end * 60, LessonSubject(Cell(week, d, i)))
      else
        var j := FirstBreak(SlotTimes, now, 0);
        if j + 1 < |SlotTimes| then
          Break(j, SlotTimes[j + 1].start * 60, Cell(week, d, j + 1))
        else
          None
  }

  /** The first instant of the school day and the first instant after it. */
  const DayStart: nat := SlotTimes[0].start * 60
  const DayEnd: nat := SlotTimes[|SlotTimes| - 1].end * 60

  /** Because the slots are disjoint, a weekday instant is in lesson `i`
      exactly when slot `i` contains it. */
  lemma LessonExactly(week: Week, d: DayIndex, now: nat, i: nat)
    requires !IsWeekend(d) && d < |week| && i < |SlotTimes|
    ensures var r := FindCurrentSlot(week, d, now);
      r.Lesson? && r.slot == i <==> SlotTimes[i].Contains(now)
  {
    var r := FindCurrentSlot(week, d, now);
    SlotTimesChained();
    if SlotTimes[i].Contains(now) {
      SlotsDisjoint(SlotTimes, now, r.slot, i);
    }
  }

  /** A weekday instant is in the break after slot `i` exactly when it lies
      between the end of slot `i` and the start of slot `i + 1`. */
  lemma BreakExactly(week: Week, d: DayIndex, now: nat, i: nat)
    requires !IsWeekend(d) && d < |week| && i + 1 < |SlotTimes|
    ensures var r := FindCurrentSlot(week, d, now);
      r.Break? && r.after == i <==> InGap(SlotTimes, i, now)
  {
    var r := FindCurrentSlot(week, d, now);
    if InGap(SlotTimes, i, now) {
      SlotTimesChained();
      GapNotInSlot(SlotTimes, now, i);
      if r.Break? && r.after != i {
        GapsDisjoint(SlotTimes, now, r.after, i);
      }
    }
  }

  /** In a chained table an instant in a gap lies in no slot. */
  lemma GapNotInSlot(slots: seq<Slot>, now: nat, i: nat)
    requires Chained(slots) && i + 1 < |slots| && InGap(slots, i, now)
    ensures forall j :: 0 <= j < |slots| ==> !slots[j].Contains(now)
  {
    forall j | 0 <= j < |slots|
      ensures !slots[j].Contains(now)
    {
      if j < i {
        ChainedOrdered(slots, j, i);
      } else if j > i + 1 {
        ChainedOrdered(slots, i + 1, j);
      }
    }
  }

  /** In a chained table no instant lies in two gaps. */
  lemma GapsDisjoint(slots: seq<Slot>, now: nat, i: nat, j: nat)
    requires Chained(slots) && i + 1 < |slots| && j + 1 < |slots|
    requires InGap(slots, i, now) && InGap(slots, j, now)
    ensures i == j
  {
    if i + 1 < j {
      ChainedOrdered(slots, i + 1, j);
    } else if j + 1 < i {
      ChainedOrdered(slots, j + 1, i);
    }
  }

  /** From the first slot's start to the last slot's end, every instant is
      in some slot or in some gap of the first `n` slots. */
  lemma {:induction false} Covered(slots: seq<Slot>, now: nat, n: nat)
    requires Chained(slots) && 1 <= n <= |slots|
    requires slots[0].start * 60 <= now < slots[n - 1].end * 60
    ensures || (exists i :: 0 <= i < n && slots[i].Contains(now))
            || (exists i :: 0 <= i && i + 1 < n && InGap(slots, i, now))
  {
    if n > 1 {
      if now < slots[n - 2].end * 60 {
        Covered(slots, now, n - 1);
      } else if now < slots[n - 1].start * 60 {
        assert InGap(slots, n - 2, now);
      } else {
        assert slots[n - 1].Contains(now);
      }
    } else {
      assert slots[0].Contains(now);
    }
  }

  /** Lessons and breaks cover the school day: on a weekday nothing is on
      exactly before 07:30 and from 17:55. */
  lemma SchoolDayCovered(week: Week, d: DayIndex, now: nat)
    requires !IsWeekend(d) && d < |week|
    ensures DayStart == 27000 && DayEnd == 64500
    ensures FindCurrentSlot(week, d, now).None? <==> now < DayStart || now >= DayEnd
  {
    var r := FindCurrentSlot(week, d, now);
    SlotTimesChained();
    if DayStart <= now < DayEnd {
      Covered(SlotTimes, now, |SlotTimes|);
    } else {
      forall i | 0 <= i < |SlotTimes|
        ensures !SlotTimes[i].Contains(now)
      {
        EarliestAndLatest(SlotTimes, i);
      }
      forall i | 0 <= i && i + 1 < |SlotTimes|
        ensures !InGap(SlotTimes, i, now)
      {
        EarliestAndLatest(SlotTimes, i);
        EarliestAndLatest(SlotTimes, i + 1);
      }
    }
  }

  /** Every slot of a chained table lies within the first start and the
      last end. */
  lemma EarliestAndLatest(slots: seq<Slot>, i: nat)
    requires Chained(slots) && i < |slots|
    ensures slots[0].start <= slots[i].start && slots[i].end <= slots[|slots| - 1].end
  {
    if 0 < i {
      ChainedOrdered(slots, 0, i);
    }
    if i < |slots| - 1 {
      ChainedOrdered(slots, i, |slots| - 1);
    }
  }

  /** At a whole-second instant, the countdown of a lesson or a break is
      positive and short enough for the "MM:SS" timer: a lesson lasts 45
      minutes, the longest break 20. */
  lemma CountdownFits(week: Week, d: DayIndex, now: nat)
    requires RowReadable(week, d)
    ensures var r := FindCurrentSlot(week, d, now);
      && (r.Lesson? ==> 0 < r.end - now <= 2700)
      && (r.Break? ==> 0 < r.end - now <= 1200)
      && (r.Lesson? || r.Break? ==> |FormatTime(r.end - now)| == 5)
  {
  }

  /** Monday morning with the default week: slot 0 is empty, so the first
      lesson shows as "frei"; at 08:20, the instant the break ends, lesson 1
      runs. */
  lemma MondayMorning()
    ensures FindCurrentSlot(DefaultWeek, 0, 27900) == Lesson(0, 27000, 29700, "frei")
    ensures FindCurrentSlot(DefaultWeek, 0, 30000) == Lesson(1, 30000, 32700, "D")
  {
    LessonExactly(DefaultWeek, 0, 27900, 0);
    LessonExactly(DefaultWeek, 0, 30000, 1);
  }

  /** Monday with the default week: from 08:15 up to 08:20 the first break
      runs, announcing "D". */
  lemma MondayFirstBreak()
    ensures FindCurrentSlot(DefaultWeek, 0, 29700) == Break(0, 30000, "D")
    ensures FindCurrentSlot(DefaultWeek, 0, 29820) == Break(0, 30000, "D")
  {
    assert SlotTimes[1].start * 60 == 30000 && Cell(DefaultWeek, 0, 1) == "D";
    BreakExactly(DefaultWeek, 0, 29700, 0);
    var r1 := FindCurrentSlot(DefaultWeek, 0, 29700);
    assert r1.Break? && r1.after == 0;
    BreakExactly(DefaultWeek, 0, 29820, 0);
    var r2 := FindCurrentSlot(DefaultWeek, 0, 29820);
    assert r2.Break? && r2.after == 0;
  }

  /** Monday with the default week: nothing is on one second before 07:30,
      nor at 17:55. */
  lemma MondayOutsideSchool()
    ensures FindCurrentSlot(DefaultWeek, 0, 26999).None?
    ensures FindCurrentSlot(DefaultWeek, 0, 64500).None?
  {
    SchoolDayCovered(DefaultWeek, 0, 26999);
    SchoolDayCovered(DefaultWeek, 0, 64500);
  }
}
