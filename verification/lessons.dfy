/** `countLessons`: how many lessons today has, and how many of them have
    not yet ended. */
module Lessons {
  import opened Clock
  import opened Timetable
  import opened Resolver

  datatype LessonCount = LessonCount(total: nat, remaining: nat)

  /** The slots among the first `n` whose cell in row `d` names a subject. */
  function TaughtBefore(week: Week, d: nat, n: nat): set<nat>
    requires d < |week|
  {
    set i: nat | i < n && Cell(week, d, i) != ""
  }

  /** Of those, the ones that end after `now`. */
  function PendingBefore(week: Week, d: nat, now: nat, n: nat): set<nat>
    requires d < |week| && n <= |SlotTimes|
  {
    set i: nat | i < n && Cell(week, d, i) != "" && now < SlotTimes[i].end * 60
  }

  /** Today's lessons: every slot with a subject. */
  function Taught(week: Week, d: nat): set<nat>
    requires d < |week|
  {
    TaughtBefore(week, d, |SlotTimes|)
  }

  /** Today's lessons that are still running or yet to come. */
  function Pending(week: Week, d: nat, now: nat): set<nat>
    requires d < |week|
  {
    PendingBefore(week, d, now, |SlotTimes|)
  }

  /** `countLessons`: zero on the weekend; otherwise the slots of the day
      that carry a subject, and those of them that end after `now`. */
  method CountLessons(week: Week, d: DayIndex, now: nat) returns (c: LessonCount)
    requires RowReadable(week, d)
    ensures IsWeekend(d) ==> c == LessonCount(0, 0)
    ensures !IsWeekend(d) ==> c.total == |Taught(week, d)| && c.remaining == |Pending(week, d, now)|
    ensures c.remaining <= c.total <= |SlotTimes|
  {
    if IsWeekend(d) {
      return LessonCount(0, 0);
    }
    var total, remaining := 0, 0;
    var i := 0;
    while i < |SlotTimes|
      invariant 0 <= i <= |SlotTimes|
      invariant total == |TaughtBefore(week, d, i)|
      invariant remaining == |PendingBefore(week, d, now, i)|
      invariant remaining <= total <= i
    {
      var code := Cell(week, d, i);
      CountStep(week, d, now, i);
      if code != "" {
        total := total + 1;
        if now < SlotTimes[i].end * 60 {
          remaining := remaining + 1;
        }
      }
      i := i + 1;
    }
    c := LessonCount(total, remaining);
  }

  /** How the two sets grow by one slot. */
  lemma CountStep(week: Week, d: nat, now: nat, i: nat)
    requires d < |week| && i < |SlotTimes|
    ensures Cell(week, d, i) == "" ==> TaughtBefore(week, d, i + 1) == TaughtBefore(week, d, i)
    ensures Cell(week, d, i) != "" ==>
      TaughtBefore(week, d, i + 1) == TaughtBefore(week, d, i) + {i} && i !in TaughtBefore(week, d, i)
    ensures Cell(week, d, i) == "" || now >= SlotTimes[i].end * 60 ==>
      PendingBefore(week, d, now, i + 1) == PendingBefore(week, d, now, i)
    ensures Cell(week, d, i) != "" && now < SlotTimes[i].end * 60 ==>
      PendingBefore(week, d, now, i + 1) == PendingBefore(week, d, now, i) + {i}
      && i !in PendingBefore(week, d, now, i)
  {
  }

  /** A subset is no larger than its superset. */
  lemma {:induction false} SubsetSmaller(a: set<nat>, b: set<nat>)
    requires a <= b
    ensures |a| <= |b|
    decreases b
  {
    if a != {} {
      var x :| x in a;
      SubsetSmaller(a - {x}, b - {x});
    }
  }

  /** As time passes, the number of remaining lessons never grows. */
  lemma RemainingNeverIncreases(week: Week, d: nat, t1: nat, t2: nat)
    requires d < |week| && t1 <= t2
    ensures Pending(week, d, t2) <= Pending(week, d, t1)
    ensures |Pending(week, d, t2)| <= |Pending(week, d, t1)|
  {
    SubsetSmaller(Pending(week, d, t2), Pending(week, d, t1));
  }

  /** Before the first slot every lesson is still to come; once the last
      slot is over none is. */
  lemma RemainingAtDayEdges(week: Week, d: nat, now: nat)
    requires d < |week|
    ensures now < DayStart ==> Pending(week, d, now) == Taught(week, d)
    ensures now >= DayEnd ==> Pending(week, d, now) == {}
  {
    SlotTimesChained();
    forall i | 0 <= i < |SlotTimes|
      ensures DayStart < SlotTimes[i].end * 60 <= DayEnd
    {
      EarliestAndLatest(SlotTimes, i);
    }
  }

  /** A lesson the resolver reports with a real subject is one of the
      lessons still counted as remaining. */
  lemma CurrentLessonRemains(week: Week, d: DayIndex, now: nat)
    requires !IsWeekend(d) && d < |week|
    ensures var r := FindCurrentSlot(week, d, now);
      r.Lesson? && Cell(week, d, r.slot) != "" ==> r.slot in Pending(week, d, now)
  {
  }
}
