/** The constant tables of the dashboard: the twelve daily lesson slots,
    the default week grid, the subject-name dictionary, and the facts about
    the slot table that the resolver and the progress bars depend on. */
module Timetable {
  import opened Wrappers
  import opened Decimal
  import opened Clock

  /** A lesson slot, `start` and `end` in minutes since midnight. */
  datatype Slot = Slot(start: nat, end: nat) {
    /** The instants the slot covers, half-open: `start <= now < end`. */
    predicate Contains(now: nat) {
      start * 60 <= now < end * 60
    }
  }

  /** `slotTimes`, each "HH:MM" boundary as minutes since midnight. */
  const SlotTimes: seq<Slot> := [
    Slot(450, 495), Slot(500, 545), Slot(550, 595),
    Slot(615, 660), Slot(665, 710), Slot(720, 765),
    Slot(775, 820), Slot(825, 870), Slot(875, 920),
    Slot(930, 975), Slot(980, 1025), Slot(1030, 1075)
  ]

  /** A week grid: one row of subject codes per weekday, aligned with the
      slots; "" means no lesson in that slot. */
  type Row = seq<string>
  type Week = seq<Row>

  const DefaultWeek: Week := [
    ["", "D", "MA", "MA", "NT", "", "", "E", "G", "MI", "BS", ""],
    ["", "E", "F", "D", "D", "", "", "MA", "Gg", "D", "", ""],
    ["MA", "MA", "Gg", "NT", "NT", "", "", "", "", "", "", ""],
    ["D", "F", "F", "WAH", "WAH", "WAH", "WAH", "BS", "BS", "", "", ""],
    ["", "Mu", "MA", "BG", "BG", "", "", "E", "RKE", "RKE", "", ""]
  ]

  const SubjectNames: map<string, string> := map[
    "MA" := "Mathematik", "D" := "Deutsch", "E" := "Englisch", "F" := "Franz\U{00F6}sisch",
    "NT" := "Natur & Technik", "Gg" := "Geografie", "G" := "Geschichte",
    "BG" := "Gestalten", "Mu" := "Musik", "BS" := "Sport", "MI" := "Informatik",
    "WAH" := "WAH", "RKE" := "RKE"
  ]

  /** `week[d][i]` as the JavaScript reads it: a cell past the end of a
      short row is `undefined`, which every caller treats like "". A missing
      row is not covered: there the script throws. */
  function Cell(week: Week, d: nat, i: nat): (code: string)
    requires d < |week|
    ensures i < |week[d]| ==> code == week[d][i]
    ensures i >= |week[d]| ==> code == ""
  {
    if i < |week[d]| then week[d][i] else ""
  }

  /** `subjectNames[code] || code`: the label for a code, or the code itself
      when the dictionary has no entry (every entry is non-empty). */
  function DisplayName(code: string): (name: string)
    ensures code in SubjectNames ==> name == SubjectNames[code]
    ensures code !in SubjectNames ==> name == code
    ensures name == "" <==> code == ""
  {
    if code in SubjectNames && SubjectNames[code] != "" then SubjectNames[code] else code
  }

  /** Every subject of the default week has a label of its own. */
  lemma DefaultWeekLabelled(d: nat, i: nat)
    requires d < |DefaultWeek| && i < |DefaultWeek[d]| && DefaultWeek[d][i] != ""
    ensures DefaultWeek[d][i] in SubjectNames
  {
  }

  /** The default week is a full grid: five weekdays of one cell per slot. */
  lemma DefaultWeekShape()
    ensures |DefaultWeek| == 5
    ensures forall d :: 0 <= d < |DefaultWeek| ==> |DefaultWeek[d]| == |SlotTimes|
  {
  }

  /** Slots that are non-empty and strictly increasing, with a gap between
      neighbours. */
  ghost predicate Chained(slots: seq<Slot>) {
    && (forall i :: 0 <= i < |slots| ==> slots[i].start < slots[i].end)
    && (forall i :: 0 <= i < |slots| - 1 ==> slots[i].end < slots[i + 1].start)
  }

  lemma SlotTimesChained()
    ensures Chained(SlotTimes)
  {
  }

  /** In a chained table every slot ends before any later slot starts. */
  lemma {:induction false} ChainedOrdered(slots: seq<Slot>, i: nat, j: nat)
    requires Chained(slots) && i < j < |slots|
    ensures slots[i].end < slots[j].start
  {
    if i + 1 < j {
      ChainedOrdered(slots, i, j - 1);
    }
  }

  /** In a chained table no instant lies in two slots. */
  lemma SlotsDisjoint(slots: seq<Slot>, now: nat, i: nat, j: nat)
    requires Chained(slots) && i < |slots| && j < |slots|
    requires slots[i].Contains(now) && slots[j].Contains(now)
    ensures i == j
  {
    if i < j {
      ChainedOrdered(slots, i, j);
    } else if j < i {
      ChainedOrdered(slots, j, i);
    }
  }

  /** `slotTimes` holds "HH:MM" texts; each boundary of the table, written
      as its padded clock text, is read back by `toDateToday` as the same
      instant of the day. */
  lemma SlotTimesReadBack(i: nat)
    requires i < |SlotTimes|
    ensures var s := SlotTimes[i].start;
      |ClockText(s / 60, s % 60)| == 5 && ToDateToday(ClockText(s / 60, s % 60)) == Some(60 * s)
    ensures var e := SlotTimes[i].end;
      |ClockText(e / 60, e % 60)| == 5 && ToDateToday(ClockText(e / 60, e % 60)) == Some(60 * e)
  {
    var s, e := SlotTimes[i].start, SlotTimes[i].end;
    assert s < 1440 && e < 1440;
    MinuteOfDayReadBack(s);
    MinuteOfDayReadBack(e);
  }

  /** A minute of the day, written as its padded clock text, is read back
      by `toDateToday` as the same instant. */
  lemma MinuteOfDayReadBack(x: nat)
    requires x < 1440
    ensures |ClockText(x / 60, x % 60)| == 5
    ensures ToDateToday(ClockText(x / 60, x % 60)) == Some(60 * x)
  {
    var h, m := x / 60, x % 60;
    HourAndMinute(x);
    ClockTextLength(h, m);
    ToDateTodayOfClockText(h, m);
  }

  lemma HourAndMinute(x: nat)
    requires x < 1440
    ensures x / 60 < 24 && x % 60 < 60
    ensures 60 * x == 3600 * (x / 60) + 60 * (x % 60)
  {
  }

  lemma ClockTextLength(h: nat, m: nat)
    requires h < 100 && m < 100
    ensures |ClockText(h, m)| == 5
  {
    assert |Pad(h)| == 2 && |Pad(m)| == 2;
  }
}
