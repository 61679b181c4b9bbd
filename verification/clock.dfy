/** Calendar and clock conventions of the dashboard: the Monday-first day
    index (`todayIndex`), reading an "HH:MM" string as a time of the current
    day (`toDateToday`) and the "MM:SS" countdown text (`formatTime`).
    Times are whole seconds since midnight. */
module Clock {
  import opened Wrappers
  import opened Decimal

  /** What `Date.prototype.getDay` returns: 0 = Sunday .. 6 = Saturday. */
  type Weekday = w: int | 0 <= w < 7

  /** The dashboard's day index: 0 = Monday .. 6 = Sunday. */
  type DayIndex = d: int | 0 <= d < 7

  const Sunday: Weekday := 0
  const Monday: Weekday := 1

  /** The resolver, the progress bars and the lesson count all treat an
      index outside Monday..Friday as weekend. */
  predicate IsWeekend(d: DayIndex) {
    d < 0 || d > 4
  }

  /** `todayIndex`: shifts the weekday so that the week starts on Monday. */
  function TodayIndex(w: Weekday): (d: DayIndex)
    ensures w == Sunday ==> d == 6
    ensures w != Sunday ==> d == w - 1
    ensures IsWeekend(d) <==> (w == 0 || w == 6)
  {
    (w + 6) % 7
  }

  /** The weekday a day index stands for: the inverse of `TodayIndex`. */
  function WeekdayOf(d: DayIndex): Weekday {
    (d + 1) % 7
  }

  /** The shift loses nothing: the two directions are mutually inverse. */
  lemma TodayIndexBijective(w: Weekday, d: DayIndex)
    ensures WeekdayOf(TodayIndex(w)) == w
    ensures TodayIndex(WeekdayOf(d)) == d
    ensures TodayIndex(w) == d <==> w == WeekdayOf(d)
  {
  }

  /** The position of the first ':' in `s`, if there is one. */
  function FirstColon(s: string): (r: Option<nat>)
    ensures r.Some? ==> r.value < |s| && s[r.value] == ':' && ':' !in s[..r.value]
    ensures r.None? ==> ':' !in s
  {
    if |s| == 0 then None
    else if s[0] == ':' then Some(0)
    else match FirstColon(s[1..])
      case None => None
      case Some(k) =>
        assert s[..k + 1] == [s[0]] + s[1..][..k];
        Some(k + 1)
  }

  /** `s.split(':')[0]`: the text before the first ':' (all of `s` if none). */
  function HeadField(s: string): (r: string)
    ensures ':' !in r && r <= s
    ensures ':' !in s ==> r == s
    ensures ':' in s ==> |r| < |s| && s[|r|] == ':'
  {
    match FirstColon(s)
    case None => s
    case Some(k) => s[..k]
  }

  /** `const [h, m] = s.split(':').map(Number)`: the first two
      colon-separated fields as numbers. A string without ':' leaves `m`
      undefined, and a field that is not a number is NaN; either way there
      is no valid pair. Fields after the second are ignored. */
  function ParseFields(s: string): (r: Option<(nat, nat)>)
    ensures r.Some? ==> ':' in s
  {
    match FirstColon(s)
    case None => None
    case Some(k) =>
      match (NumberOf(s[..k]), NumberOf(HeadField(s[k + 1..])))
      case (Some(h), Some(m)) => Some((h, m))
      case _ => None
  }

  /** `toDateToday(hm)`: the instant `hm` names on the current day, as
      seconds since midnight. `setHours` rolls hours >= 24 and minutes >= 60
      over into later instants, so on a day without a daylight-saving switch
      and for the small numbers a clock text holds, the offset is
      `3600 h + 60 m`; an unparseable string gives an Invalid Date, here
      `None`. */
  function ToDateToday(hm: string): (r: Option<nat>)
    ensures r.Some? <==> ParseFields(hm).Some?
    ensures r.Some? ==> r.value == 3600 * ParseFields(hm).value.0 + 60 * ParseFields(hm).value.1
  {
    match ParseFields(hm)
    case None => None
    case Some((h, m)) => Some(3600 * h + 60 * m)
  }

  /** `formatTime(sec)`: whole minutes and leftover seconds, each padded to
      two digits, joined by ':'. */
  function FormatTime(sec: nat): (r: string)
    ensures ParseFields(r) == Some((sec / 60, sec % 60))
    ensures sec < 6000 <==> |r| == 5
    ensures |r| == 5 ==> r[2] == ':' && AllDigits(r[..2]) && AllDigits(r[3..])
  {
    var r := Pad(sec / 60) + ":" + Pad(sec % 60);
    JoinedFields(sec / 60, sec % 60);
    r
  }

  /** Reading "MM:SS" back gives the seconds `formatTime` started from. */
  lemma FormatTimeRoundTrip(sec: nat)
    ensures ParseFields(FormatTime(sec)).Some?
    ensures var (m, s) := ParseFields(FormatTime(sec)).value; 60 * m + s == sec && s < 60
  {
  }

  /** Two padded numbers joined by ':' parse back to the pair. */
  lemma JoinedFields(a: nat, b: nat)
    ensures ParseFields(Pad(a) + ":" + Pad(b)) == Some((a, b))
  {
    var x, y := Pad(a), Pad(b);
    var s := x + ":" + y;
    DigitsBeforeColon(x, y);
    assert s[..|x|] == x;
    assert s[|x| + 1..] == y;
  }

  /** The first ':' after a run of digits is the one that ends the run. */
  lemma {:induction false} DigitsBeforeColon(x: string, y: string)
    requires AllDigits(x)
    ensures FirstColon(x + ":" + y) == Some(|x|)
  {
    if |x| > 0 {
      assert (x + ":" + y)[1..] == x[1..] + ":" + y;
      DigitsBeforeColon(x[1..], y);
    }
  }

  /** The clock text `toDateToday` reads: "HH:MM", padded like the
      timetable's literals. */
  function ClockText(h: nat, m: nat): string {
    Pad(h) + ":" + Pad(m)
  }

  /** `toDateToday` of a clock text is that hour and minute of the day. */
  lemma ToDateTodayOfClockText(h: nat, m: nat)
    ensures ToDateToday(ClockText(h, m)) == Some(3600 * h + 60 * m)
  {
    JoinedFields(h, m);
  }

  /** A five-character "HH:MM" text is read as its hour and minute. */
  lemma FiveCharClock(t: string)
    requires |t| == 5 && t[2] == ':'
    requires IsDigit(t[0]) && IsDigit(t[1]) && IsDigit(t[3]) && IsDigit(t[4])
    ensures ToDateToday(t)
      == Some(3600 * (10 * CharValue(t[0]) + CharValue(t[1])) + 60 * (10 * CharValue(t[3]) + CharValue(t[4])))
  {
    var x, y := t[..2], t[3..];
    assert t == x + ":" + y;
    DigitsBeforeColon(x, y);
    assert t[..2] == x && t[3..] == y;
    TwoDigits(x);
    TwoDigits(y);
  }

  lemma TwoDigits(x: string)
    requires |x| == 2 && AllDigits(x)
    ensures DigitsValue(x) == 10 * CharValue(x[0]) + CharValue(x[1])
  {
    var p := x[..1];
    assert p[..0] == "";
    assert DigitsValue(p) == CharValue(x[0]) by {
      assert DigitsValue(p) == DigitsValue(p[..0]) * 10 + CharValue(p[0]);
    }
    assert DigitsValue(x) == DigitsValue(x[..1]) * 10 + CharValue(x[1]);
  }
}
