# Stundenplan schedule engine, modelled in Dafny

The dashboard of the school timetable app works out, once a second, what is
happening at school right now, from a fixed table of twelve daily lesson
slots (07:30–17:55) and a week grid of subject codes (five weekdays by
twelve slots, `""` for no lesson). It answers four questions:

- **Which state is it in?** `findCurrentSlot` resolves the instant to
  weekend, a lesson (slot, start, end, subject), a break (after which slot,
  when it ends, the next subject) or nothing. Lessons and breaks are
  half-open intervals.
- **How far through the day and the week is it?** `calculateProgress` gives
  whole percentages. Saturday and Sunday show a finished week and an empty
  day.
- **How many lessons are there today?** `countLessons` gives the day's
  lessons and how many of them have not ended yet.
- **How is it shown?** `formatTime` and `pad` write the "MM:SS" countdown.
  `todayIndex` makes Monday day 0. `toDateToday` reads an "HH:MM" slot
  boundary. The subject label lookup falls back to the code itself.

The model is pure functions over whole seconds since midnight and a day index
0..6. The week grid is an explicit parameter; the slot table is a constant in
minutes. Modules follow the script's parts:

- Decimal: `toString`, `pad` and `Number` on digit strings.
- Clock: `todayIndex`, `toDateToday` and `formatTime`.
- Timetable: the constant tables, the cell read and the label lookup.
- Resolver: `findCurrentSlot`.
- Progress: `calculateProgress`.
- Lessons: `countLessons`.

Some behaviour worth knowing, all as the script does it:

- A cell past the end of a short row reads as empty (`undefined` is falsy).
- An empty lesson cell shows as `"frei"`. An empty next-subject cell of a
  break stays `""`.
- Away from the day's edges the day bar is rounded, so it shows 0% for
  the first 187 seconds of the first lesson and 100% in the last 187
  seconds of the last one (`Progress.BarAtLessonEdges`). It is therefore
  not strictly between 0 and 100 during every lesson.
- Two labels, `WAH` and `RKE`, are identical to their codes.

## Model

| member | source | states |
|---|---|---|
| `Decimal.NatToString` | app.js:235-237 | the decimal text of n is non-empty, all digits, has no leading zero, is one character exactly for n < 10, and reads back as n |
| `Decimal.NatToStringCanonical` | app.js:235-237 | conversely, every digit string without a superfluous leading zero is the text of its own value |
| `Decimal.NumberOf` | app.js:244 | a field is a number exactly when it is all digits, and then it is the field's decimal value (0 for the empty field) |
| `Decimal.Pad` | app.js:235-237 | `pad` keeps the value, leaves numbers >= 10 unchanged, puts one '0' before a single digit, and is exactly two characters for n < 100 |
| `Decimal.NumberOfNatToString` | app.js:244 | `Number` reads back the decimal text `toString` writes |
| `Decimal.NumberOfLeadingZero` | app.js:244 | a leading '0' does not change what `Number` reads, so a padded field reads as the number it pads |
| `Decimal.LeadingZero` | app.js:235-237 | a leading '0' does not change the value of a digit string |
| `Clock.TodayIndex` | app.js:239-241 | Sunday becomes 6, every other weekday moves down by one, and the index is weekend exactly for Saturday and Sunday |
| `Clock.TodayIndexBijective` | app.js:239-241 | the shift loses nothing: mapping a weekday to its index and back, or an index to its weekday and back, gives the starting value |
| `Clock.FirstColon` | app.js:244 | finds the first ':' of a string, with no ':' before it, or reports that there is none |
| `Clock.HeadField` | app.js:244 | the first field of a split on ':' is the colon-free prefix that ends at the first ':', or the whole string when there is no ':' |
| `Clock.FiveCharClock` | app.js:243-248 | any five-character "HH:MM" text of digits is read as its hour and minute |
| `Clock.ToDateTodayOfClockText` | app.js:243-248 | a padded "H:M" clock text is read back as that hour and minute |
| `Clock.JoinedFields` | app.js:244 | two padded numbers joined by ':' split and parse back to the same pair |
| `Clock.ParseFields` | app.js:244 | a valid pair needs a ':' in the text; the value of the pair is stated by `FiveCharClock`, `JoinedFields` and `ToDateTodayOfClockText` |
| `Clock.ToDateToday` | app.js:243-248 | a text names an instant exactly when its first two fields are numbers h and m, and the instant is 3600·h + 60·m seconds after midnight; which texts give which pair is stated by `FiveCharClock`, `JoinedFields` and `ToDateTodayOfClockText` |
| `Clock.FormatTime` | app.js:250-254 | "MM:SS" splits back into whole minutes and leftover seconds, and is five characters with both fields two digits exactly when sec < 6000 |
| `Clock.FormatTimeRoundTrip` | app.js:250-254 | reading the countdown text back recovers the number of seconds it was made from |
| `Timetable.Cell` | app.js:265 | `week[d][i]` as the script reads it: a cell past the end of a short row is `undefined`, which reads as empty; any other cell as stored |
| `Timetable.DisplayName` | app.js:344 | the label is the dictionary entry when there is one and the code itself otherwise, and it is empty only for the empty code |
| `Timetable.DefaultWeekLabelled` | app.js:13-28 | every subject of the default week has an entry in the label dictionary |
| `Timetable.DefaultWeekShape` | app.js:13-19 | the default week has five rows of one cell per slot |
| `Timetable.SlotTimesChained` | app.js:6-11 | every slot starts before it ends and ends before the next one starts |
| `Timetable.ChainedOrdered` | app.js:6-11 | in such a table every slot ends before any later slot starts |
| `Timetable.SlotsDisjoint` | app.js:6-11 | no instant lies in two slots |
| `Timetable.SlotTimesReadBack` | app.js:6-11 | each boundary of the minute table, as a five-character clock text, is read back by `toDateToday` as the same instant |
| `Resolver.FirstLesson` | app.js:261-267 | the lesson loop stops at the first slot containing now, every slot before it does not, and it runs out only when no slot does |
| `Resolver.FirstBreak` | app.js:269-275 | the break loop stops at the first gap containing now, and runs out only when no gap between consecutive slots does |
| `Resolver.LessonSubject` | app.js:265 | a lesson always names a subject: the cell's code, or `"frei"` for an empty cell |
| `Resolver.FindCurrentSlot` | app.js:256-278 | weekend exactly on days 5 and 6; a lesson exactly when a weekday slot contains now (the first such, with its bounds and subject); otherwise a break in the first gap containing now (ending at the next start, next subject from the cell); otherwise nothing, with no slot or gap containing now |
| `Resolver.LessonExactly` | app.js:261-266 | on a weekday the state is lesson i exactly when start_i <= now < end_i |
| `Resolver.BreakExactly` | app.js:269-274 | on a weekday the state is the break after slot i exactly when end_i <= now < start_{i+1} |
| `Resolver.GapNotInSlot` | app.js:269-274 | an instant in a gap is in no slot |
| `Resolver.GapsDisjoint` | app.js:269-274 | no instant lies in two gaps |
| `Resolver.Covered` | app.js:256-278 | between the first start and the last end every instant is in a slot or in a gap |
| `Resolver.EarliestAndLatest` | app.js:6-11 | every slot lies between the first slot's start and the last slot's end |
| `Resolver.SchoolDayCovered` | app.js:277 | on a weekday nothing is on exactly before 07:30 or from 17:55 |
| `Resolver.CountdownFits` | app.js:340-350 | at a whole-second instant, the countdown of a lesson (at most 45 minutes) or a break (at most 20) is positive and formats as five characters |
| `Resolver.MondayMorning` | app.js:261-266 | Monday with the default week: 07:45 is lesson 0 "frei" and 08:20 is lesson 1 "D" |
| `Resolver.MondayFirstBreak` | app.js:269-274 | Monday with the default week: 08:15 and 08:17 are the break after slot 0, ending at 08:20 and announcing "D" |
| `Resolver.MondayOutsideSchool` | app.js:277 | Monday with the default week: neither 07:29:59 nor 17:55 is in a lesson or a break |
| `Progress.RoundHalfUp` | app.js:290 | the result is the nearest integer to a/b, halves rounded up |
| `Progress.RoundUnique` | app.js:290 | those bounds determine the rounded value |
| `Progress.RoundMonotone` | app.js:290 | rounding does not decrease as the numerator grows |
| `Progress.RoundAtMost` | app.js:290 | a fraction of at most k rounds to at most k |
| `Progress.DayProgress` | app.js:285-290 | in 0..100; 0 on the weekend and before 07:30; 100 from 17:55; in between the elapsed share of the day rounded to the nearest percent |
| `Progress.WeekProgress` | app.js:280-295 | in 0..100; 100 on Saturday and Sunday; on a weekday (100·d + day%)/5 rounded to the nearest percent, so within 20·d..20·d+20 |
| `Progress.DayProgressMonotone` | app.js:285-290 | day progress never decreases as time passes |
| `Progress.WeekProgressMonotone` | app.js:291-293 | week progress never decreases from Monday morning to Friday night |
| `Progress.WeekCompleteFridayEvening` | app.js:291-293 | on Friday from 17:55 the week is at 100% |
| `Progress.WeekendProgress` | app.js:283 | Saturday and Sunday give a full week and an empty day at any time |
| `Progress.WednesdayProgress` | app.js:280-295 | Wednesday at 07:30, 12:42:30 and 17:55 gives day 0/50/100 and week 40/50/60 |
| `Progress.BarAtLessonEdges` | app.js:285-290 | 90 seconds into the first lesson the day shows 0%; 90 seconds before the end of the last lesson it already shows 100% |
| `Lessons.CountLessons` | app.js:297-309 | (0, 0) on the weekend; otherwise the number of slots with a subject and the number of those ending after now; remaining <= total <= 12 |
| `Lessons.CountStep` | app.js:302-306 | one more slot adds itself to the lessons when it has a subject, and to the remaining ones when it also ends after now |
| `Lessons.RemainingNeverIncreases` | app.js:302-306 | the remaining lessons at a later time are a subset of those at an earlier one, so their count never grows |
| `Lessons.RemainingAtDayEdges` | app.js:302-306 | before 07:30 every lesson remains; from 17:55 none does |
| `Lessons.CurrentLessonRemains` | app.js:303-305 | the lesson being taught, if its cell names a subject, is counted as remaining |

## Left out

- server.js as a whole is out of scope. It is HTTP routing, SQLite, password hashing, tokens and rate limiting.
- Authentication, settings and `localStorage` flows (app.js:70-188) are left out, including how a saved week replaces the default (app.js:102-105). The week is a parameter instead.
- DOM rendering is left out: screens, modal, theme, `update`, and the markup of `updateCurrent`/`updateSchedule`. So are the one-second timer (app.js:232) and the Web Audio `playSound` (app.js:401-416).
- The break text's label lookup (app.js:356) has no fallback to the code. It is display only and is not modelled.
- `Date` is replaced by whole seconds since midnight. Milliseconds, time zones and daylight-saving days are not modelled. Comparisons with whole-minute boundaries are unaffected. The rounded percentages at sub-second instants are not covered.
- Floating-point division in the progress bars is replaced by exact integer rounding, half up. At whole seconds no exact half arises, and the nearest half is far beyond double-precision error, so `Math.round` gives the same value.
- Timetable.DisplayName: JavaScript object lookup also finds inherited keys such as `"constructor"`, which would display a function. Only the dictionary's own entries are modelled.
- Decimal.NatToString: from 1e21 JavaScript writes numbers in exponent notation. The script only formats small numbers, so only the plain decimal text is modelled.
- Decimal.NumberOf: `Number` also accepts surrounding whitespace, signs, decimals, exponents and hex. Those are modelled as not-a-number, because the slot texts are always plain digits.
- `Clock.ParseFields` states only that a valid text contains ':'. Its value is stated through `Clock.FiveCharClock`, `Clock.JoinedFields` and `Clock.ToDateTodayOfClockText`.
- `Clock.FormatTime` takes non-negative seconds only. The script's output for a negative countdown (for example "-1:-1") is not modelled.
- The countdown is modelled at whole seconds, with one instant shared by the match and the timer. The script computes it from a second, millisecond-precise `Date` (app.js:341, app.js:349) and floors it. Whenever the milliseconds are non-zero it is therefore one second less than the model's `end - now`: "00:00" shows through the last second of every lesson and break. If that second `Date` falls past the slot's end, the timer shows a negative value. Neither the one-second offset nor the zero or negative countdown is modelled.
- A weekday whose row is missing from the week grid is a precondition (`Resolver.RowReadable`), not a modelled error. `findCurrentSlot` alone reads the row only when a slot or gap matches (app.js:265, app.js:273). Before 07:30 and from 17:55 it would return `none` without reading the row. But each tick calls `countLessons` (app.js:326) before `findCurrentSlot` (app.js:330), and `countLessons` always reads the row (app.js:303). So with a missing row the tick throws before the resolver runs.
- The week-progress weekend branch gives 0 for a day index outside 0..6. `todayIndex` never produces one, so only the 100 for Saturday and Sunday is modelled.
- The slot table's literal "HH:MM" texts are held in minutes. `Timetable.SlotTimesReadBack` and `Clock.FiveCharClock` state how such texts are read.
- Progress.RoundHalfUp: agrees with `Math.round` only for non-negative operands, which are the only ones the progress bars pass.
