# A verified model of the job scheduler

The scheduler stores jobs in one SQLite table, polls it once a second and reports the jobs that are due.
A job runs once, at an interval, or on a cron expression. This project models its two parts in Dafny and
proves what they do on every input, every run and every interleaving:

- **The cron engine.** `make_cron` turns a six-field expression into six bit sets. `cron_next` looks for the
  next instant whose fields all lie in them, by changing one broken-down time in place: it carries from field
  to field, resets the fields it has marked, normalises after every write, and searches again from four places.
- **The scheduler.** Validation and creation of jobs, the repository operations on the jobs table, and the
  polling loop, interleaved in any order with the requests that change the table.

## What is proved

**The calendar** (`Calendar`, `Tm`). `mktime` and `localtime` are defined, not assumed: a proleptic Gregorian
calendar built month by month, which agrees with the closed formula of section 4.16 of POSIX.1-2017. Broken-down
time follows section 7.27.2.3 of ISO/IEC 9899:2011: fields out of range carry. Every write of the search leaves a
normalised date with the right weekday.

**The search** (`Steps`, `Days`, `Search`, `Engine`, `Soundness`, `Moves`, `Leastness`, `Gaps`, `Exact`,
`GivingUp`, `Enumeration`).
The methods of `Engine` run the search on a `Tm` as the source does and are proved equal to functions on
instants; the theorems are about those functions.

- *Termination and progress*, for any day sets: the recursion ends, and an answer is INVALID_TIME or later than the
  input.
- *Soundness, exactly* (`SoundIff`), for any day sets: every answer matches all six sets if and only if, within one
  cycle of 400 years, no move of the day search that returns the day number it was given ends in an allowed month
  off a matching midnight. One unrestricted day set is enough. With both restricted it can fail: for 10:00:00 on
  every Friday the 13th, the answer after Tuesday 13 January 1970, 10:00:00 is midnight of Friday 13 February
  (`BothDaySetsRestricted`).
- *The recursion is a tail recursion* (`TailForm`) wherever the search is sound: each nested search starts strictly
  later, and the frames around it change nothing after it succeeds.
- *Leastness, exactly* (`ExactIff`), with one day set unrestricted: the answer is always the least matching instant
  after the input, or INVALID_TIME when there is none, if and only if nothing ever matches or all three of these
  hold, each of which can be read off the sets:
  - the allowed seconds have no gap between them, or every other field is unrestricted (`SecondsOk`). A changed
    second is neither marked nor followed by a new search, so a later change of the minute keeps it;
  - no allowed day of a month that is not allowed overflows the next allowed month while that month has an allowed
    day (`DaysFit`). The month is written before the day is reset, so day 31 moved to February lands in March;
  - the only matching day is not 29 February (`LeapDayOnly`). The search gives up after four years, and 2100 is not
    a leap year.
- *Leastness, exactly, for any day sets* (`ExactIffAny`), as long as every move of the day search that reads as no
  change ends harmlessly (`DayStepExact`): the answer is always the least later match if and only if no day ever
  matches, or the seconds are kept as above, no month step passes a match, and none comes after four years without
  one. All are finite conditions on the six sets over one cycle of 400 years, and sets that meet them are called
  `Reliable`. With one day set full they are those of the theorem above that can match at all (`ReliableIff`);
  midnight on the first Monday of every month, with both day fields restricted, is reliable too
  (`FirstMondaysReliable`). One allowed second, one day set full, and days up to the 28th or all months are enough
  (`SingleSecondReliable`).
- *Failure, exactly*: with one day set unrestricted, every search finds an instant if and only if some allowed month
  has an allowed day and that is not 29 February alone, whatever the seconds and however days overflow
  (`NeverGivesUpIff`); for any day sets as above whose month steps pass no match, if and only if no month step comes
  after four years without a match (`NeverGivesUpAnyIff`).
- *Enumeration*: on reliable sets, feeding each answer back lists all matching instants in order, and `cron_next` is
  monotone and constant from an instant up to its answer.

**The parser** (`Text`, `Fields`, `FieldMeaning`, `Names`, `Parser`, `Prefix`, `Expressions`, `GluedZero`,
`Acceptance`, `NamedFields`, `Usual`). Any text is either refused or gives six non-empty sets inside their ranges.
Every accepted text, in any spelling (`05`, `+5`, `5x`, names), stands for a schedule of items (`Read`), and its
sets hold exactly the values that the items name, if and only if no 8-bit step counter wraps down to a value that
its field does not name (`AcceptedMeansIff`). So an instant matches an accepted text exactly when each of its fields
is named (`AcceptedMeans`), and on reliable sets `cron_next` gives the least later instant that the text describes
(`AcceptedAnswer`). A schedule written as text is read back as itself (`ReadWritten`), and both spellings of names
parse to the same sets (`NamesParse`).

Which texts are refused, and with which error, is stated from numbers up to expressions (`ExpressionAcceptedIff`), and
usual expressions are followed from their text to the instants that match (`AtWork`, `TwiceAYear`).

**The table and its runs** (`Jobs`, `Runs`, `Columns`, `Service`, `Scheduler`). Over every run of repository
operations: every operation writes the columns it should and no others (`OneColumnWritten`, `InsertedColumns`), ids
are never used again, every operation acts on at most the row it names, retry counts stay in bounds and count the
increments since the last reset. Every tick of the polling loop reports exactly the rows that exist, are ACTIVE and
are due, each once. A cron job is reported by a tick exactly when a matching instant after its creation has come
(`CronJobReported`).

## Where the code differs from what it seems to promise

The model follows the code.

- `"0" + cron_expr` puts no blank between the two. A five-field expression is refused for its number of fields if
  and only if it does not start with a blank (`FiveFieldsRefused`); `0 9 * * 1` is refused (`NineOnMondays`), and so
  is the body that holds it (`FiveFieldBody`). In an accepted six-field expression the first item of the seconds
  then starts at 0, unless it is written with a digit first (`GluedReading`), and the meaning is kept if and only if
  it is, or other seconds cover the change (`MeaningKeptIff`). `+5 0 9 * * *` is accepted as 09:00:05 and read as
  09:00:00 (`PlusFiveMoves`).
- Numbers are reduced modulo 256 before their bounds are checked: a minute of 256 is read as 0 (`DecimalReadBack`).
- Step counters have eight bits: the minutes `59/255` hold minute 58 too (`WrappedMinute`).
- Noon on Mondays in February is accepted, and some answers are not the least (`FebruaryMondaysMissed`).
- Both day fields must match an instant, not either one as in classic cron.
- `interval_seconds` is narrowed to an int after it was checked to be positive: 2^32 seconds is accepted and means
  no delay (`RecurringIff`, `LongIntervalAccepted`).
- `insert_job` binds `next_run_time` in 32 bits; a job is reported from its own run time on if and only if that fits
  (`ReportedFromItsTime`); a job for 2^31 is reported at once (`LateJobReportedAtOnce`).
- A cron search that fails stores INVALID_TIME, and the job is then reported by every tick (`FailedCronIsDue`). `0 0
  30 2 *` with a blank in front is accepted and always fails (`NeverRuns`); with one day set unrestricted, an
  accepted expression never fails if and only if some allowed month has an allowed day and that is not 29 February
  alone (`FailedCronIff`).
- `max_retries` is not validated; the bound on retry counts holds over all runs if and only if it is not negative
  (`CreatedRetriesIff`, `NegativeRetriesAccepted`).
- `update_job_status` answers true for an id without a row (`AbsentRefused`).

## Conventions

Instants are seconds since the epoch. `12 * year + month`, with the year since 1900, numbers the months, and bit 0 of
the day-of-month and month sets is day 1 and January. The search methods take the instant that the date
shows as a ghost parameter. The recursive search is one function in the source; here each phase of it (seconds and
minutes, hours, days, months) is a function, and a method. Exceptions are results: `Result.Bad` for `bad_cronexpr`,
`Built.JsonThrown` for a body field of the wrong JSON type. Two slips that keep the source from compiling are read
through: `retrun` in `is_valid_cron` and the missing `=` in `scheduler_loop`.

## Model

| member | source | states |
|---|---|---|
| Calendar.DateUnique | croncpp/include/croncpp/croncpp.h:251-264 | a day number lies in one month only: breaking it into month and day is the only way to write it as a date |
| Calendar.DateOf | croncpp/include/croncpp/croncpp.h:251-264 | round trip from dates: the day number of a valid month and day breaks into that month and day |
| Calendar.NextDay | croncpp/include/croncpp/croncpp.h:560-564 | the day after is the next number in the month, or the 1st of the next month after the last |
| Calendar.YearDayIsPosix | croncpp/include/croncpp/croncpp.h:251-264 | 1 January of every year, counted month by month, is the closed formula of section 4.16 of POSIX.1-2017, leap centuries included |
| Calendar.MonthsFromMarch | croncpp/include/croncpp/croncpp.h:251-264 | every month from March to February begins (153 k + 2) / 5 days after 1 March, for the k-th month after March |
| Calendar.FirstMonths | croncpp/include/croncpp/croncpp.h:251-264 | January has 31 days and February 28, or 29 in leap years |
| Calendar.DateRepeats | croncpp/include/croncpp/croncpp.h:251-264 | months, day numbers and weekdays repeat every 146097 days |
| BrokenDownTime.Tm.constructor | croncpp/include/croncpp/croncpp.h:256-264 | `localtime`: the fields show the instant, in range and with its weekday |
| BrokenDownTime.Tm.ToTime | croncpp/include/croncpp/croncpp.h:251-254 | `mktime`: returns the instant of the fields, in or out of range, and leaves them normalised |
| BrokenDownTime.Tm.ShownInstant | croncpp/include/croncpp/croncpp.h:251-264 | round trip from instants: breaking a time into fields and putting it together again gives it back |
| BrokenDownTime.Tm.AddToField | croncpp/include/croncpp/croncpp.h:547-579 | adding to any field leaves the normalised date of the shifted instant; false exactly where `bad_cronexpr` is thrown |
| BrokenDownTime.Tm.SetField | croncpp/include/croncpp/croncpp.h:581-615 | setting any field leaves the normalised date, with month overflow; a weekday written is undone by normalising |
| BrokenDownTime.Tm.ResetField | croncpp/include/croncpp/croncpp.h:617-650 | resetting a field is setting it to 0, or 1 for the day of the month, and normalising |
| Steps.InMonthParts | croncpp/include/croncpp/croncpp.h:602-613 | a month written over a day it does not have lands on the overflowing day of the month after; the time of day stays |
| Steps.NextSetBit | croncpp/include/croncpp/croncpp.h:532-545 | the first set bit from the offset on, or INVALID_INDEX when none is set |
| Steps.ResetMarked | croncpp/include/croncpp/croncpp.h:652-661 | resetting the marked fields in turn takes off exactly their seconds, and goes to the 1st when the day is marked |
| Steps.StepValueAllowed | croncpp/include/croncpp/croncpp.h:682-694 | the value a field step returns is a set bit: the wrapped-around search never fails and INVALID_INDEX is never written |
| Steps.SecondStep | croncpp/include/croncpp/croncpp.h:737-750 | the seconds step goes to the first later instant with an allowed second and returns that second |
| Steps.MinuteStep | croncpp/include/croncpp/croncpp.h:752-765 | the minute step keeps a matching date; otherwise it goes to the next allowed minute, at second 0 if the second was marked and unchanged if not |
| Steps.HourStep | croncpp/include/croncpp/croncpp.h:772-785 | the same for hours, with minute and second zeroed as marked |
| Steps.MonthStepTo | croncpp/include/croncpp/croncpp.h:811-820 | the month step goes to the 1st of the next allowed month, or of the month after it when the old day number overflows it |
| Days.DayStepLands | croncpp/include/croncpp/croncpp.h:699-724 | the day walk stops on its landing day, with the marked time fields zeroed exactly when it moved, and returns that day number |
| Days.DaySearch | croncpp/include/croncpp/croncpp.h:699-724 | with one day set full: stops on the first matching day, within 60 steps (6 if only the weekday is restricted), never on the cap of 366; the number returned differs exactly when the day moved |
| Days.MatchingDayExists | croncpp/include/croncpp/croncpp.h:708-723 | any allowed day number and weekday meet on some later day, whatever both day sets are |
| Search.SecondBelowCeiling | croncpp/include/croncpp/croncpp.h:737-750 | the seconds step moves forward only, and never past the last allowed time of the next matching day |
| Search.MinuteBelowCeiling | croncpp/include/croncpp/croncpp.h:752-770 | the minute step moves strictly forward exactly when it reports a change, for any sets, and not past that time |
| Search.HourBelowCeiling | croncpp/include/croncpp/croncpp.h:772-790 | the same for the hour step |
| Search.DayBelowCeiling | croncpp/include/croncpp/croncpp.h:792-809 | the same for the day step, for any day sets |
| Search.MonthMovesOn | croncpp/include/croncpp/croncpp.h:811-828 | the month step moves to a strictly later month exactly when it reports a change |
| Search.FindNext | croncpp/include/croncpp/croncpp.h:726-831 | the recursive search ends for all sets; it never goes back, and gives up only at a later date more than four years past `dot` |
| Search.Progress | croncpp/include/croncpp/croncpp.h:887-911 | for any day sets, `cron_next` gives INVALID_TIME or a strictly later instant |
| Engine.ResetAllFields | croncpp/include/croncpp/croncpp.h:652-661 | the loop over the marked fields, in place, is the composition of the resets; no reset throws |
| Engine.FindNextField | croncpp/include/croncpp/croncpp.h:671-697 | `find_next` on one field, in place: carry, write and reset leave the date and value of `FieldStep`; no write throws |
| Engine.FindNextDay | croncpp/include/croncpp/croncpp.h:699-724 | `find_next_day`, in place: the loop leaves the date and day number of `DayStep` |
| Engine.Find | croncpp/include/croncpp/croncpp.h:726-770 | the recursive search in place, from the seconds: its result and the date it leaves are those of `FindNext` |
| Engine.FindFromHour | croncpp/include/croncpp/croncpp.h:772-790 | the same from the hours, also on a date that a nested search left |
| Engine.FindFromDay | croncpp/include/croncpp/croncpp.h:792-809 | the same from the days |
| Engine.FindFromMonth | croncpp/include/croncpp/croncpp.h:811-830 | the same from the months, with the year check |
| Engine.Next | croncpp/include/croncpp/croncpp.h:887-911 | `cron_next`, with its second search after a match at the input itself, is `CronNext` |
| Engine.WritesNotBeforeEpoch | croncpp/include/croncpp/croncpp.h:577-578 | from the epoch on no write gives -1, so the searches never throw `bad_cronexpr` |
| Soundness.ResumeHour | croncpp/include/croncpp/croncpp.h:772-830 | a frame resumed on a date that matches changes nothing in any of its later phases |
| Soundness.FindNextSound | croncpp/include/croncpp/croncpp.h:726-831 | when no move is hidden, a search that returns true leaves a date that matches all six sets; no condition on seconds or months |
| Soundness.SoundIff | croncpp/include/croncpp/croncpp.h:801-804 | for any sets: every answer matches if and only if no move hidden by an equal day number, in one cycle of 400 years, ends in an allowed month off a matching midnight |
| Soundness.DayStepSoundOn | croncpp/include/croncpp/croncpp.h:801-804 | one cycle of the calendar stands for all days: what the finite condition says holds of every hidden move |
| Soundness.OneDaySetFullIsSound | croncpp/include/croncpp/croncpp.h:799-809 | one unrestricted day set rules hidden moves out |
| Soundness.HiddenMoveReturned | croncpp/include/croncpp/croncpp.h:801-804 | from the last allowed time before a hidden move the answer is midnight of the landing day, matching or not |
| Soundness.BothDaySetsRestricted | croncpp/include/croncpp/croncpp.h:801-804 | a concrete answer that does not match: Friday the 13th at 10:00:00 is answered with a midnight |
| Examples.CapRunsOut | croncpp/include/croncpp/croncpp.h:706-723 | the walk can stop on its cap of 366: from 14 August 1999 the answer for Friday the 13th is midnight of Monday 14 August 2000 |
| Moves.TailForm | croncpp/include/croncpp/croncpp.h:762-828 | wherever the search is sound: one turn stops on a match or searches again strictly later, with the same result as the nested search; it fails only at a month step more than four years on |
| Moves.HiddenTurn | croncpp/include/croncpp/croncpp.h:799-828 | a hidden move stops on its landing day or goes on to the month step in the same frame, from that day |
| Leastness.TurnSkipsNothing | croncpp/include/croncpp/croncpp.h:726-831 | under the conditions on seconds and days, no matching instant lies between the start of a turn and where it goes |
| Leastness.MonthsPassed | croncpp/include/croncpp/croncpp.h:602-613 | under `DaysFit`, the days passed by a month step do not match, also when the month written overflows |
| Leastness.MonthStepFitsOn | croncpp/include/croncpp/croncpp.h:602-613 | if no month step of one cycle of 400 years passes a match, none ever does |
| Gaps.SameStep | croncpp/include/croncpp/croncpp.h:811-820 | two days of months that are not allowed, the second before the month reached from the first, step to the same month |
| Gaps.FoundPast | croncpp/include/croncpp/croncpp.h:821-828 | a search that finds something beyond a step day has not gone beyond the years that day steps to |
| Gaps.UnmetGivesUp | croncpp/include/croncpp/croncpp.h:823-824 | where a month step comes after four years without a match, the search from the last second before them gives INVALID_TIME |
| Gaps.GivesUpAtStep | croncpp/include/croncpp/croncpp.h:821-824 | a search that gives up does so at a month step into a year more than four on |
| Gaps.SearchKeepsLastTime | croncpp/include/croncpp/croncpp.h:726-831 | whatever the seconds, the search does not pass the last allowed time of a matching day, if no month step passes a match |
| Gaps.MetSearchFinds | croncpp/include/croncpp/croncpp.h:821-828 | a search finds something if no month step comes after four years without a match |
| Leastness.SearchSkipsNothing | croncpp/include/croncpp/croncpp.h:726-831 | the whole recursion passes no matching instant, whether it finds one or gives up |
| Exact.SearchIsFirst | croncpp/include/croncpp/croncpp.h:726-831 | on reliable sets the search returns true on the first match from its start on |
| Exact.ReliableIsExact | croncpp/include/croncpp/croncpp.h:726-911 | on reliable sets, with one day field restricted, both or none, `cron_next` never fails and is the least match after its input |
| Exact.YearBound | croncpp/include/croncpp/croncpp.h:821-828 | one day set full: no search, and so no date it visits, goes beyond year `dot` + 6, and one that succeeds not beyond `dot` + 5 |
| Exact.LeapDayMissed | croncpp/include/croncpp/croncpp.h:823-824 | with only 29 February allowed, the search from 1 March 2096 gives up with INVALID_TIME though a match exists |
| Exact.OverflowMissed | croncpp/include/croncpp/croncpp.h:602-613 | whenever an allowed day overflows the next allowed month, some answer passes a match by |
| Exact.SecondMissed | croncpp/include/croncpp/croncpp.h:747-750 | for any day sets as in `ExactIffAny`, when the seconds have a gap, another field is restricted, days match and no month step passes a match, some answer has a second that is not the first |
| Exact.StepMissed | croncpp/include/croncpp/croncpp.h:602-613 | for any sound sets, when a month step passes a match, some answer is not the least |
| Exact.UnmetMissed | croncpp/include/croncpp/croncpp.h:823-824 | for any sound sets, when a month step comes after four years without a match, some answer is INVALID_TIME though matches lie ahead |
| Exact.ExactIffAny | croncpp/include/croncpp/croncpp.h:726-911 | for any day sets whose hidden moves end harmlessly: every answer is the least later match, or INVALID_TIME when there is none, if and only if no day matches or the seconds are kept, no month step passes a match and none comes after four years without one |
| Exact.ExactIff | croncpp/include/croncpp/croncpp.h:726-911 | one day set full: every answer is the least match after the input, or INVALID_TIME when there is none, if and only if nothing ever matches or the three conditions hold |
| Exact.ExactNeedsSound | croncpp/include/croncpp/croncpp.h:799-809 | with any day sets, always exact answers need that no move is hidden harmfully |
| GivingUp.MonthStepPasses | croncpp/include/croncpp/croncpp.h:602-613 | a month step from the first matching day of a month passes no match, even when the day overflows the month written |
| GivingUp.SearchPassesNoDay | croncpp/include/croncpp/croncpp.h:726-831 | after a month step, for any seconds and days, the search passes no matching day in an allowed month |
| GivingUp.NeverGivesUpIff | croncpp/include/croncpp/croncpp.h:821-828 | one day set full: every search finds an instant if and only if some allowed month has an allowed day and that is not 29 February alone |
| GivingUp.NeverGivesUpAnyIff | croncpp/include/croncpp/croncpp.h:821-828 | any day sets whose hidden moves end harmlessly and whose month steps pass no match: every search finds an instant if and only if no month step comes after four years without a match |
| GivingUp.UnsatisfiableGivesUp | croncpp/include/croncpp/croncpp.h:823-824 | one day set full and no allowed day in an allowed month: every search gives INVALID_TIME |
| Enumeration.SingleSecondReliable | croncpp/include/croncpp/croncpp.h:747-750 | one allowed second, one day set full, and days up to the 28th or all months: the answers are exact |
| Enumeration.NextIsFirst | croncpp/include/croncpp/croncpp.h:887-911 | on reliable sets `cron_next` is the least matching instant after its input |
| Enumeration.ReliableIff | croncpp/include/croncpp/croncpp.h:726-911 | with one day set full, the reliable sets are exactly those that can match and meet the three conditions of `ExactIff` |
| Enumeration.FirstMondaysReliable | croncpp/include/croncpp/croncpp.h:799-809 | midnight on first Mondays, with both day fields restricted, is reliable |
| Enumeration.AnswersEnumerate | croncpp/include/croncpp/croncpp.h:887-911 | n answers in a row are the first n matches, strictly increasing, none left out |
| Enumeration.NextMonotone | croncpp/include/croncpp/croncpp.h:887-911 | `cron_next` is monotone, and constant from an instant up to its answer |
| Text.Split | croncpp/include/croncpp/croncpp.h:319-329 | the `getline` loop gives the pieces between delimiters, up to the first NUL, without an empty last one |
| Text.TokensOfJoin | croncpp/include/croncpp/croncpp.h:319-329 | splitting inverts joining of delimiter-free tokens whose last is not empty |
| Text.JoinOfLines | croncpp/include/croncpp/croncpp.h:319-329 | joining inverts splitting, but for one delimiter at the end of the text |
| Text.DecimalReadBack | croncpp/include/croncpp/croncpp.h:340-350 | any number written in decimal is read back modulo 256, or refused beyond an unsigned long |
| Text.DigitsRead | croncpp/include/croncpp/croncpp.h:340-350 | any string of digits, leading zeros included, is read as its value modulo 256, or refused beyond an unsigned long |
| Acceptance.NumberRead | croncpp/include/croncpp/croncpp.h:340-350 | a number is read past spaces and a sign up to the first other character; a minus sign negates it in 64 bits; the result is cut to eight |
| Acceptance.NoNumberRead | croncpp/include/croncpp/croncpp.h:340-350 | without a digit there is no number |
| Acceptance.NumberLimit | croncpp/include/croncpp/croncpp.h:340-350 | 2^64 - 1 is read as 255, and 2^64 is refused |
| Acceptance.NulEnds | croncpp/include/croncpp/croncpp.h:319-350 | nothing after a NUL is read |
| Fields.StepBits | croncpp/include/croncpp/croncpp.h:458-465 | the wrapping loop ends for every increment from 1 to 255 and never passes the end of the range |
| Fields.StepsMeanProgression | croncpp/include/croncpp/croncpp.h:458-465 | the 8-bit loop sets exactly the arithmetic progression if and only if its first step does not pass 255 |
| Fields.StepsDown | croncpp/include/croncpp/croncpp.h:462 | once a step wraps, the loop sets the progression that goes down by 256 minus the increment |
| Fields.MakeRange | croncpp/include/croncpp/croncpp.h:366-407 | a range that is accepted is ordered and inside its bounds |
| Acceptance.RangeAcceptedIff | croncpp/include/croncpp/croncpp.h:366-407 | a range is accepted if and only if it is `*`, a number within the bounds, or two such numbers in order; those are its ends |
| Acceptance.RangeErrors | croncpp/include/croncpp/croncpp.h:392-404 | the error of each kind of range that is refused |
| Acceptance.ItemAcceptedIff | croncpp/include/croncpp/croncpp.h:425-456 | an item is accepted if and only if it is a range, or a range and a step that is not 0 in eight bits |
| Fields.SetSteps | croncpp/include/croncpp/croncpp.h:458-465 | the loop on the bit set adds the bits of `StepBits` and never indexes outside it |
| Fields.SetCronField | croncpp/include/croncpp/croncpp.h:409-468 | the loop over the items gives the union of their bits, or the error of the first bad item |
| Fields.FieldBits | croncpp/include/croncpp/croncpp.h:409-468 | an accepted field is a non-empty set inside its range |
| Acceptance.FieldAcceptedIff | croncpp/include/croncpp/croncpp.h:409-421 | a field is accepted if and only if it has an item, does not end with a comma, and all its items are accepted |
| Acceptance.FirstItemError | croncpp/include/croncpp/croncpp.h:423-467 | the error of a field is that of its first item that is refused |
| Acceptance.TrailingCommaRefused | croncpp/include/croncpp/croncpp.h:416-417 | `0 0 9, * * *` is refused for its comma |
| FieldMeaning.ItemParses | croncpp/include/croncpp/croncpp.h:366-407 | round trip: the text of `*`, `a`, `a-b` and of these with `/k` is accepted and read back as that item |
| FieldMeaning.ItemRead | croncpp/include/croncpp/croncpp.h:428-465 | every accepted item text, in any spelling, sets the bits of the item read from it |
| FieldMeaning.FieldRead | croncpp/include/croncpp/croncpp.h:409-468 | every accepted field sets the union of the bits of the items read from it |
| FieldMeaning.BitsOfMeans | croncpp/include/croncpp/croncpp.h:428-465 | the bits of an item are the values it names and those its wrapped counter comes down on |
| FieldMeaning.FieldMeansIff | croncpp/include/croncpp/croncpp.h:409-468 | every accepted field holds exactly the values its items name, if and only if no counter wraps down to a value that no item names |
| FieldMeaning.StarHidesWrap | croncpp/include/croncpp/croncpp.h:458-465 | a wrapping item beside a `*` leaves the field with its meaning |
| Examples.WrappedMinute | croncpp/include/croncpp/croncpp.h:462 | the minutes `59/255` name minute 59 only and hold minute 58 too |
| Examples.FebruaryMondaysMissed | croncpp/include/croncpp/croncpp.h:602-613 | `0 0 12 * 2 1` is accepted and some answer is not the least |
| FieldMeaning.BitsAreMeaning | croncpp/include/croncpp/croncpp.h:428-465 | the bits are exactly the values the item names, if and only if its first step does not wrap |
| FieldMeaning.ItemsUnion | croncpp/include/croncpp/croncpp.h:423-467 | a field is accepted when all its items are, and means the union of them |
| FieldMeaning.OrderDoesNotMatter | croncpp/include/croncpp/croncpp.h:423-467 | fields with the same items, in any order and repeated at will, are accepted alike and mean the same |
| FieldMeaning.FieldParses | croncpp/include/croncpp/croncpp.h:409-468 | round trip: the text of a list of items is accepted and read back as that list |
| FieldMeaning.ValuesRoundTrip | croncpp/include/croncpp/croncpp.h:409-468 | values written as comma-separated decimals, in any order, parse to the set of them |
| Names.ReplaceOrdinals | croncpp/include/croncpp/croncpp.h:352-364 | the loop over the names replaces the first occurrence of each by its index |
| Names.NamesBecomeNumbers | croncpp/include/croncpp/croncpp.h:352-364 | a field in which each name occurs at most once, and none across or inside another, becomes the same field with numbers; letters may follow a name |
| Names.NumbersStay | croncpp/include/croncpp/croncpp.h:352-364 | the field with numbers has no names left to replace |
| Parser.Parse | croncpp/include/croncpp/croncpp.h:834-863 | any text gives an error or six non-empty sets inside their ranges |
| Parser.MakeCron | croncpp/include/croncpp/croncpp.h:834-863 | `make_cron`, with the order in which it reads the fields and so the error it reports |
| Acceptance.ExpressionAcceptedIff | croncpp/include/croncpp/croncpp.h:834-863 | an expression is accepted if and only if it has six accepted fields; otherwise the error is that of the first refused field, weekdays before days of the month and months |
| Usual.NineOnMonday | croncpp/include/croncpp/croncpp.h:834-863 | `0 0 9 * * MON` is accepted, and matches exactly 09:00:00 on Mondays |
| Usual.AtWork | croncpp/include/croncpp/croncpp.h:834-863 | `0 */15 9-17 * * mon-FRI` matches exactly every quarter of an hour from 9:00 to 17:45, Monday to Friday |
| Usual.TwiceAYear | croncpp/include/croncpp/croncpp.h:834-863 | `0 0 12 1,15 JAN,jul ?` matches exactly noon on the 1st and 15th of January and July |
| Parser.MonthNamesParse | croncpp/include/croncpp/croncpp.h:510-530 | a month field in names of any case and the one in numbers read as the same text |
| NamedFields.MonthNames | croncpp/include/croncpp/croncpp.h:510-530 | `JAN` to `JUN`, in any case, are the months January to June |
| NamedFields.LaterMonthNames | croncpp/include/croncpp/croncpp.h:510-530 | `JUL` to `DEC`, in any case, are the months July to December |
| NamedFields.NilRefused | croncpp/include/croncpp/croncpp.h:90 | `NIL`, the name of month 0, is refused |
| Parser.WeekdayNamesParse | croncpp/include/croncpp/croncpp.h:470-493 | a weekday field in names of any case and the one in numbers read as the same text |
| NamedFields.WeekdayNames | croncpp/include/croncpp/croncpp.h:470-493 | `SUN` to `SAT`, in any case, are the weekdays Sunday to Saturday, Sunday being bit 0 |
| NamedFields.StarAndQuestion | croncpp/include/croncpp/croncpp.h:484-501 | `*` in every field, and `?` in the two day fields, give the full set |
| NamedFields.RepeatedNameRefused | croncpp/include/croncpp/croncpp.h:356-361 | only the first occurrence of a name is replaced: `TUE,TUE` is refused |
| Parser.NamesParse | croncpp/include/croncpp/croncpp.h:834-863 | an expression in names and the one in numbers parse to the same sets |
| Prefix.PrefixFields | Src/Service/service.cpp:83 | a 0 glued to the front is a field of its own when the expression starts with a blank, and otherwise part of the first field; the others stay |
| Prefix.FiveFieldsRefused | Src/Service/service.cpp:83-84 | a five-field expression is refused for its number of fields if and only if it does not start with a blank |
| Prefix.NineOnMondays | Src/Service/service.cpp:83-84 | `0 9 * * 1` is refused |
| Prefix.GluedSixFields | Src/Service/service.cpp:83-84 | accepted or not, a six-field expression gives the same result when its seconds start with a digit or are `*` with a step; `*` becomes second 0 |
| GluedZero.FieldFromZero | Src/Service/service.cpp:83-84 | an accepted seconds field that does not start with a digit is read with its first item starting at 0, the others as they were |
| GluedZero.SecondsKeptIff | Src/Service/service.cpp:83-84 | such a field keeps its set if and only if what its first item loses and gains is set by other items |
| GluedZero.GluedReading | Src/Service/service.cpp:83-84 | what is read from any accepted six-field expression: the same schedule, but for the first item of its seconds |
| GluedZero.MeaningKeptIff | Src/Service/service.cpp:83-84 | an accepted six-field expression keeps its meaning if and only if it starts with a digit or its other seconds cover the change |
| Examples.PlusFiveMoves | Src/Service/service.cpp:83-84 | `+5 0 9 * * *` is accepted as 09:00:05 and changes its meaning |
| Prefix.GluedField | Src/Service/service.cpp:83-84 | a glued 0 changes nothing in such a seconds field, whatever its items |
| Prefix.BlankGivesSecondZero | Src/Service/service.cpp:99-100 | with a blank in front, the seconds are exactly 0 |
| Expressions.AcceptedMeansIff | croncpp/include/croncpp/croncpp.h:834-863 | every accepted text gives six sets that hold exactly the values its items name, if and only if no counter wraps down to an unnamed value |
| Expressions.AcceptedMeans | croncpp/include/croncpp/croncpp.h:834-863 | from text to time: an instant matches an accepted text exactly when each of its six fields is a value that an item of that field names |
| Expressions.ReadWritten | croncpp/include/croncpp/croncpp.h:834-863 | round trip: a schedule written as text is accepted and read back as that schedule |
| Expressions.AcceptedAnswer | croncpp/include/croncpp/croncpp.h:834-911 | from text to answer: on reliable sets `cron_next` is the least later instant that the accepted text describes |
| Expressions.OrdinaryIsReliable | croncpp/include/croncpp/croncpp.h:834-911 | texts that name one second, everything in one day field, and no day beyond the 28th or every month give reliable sets |
| Jobs.ToInt32 | Src/Repository/database.cpp:67 | narrowing to 32 bits keeps a number exactly when it fits |
| Jobs.JobTable.Insert | Src/Repository/database.cpp:50-101 | a row with the next AUTOINCREMENT id is appended, its run time narrowed to 32 bits; the id is returned |
| Columns.InsertedColumns | Src/Repository/database.cpp:64-98 | the new row has every column of the job, the next id, and its run time if that fits 32 bits; one row is added |
| Jobs.JobTable.Delete | Src/Repository/database.cpp:227-255 | the row with the id goes; true exactly when there was one |
| Columns.OneRowDeleted | Src/Repository/database.cpp:227-255 | the row with the id goes, every other row stays as it was, and the answer says whether it was there |
| Jobs.JobTable.Update | Src/Repository/database.cpp:257-459 | the WHERE clause picks the row and the SET clause changes it; true exactly when a row was changed |
| Columns.OneColumnWritten | Src/Repository/database.cpp:195-459 | every update but `update_job` writes one column of the row it names: which one, with what value, and with what answer; the other nine stay |
| Columns.AllColumnsWritten | Src/Repository/database.cpp:257-317 | `update_job` writes every column but the id |
| Jobs.JobTable.Pause | Src/Repository/database.cpp:319-344 | the row becomes PAUSED; false when there is none |
| Jobs.JobTable.Resume | Src/Repository/database.cpp:346-371 | the row becomes ACTIVE; false when there is none |
| Columns.PauseThenResume | Src/Repository/database.cpp:319-371 | pausing an ACTIVE job and resuming it, with any operations on other jobs in between, gives back its row, reported by exactly the ticks from its own run time on |
| Jobs.JobTable.Reschedule | Src/Repository/database.cpp:373-401 | the row gets the new run time, unnarrowed; false when there is none |
| Jobs.JobTable.IncrementRetry | Src/Repository/database.cpp:403-433 | the count goes up by one below `max_retries`; otherwise false and no change |
| Jobs.JobTable.ResetRetry | Src/Repository/database.cpp:435-459 | the count becomes 0; false when there is no row |
| Jobs.JobTable.SetStatus | Src/Repository/database.cpp:195-225 | the row gets the status; true in any case |
| Jobs.JobTable.GetById | Src/Repository/database.cpp:141-193 | the row with the id, or none |
| Jobs.JobTable.SelectDue | Src/Repository/database.cpp:461-499 | the due rows, in table order |
| Runs.ApplyByRow | Src/Repository/database.cpp:50-459 | every operation acts on each row by itself and changes at most the row it names |
| Runs.ApplyOrdered | Src/Repository/database.cpp:22-34 | every operation keeps ids strictly increasing and at most the counter, which never falls |
| Runs.GoneStaysGone | Src/Repository/database.cpp:22-34 | an id once given out that has no row never has one again, over every run |
| Runs.AbsentRefused | Src/Repository/database.cpp:227-459 | an operation on an id without a row changes nothing and answers false (true for `update_job_status`) |
| Runs.DeletedForGood | Src/Repository/database.cpp:227-255 | after `delete_job` answered true, over every run, the id has no row and every operation on it is refused |
| Runs.RetryBound | Src/Repository/database.cpp:403-459 | 0 <= retry_count <= max_retries in every row, over every run whose inserted and rewritten rows have it |
| Runs.RetryCountIsIncrements | Src/Repository/database.cpp:403-459 | a row's count is the number of successful increments since its last successful reset, over every run |
| Runs.DueExactly | Src/Repository/database.cpp:461-499 | a row is selected exactly when it is there, ACTIVE and due; no row twice |
| Runs.ReportedFromItsTime | Src/Repository/database.cpp:67 | a job left alone is reported by exactly the ticks from its stored time on, and from its own run time on if and only if that fits 32 bits |
| Runs.PausedNotReported | Src/Repository/database.cpp:319-344 | a paused job is reported by no tick until it is resumed or rewritten, over every run |
| Runs.ResumedReported | Src/Repository/database.cpp:346-371 | a resumed job left alone is reported by exactly the ticks from its run time on |
| Runs.RescheduledReported | Src/Repository/database.cpp:373-401 | an ACTIVE job is reported by exactly the ticks from its new run time on, which need not fit 32 bits |
| Service.ValidateJobInput | Src/Service/service.cpp:7-77 | accepts exactly the bodies without an error, and reports the first error in the order of the checks |
| Service.ValidationExactly | Src/Service/service.cpp:7-77 | a body is accepted if and only if every field its type needs is right, and each error is given exactly when its field is the first that is not |
| Service.FiveFieldBody | Src/Service/service.cpp:66-74 | a cron body with the usual five fields is refused for their number if and only if they do not start with a blank |
| Service.SixFieldBody | Src/Service/service.cpp:66-104 | a cron body with six accepted fields is accepted and runs at the answer for the same schedule, its first seconds item starting at 0 unless written with a digit; when the sets are kept |
| Service.IsValidCron | Src/Service/service.cpp:79-95 | true exactly when "0" + the expression parses |
| Service.ComputeNextRunTime | Src/Service/service.cpp:97-119 | the client's time, now plus the interval, or the cron answer; or the exception raised on the way |
| Service.CreateJob | Src/Service/service.cpp:121-162 | a refused body or an exception leaves the table as it was; otherwise exactly the job built is inserted |
| Service.AcceptedBodyBuilds | Src/Service/service.cpp:121-162 | no accepted body leads to an absent optional or an unparsable expression; it throws exactly on a field of the wrong JSON type |
| Service.BuiltRunTime | Src/Service/service.cpp:109-161 | the run time is the client's own positive time, now plus the narrowed interval, or the answer of `cron_next` on the parse of "0" + the expression, which is after now unless the search failed; name, payload, type, status and retries come from the body |
| Service.BuiltOptionals | Src/Service/service.cpp:136-144 | the interval and the expression are stored as sent, and as none when absent or null |
| Service.ThrowsIff | Src/Service/service.cpp:136-144 | an accepted body makes `create_job` throw if and only if its interval or expression has a JSON type that the accessor does not take |
| Service.CronRunTimeMeans | Src/Service/service.cpp:97-107 | on reliable sets the run time is the least instant after now that the text with 0 in front describes |
| Service.RecurringIff | Src/Service/service.cpp:109-114 | a recurring job runs its interval from now if and only if that is below 2^31; 2^32 means no delay |
| Service.LongIntervalAccepted | Src/Service/service.cpp:51-59 | a body with an interval of 2^32 is accepted, and its job is due at once |
| Service.CronJobRunsNext | Src/Service/service.cpp:97-107 | on reliable sets the run time of a cron job is the least match after now |
| Service.CreatedRetriesIff | Src/Service/service.cpp:151-156 | the retry bound holds over every run that starts with a created job, if and only if the `max_retries` sent is not negative as an int |
| Service.FailedCronIff | Src/Service/service.cpp:97-107 | one day set full: an accepted cron body gets a run time after now at every now, if and only if some allowed month has an allowed day and that is not 29 February alone |
| Service.NeverRuns | Src/Service/service.cpp:97-107 | the body with ` 0 0 30 2 *` is accepted and its run time is INVALID_TIME at every now |
| Examples.LateJobReportedAtOnce | Src/Repository/database.cpp:67 | a body with a run time of 2^31 is accepted and its job is reported by every tick from the start |
| Examples.NegativeRetriesAccepted | Src/Service/service.cpp:153-156 | a body with a negative `max_retries` is accepted and breaks the retry bound when its job is inserted |
| Service.FailedCronIsDue | Src/Service/service.cpp:97-107 | over every run that leaves it alone, a job whose search failed is reported by every tick |
| Scheduler.SchedulerLoop | Src/Scheduler/scheduler.cpp:10-22 | the loop, with requests served in between in any order, reports the log of the rounds |
| Scheduler.TickReportsExactly | Src/Scheduler/scheduler.cpp:12-19 | over every interleaving, each tick reports exactly the rows there, ACTIVE and due at its clock, each once |
| Scheduler.JobReportedOnTime | Src/Scheduler/scheduler.cpp:12-19 | a job left alone is reported by a tick exactly when its clock has reached the stored run time, whatever is done to other jobs |
| Scheduler.CronJobReported | Src/Scheduler/scheduler.cpp:12-19 | from request to report: a cron job on reliable sets is reported by a tick exactly when a matching instant after its creation has come |

## Left out

- Time zones, daylight saving, `tm_isdst` and `tm_yday`: local time is a fixed offset from UTC, taken as zero.
- Instants before the epoch, where -1 is both a time and the error value of `mktime`, and the widths of `time_t` and
  `tm_year`, which are unbounded here.
- Exact.ExactIffAny: sets with a hidden move off a matching midnight in an allowed month are not exact (`SoundIff`,
  `ExactNeedsSound`); sets without one, but with a hidden move that ends on the 366-day cap in a month that is not
  allowed, are sound, and no condition for exact answers is given for them.
- The oracle and quartz traits, which the service does not use, and the overloads of `cron_next` on `std::tm` and on
  time points.
- `to_tm`, `to_string`, `to_cronstr` and the comparison of expressions: easy members beside the search.
- Error message texts: errors are enumerated by kind.
- `std::toupper` outside ASCII, and an `unsigned long` of other than 64 bits.
- SQLite itself: prepare, bind and step errors, disk failure, ids beyond 32 bits and NUL characters in text columns.
  Each statement succeeds and is atomic together with the count of changed rows or the row id read after it.
- `select_all_jobs` and the printing of jobs: the due query is the same scan with a condition.
- The HTTP routes, among them the assignment `job.id = -1` in the route that creates tasks. A handler is the
  repository call it makes.
- JSON text: a body is a map of parsed values, each with the integer its number accessor reads. Bodies that are not
  objects are not modelled.
- The one-second sleep and the clock: the times that the ticks read are arbitrary.