# Verification of the DCM agent's schedules, archives and log directories

A Dafny model of five parts of the DCM agent and the proofs of what they promise. `dafny verify dfyconfig.toml`
checks all of it.

## What is modelled

**The cron compiler and the next-fire search** (`dcm_cronparse.c`). `gregorian.dfy` is the calendar of `timegm`
and `gmtime_r` (Seconds Since the Epoch, section 4.16 of the Base Definitions of IEEE Std 1003.1-2017, over
unbounded years). `bitsets.dfy`, `cronparse.dfy` and `cronengine.dfy` are the program: bits in byte arrays, the
two-pass splitter, the fields, and the recursive search over a broken-down time that is updated in place.
`cronsearch.dfy` is the same search as a function on instants; each method of the program is proved equal to it.
`crontheorems.dfy`, `cronexact.dfy` and `cronregimes.dfy` say what that function computes, and `cronlanguage.dfy`
says it on the text of an expression. `crontexts.dfy` says what whole texts compile to, field by field, with
literal names and bounds.

The search is not correct for every expression, and the project says when it is. Four things can go wrong. The
day step compares days of the month only, the month step sets the month before it clears the day, and the seconds
step never restarts the search: for each there is a guard (`DayStepSafe`, `MonthStepSafe`, `SecondStepSafe`), and
`CronExact.CorrectToHorizonIffSafe` proves that, as far as the search looks ahead, it is correct from every date
if and only if all three hold. The fourth is the look-ahead itself: the search gives up after four years, and
across 2100 leap days are eight years apart. `cronhorizon.dfy` states the promise in full, with INVALID only when
no match ever comes. With at most one day mask restricted `CronHorizon.CorrectIff` is exact: the three guards,
and the masks do not ask for leap days only. With both day masks restricted the guards and a real date in every
four consecutive years are enough, and the guards and a real date up to the first accepted day of the fifth year
are needed. `cronregimes.dfy` and `cronhorizon.dfy` read the conditions off the masks or off one 400-year cycle,
and `cronexamples.dfy` has a concrete expression and date for each of the four failures. The documentation
(`README.md` of the agent) promises the next instant at which the expression fires without these conditions;
the model follows the code. The documentation also speaks of six-field expressions; the code accepts five fields
too, and so does the model.

**The scheduler thread** (`dcm_schedjob.c`). `scheduler.dfy` is a labelled transition system: program counters
of one worker and any number of controllers, the mutex, the condition variable, the two flags, the masks and
a clock. Waiting is three steps (release, wake or time out, retake), wake-ups may be spurious, a controller's
call is several steps, and a failed parse leaves arbitrary masks behind. The labels are the events of a run.
`schedulerruns.dfy` proves an invariant over every interleaving and draws whole-run theorems from it, composed
with the theorems on the search. `schedulerpaths.dfy` proves what can still happen: from every reachable state
nothing is stuck, and the job can fire, come to rest or be removed. `schedulerexamples.dfy` has the ordinary
start-up as a run, and shows that the bound on callbacks after a stop is reached. A start that fails to parse clears `startSched` without a signal, so the alarm that is armed then
still runs its callback; `SchedulerRuns.BoundedStop` covers it. When the search gives up, the deadline that is armed
lies in the past and the callback begins at once, again and again; `SchedulerExamples.February30RunsAtOnce` has
such runs.

**The tar writer** (`archive_manager.c`). `tar.dfy` has the bytes of a header, an entry and an archive, and a
reader of the ustar Interchange Format (pax utility, IEEE Std 1003.1-2017); `tarwriter.dfy` is the program,
which fills a header in place, sums it, copies files in chunks and visits directories recursively. The reader is
written with the literal bytes of the standard. `tarlisting.dfy` says what an archive contains by the positions
of the tree.

**Log rotation and timestamp prefixes** (`backup_engine.c`, `file_operations.c`). `filesystems.dfy` is a
mutable file system whose directories are read in any order; a file that appears while a directory is read
may be seen or not. `rotation.dfy` and `rotationruns.dfy` are the move with prefixes and the boots over it,
`timestamps.dfy` the stamping and its removal. The low-level design of the backup logs moves only names of
certain patterns and gives up at the first failure; the code moves every regular file and goes on, and the
model follows the code.

**The base64 encoder** (`md5_utils.c`), in `base64.dfy`, with a decoder of section 4 of RFC 4648.

Where the program updates something in place the model does too (classes, arrays, loops); every such method is
proved against a function, and the theorems are about the function.

## Model

| member | source | states |
|---|---|---|
| `Gregorian.DateRoundTrip` | dcm_cronparse.c:346-354 | a valid calendar date survives the trip through its day number and back |
| `Gregorian.DayRoundTrip` | dcm_cronparse.c:346-354 | every day number has a valid date, and that date has this day number |
| `Gregorian.DayNumberLaw` | dcm_cronparse.c:346-354 | the day number of every date, by a formula that names no month table: years from 1 March, months in turns of 153 days in five |
| `Gregorian.DateOrder` | dcm_cronparse.c:346-354 | day numbers are ordered as year, month and day of month are, lexicographically |
| `Gregorian.NextDay` | dcm_cronparse.c:575-608 | the next day is one day-of-month later, or the first of the next month, or January 1 of the next year, with the weekday one further modulo 7 |
| `Gregorian.DaysLater` | dcm_cronparse.c:575-608 | where the date goes when `k` days are added within the month or into the next one |
| `Gregorian.FourCenturies` | dcm_cronparse.c:346-354 | dates and weekdays repeat after 146097 days, exactly 400 years |
| `Gregorian.EveryDateComes` | dcm_cronparse.c:706-727 | every day of the month falls on every weekday at some time after any given day |
| `CronEngine.NormalIsFixed` | dcm_cronparse.c:346-354 | normalising a normalised broken-down time changes nothing, and it denotes the instant it came from |
| `CronEngine.Calendar.Mktime` | dcm_cronparse.c:346-349 | the instant of the fields, with every field carried, left normalised in place |
| `CronEngine.Calendar.SetField` | dcm_cronparse.c:436-471 | puts the value and normalises at once; an unknown field is an error and changes nothing |
| `CronEngine.Calendar.ResetMin` | dcm_cronparse.c:383-418 | puts the least value of the field (1 for a day of the month) and normalises at once |
| `CronEngine.Calendar.AddToField` | dcm_cronparse.c:575-607 | adds to the field and normalises at once |
| `CronEngine.PushToFieldsArr` | dcm_cronparse.c:558-573 | the list of fields to clear gets the field once, after those already in it |
| `CronEngine.ResetAllMin` | dcm_cronparse.c:420-434 | clears the listed fields in order, each clearing normalised before the next |
| `CronEngine.FindNext` | dcm_cronparse.c:675-704 | the step of one field: the next accepted value, or the least one after a carry into the next field, with the lower fields cleared when anything moved |
| `CronEngine.FindNextDay` | dcm_cronparse.c:706-727 | turns the calendar day by day, clearing the lower fields, to the first day within 366 that both day masks accept |
| `CronEngine.PlusOne` | dcm_cronparse.c:575-607 | adding one to the second, minute, hour or day field and normalising is moving the instant by one second, minute, hour or day, across every boundary |
| `CronEngine.ClearedIsReset` | dcm_cronparse.c:420-434 | clearing the listed fields one by one, each normalised, equals clearing them at once |
| `CronEngine.MonthStepLanding` | dcm_cronparse.c:675-704 | setting the month before the day is cleared, as the code does, lands on the month of the search function, even when the month lacks the day |
| `CronEngine.DoNext` | dcm_cronparse.c:729-835 | the in-place recursive search ends, for every accepted expression and start, with the instant of `CronSearch.Search` or with failure exactly when that has none |
| `CronEngine.DoHour` | dcm_cronparse.c:780-792 | the part of the search from the hours on equals `CronSearch.FromHour` |
| `CronEngine.DoDay` | dcm_cronparse.c:794-821 | the part of the search from the day on, with the blind comparison of days of the month and the horizon test, equals `CronSearch.FromDay` |
| `CronEngine.GetNext` | dcm_cronparse.c:845-869 | the method on broken-down time and byte masks returns `CronTheorems.NextFire` of the sets of set bits |
| `CronEngine.TimeLanding` | dcm_cronparse.c:675-704 | the step of a second, minute or hour field on the calendar equals the step on instants, carry included |
| `CronEngine.MinuteLanding` | dcm_cronparse.c:766-778 | the minutes step on the calendar equals the minutes step on instants |
| `CronEngine.HourLanding` | dcm_cronparse.c:780-792 | the hours step on the calendar equals the hours step on instants |
| `CronSearch.Search` | dcm_cronparse.c:729-835 | the search as a function; it is defined for every accepted expression because every restart is closer to a horizon fixed by the start year; what it returns is not before its start |
| `CronSearch.FromHour` | dcm_cronparse.c:780-792 | the search from the hours on, with the same guarantee |
| `CronSearch.FromDay` | dcm_cronparse.c:794-806 | the search from the day on, with the same guarantee |
| `CronSearch.FromMonth` | dcm_cronparse.c:808-821 | the search from the month on: restarts only within four years of the start year |
| `CronSearch.HorizonExists` | dcm_cronparse.c:814-818 | past the fourth year there is always a day that both day masks accept, whatever the masks |
| `CronSearch.MinuteStepFacts` | dcm_cronparse.c:766-778 | a minutes step that moves goes forward and stays below the horizon |
| `CronSearch.DayStepFacts` | dcm_cronparse.c:794-806 | a day step that moves goes forward and stays below the horizon |
| `CronSearch.MonthStepFacts` | dcm_cronparse.c:808-821 | a month step that moves goes forward, even when it overflows into a later month |
| `CronSearch.MonthTargetFacts` | dcm_cronparse.c:692-696 | where the month step lands: the first of the accepted month, or the first of the month after it when the month lacks the day |
| `CronTheorems.AtIsInstant` | dcm_cronparse.c:351-354 | the fields of an instant are valid and denote that instant |
| `CronTheorems.InstantIsAt` | dcm_cronparse.c:346-349 | the instant of valid fields has those fields |
| `CronTheorems.SoundIffDayStepSafe` | dcm_cronparse.c:706-868 | for every accepted expression: every result but the invalid instant satisfies all six masks, from every date, if and only if the day step is safe (whenever it moves to an equal day-of-month, the month is refused or midnight matches) |
| `CronTheorems.NextFireIsSound` | dcm_cronparse.c:706-868 | with a safe day step every result satisfies all six masks |
| `CronTheorems.SearchIsSound` | dcm_cronparse.c:729-835 | the same for the search from any reachable calendar, whatever chain of resets and restarts |
| `CronTheorems.UnsoundDate` | dcm_cronparse.c:800-806 | without a safe day step there is a date whose result breaks a mask |
| `CronTheorems.SearchIsLeast` | dcm_cronparse.c:729-835 | with safe steps the search passes over no match; when it fails there is none before the fifth year |
| `CronTheorems.NextFireIsLeast` | dcm_cronparse.c:845-869 | with safe steps the result is the least later match, or INVALID and there is none before the fifth year after the year of the date, where the search stops looking |
| `CronTheorems.Progress` | dcm_cronparse.c:845-869 | for every accepted expression the result is the invalid instant or strictly later than the date |
| `CronHorizon.CorrectIff` | dcm_cronparse.c:729-869 | for every accepted five- or six-field expression with at most one day mask restricted: from every date the result is the least later match, or INVALID with no later match at all, if and only if the seconds, day and month steps are safe and the masks do not ask for leap days only |
| `CronHorizon.SafeIsCorrect` | dcm_cronparse.c:729-869 | for every accepted expression, both day masks restricted or not: safe steps, and real dates in every four consecutive years or never, give the same full promise from every date |
| `CronHorizon.CorrectIsSafe` | dcm_cronparse.c:729-869 | an expression with the full promise from every date has three safe steps |
| `CronHorizon.CorrectIsInReach` | dcm_cronparse.c:814-818 | an expression with the full promise never has a real date, or has one from every day on up to the first day that its day masks accept in or after the fifth year |
| `CronHorizon.LeapDayOutOfReach` | dcm_cronparse.c:814-818 | a search for leap days only has none in reach from 1 March 2096 |
| `CronHorizon.RealUnlessLeapDay` | dcm_cronparse.c:814-818 | with at most one day mask restricted real dates come in every four years or never, unless the masks ask for leap days only |
| `CronHorizon.RealDatesAreFinite` | dcm_cronparse.c:814-818 | whether real dates come in every four years, and whether they come at all, is decided by one 400-year cycle |
| `CronExact.CorrectToHorizonIffSafe` | dcm_cronparse.c:729-869 | for every accepted expression, with an INVALID result excused when no match comes before the fifth year after the year of the date: correct from every date if and only if the seconds, day and month steps are safe |
| `CronExact.SkippedMonth` | dcm_cronparse.c:692-696 | without a safe month step there is a date from which a match is passed over |
| `CronExact.SkippedSecond` | dcm_cronparse.c:756-764 | without a safe seconds step there is a date from which a match is passed over |
| `CronExact.SafeIsCorrectToHorizon` | dcm_cronparse.c:729-869 | the three guards together make the result correct from every date, as far as the search looks ahead |
| `CronRegimes.LeastFire` | dcm_cronparse.c:675-869 | with second mask {0}, at most one day mask restricted, and all months allowed or only days up to 28 with all weekdays: the least later match, and there always is one |
| `CronRegimes.OneRestrictedIsDayStepSafe` | dcm_cronparse.c:706-727 | with at most one day mask restricted the blind comparison of days of the month is harmless |
| `CronRegimes.RegimeIsMonthStepSafe` | dcm_cronparse.c:692-696 | with all months, or days up to 28 and all weekdays, no overflow of the month step matters |
| `CronRegimes.NoRealDate` | dcm_cronparse.c:814-821 | an expression that no real date satisfies yields the invalid instant from every date, when its day step is safe |
| `CronRegimes.February30` | dcm_cronparse.c:814-821 | 30 February yields the invalid instant from every date |
| `CronRegimes.DayStepSafeIsFinite` | dcm_cronparse.c:794-806 | safety of the day step is decided by one 400-year cycle |
| `CronRegimes.MonthStepSafeIsFinite` | dcm_cronparse.c:692-696 | safety of the month step is decided by the days of one 400-year cycle |
| `CronRegimes.SecondStepSafeIff` | dcm_cronparse.c:756-764 | the seconds step is safe if and only if the accepted seconds are one interval, or all other masks are full, or no real date is accepted |
| `CronExamples.FridayThirteenthAtMidnight` | dcm_cronparse.c:800-806 | `0 5 13 * 5` from 2015-01-13 05:00: the result is midnight of 13 February, which the hours mask refuses |
| `CronExamples.FebruarySkipped` | dcm_cronparse.c:692-696 | `0 0 5,31 2 *` from 31 January: 5 February matches and is passed over |
| `CronExamples.LeapDayGivenUp` | dcm_cronparse.c:814-818 | `0 0 29 2 *` from 1 March 2096: all three steps are safe, the result is INVALID, and the leap day of 2104 matches |
| `CronExamples.FirstSecondSkipped` | dcm_cronparse.c:756-764 | `0,30 0 * * * *` from 00:01:15: 01:00:30 is returned though 01:00:00 matches |
| `BitSets.BitPlaces` | dcm_cronparse.c:237-248 | which bits some literal bytes have: bit k of a byte is worth two to the k |
| `BitSets.SetBit` | dcm_cronparse.c:338-344 | the set of set bits gains exactly the index |
| `BitSets.DelBit` | dcm_cronparse.c:250-256 | the set of set bits loses exactly the index |
| `BitSets.GetBit` | dcm_cronparse.c:237-248 | whether the index is in the set of set bits |
| `BitSets.NextSetBit` | dcm_cronparse.c:258-271 | the least set bit from an index on below the bound, or none |
| `CronParse.TokensArePieces` | dcm_cronparse.c:119-195 | the tokens are exactly the pieces between delimiters, in order, without white space and without the empty ones; none holds white space or the delimiter |
| `CronParse.CountTokens` | dcm_cronparse.c:136-152 | the first pass counts the tokens, for every string and delimiter |
| `CronParse.StrSplit` | dcm_cronparse.c:119-195 | the second pass stores as many tokens as the first counted, all stores in bounds; long or empty text gives none |
| `CronParse.GetRange` | dcm_cronparse.c:273-336 | bounds within the field for `*`, `a` and `a-b`; failure for everything else, reversed or out-of-field ranges included |
| `CronParse.SetNumberHits` | dcm_cronparse.c:473-556 | adds exactly the values of the field to the mask and reports failure exactly when a part is malformed; the parts before it stay set |
| `CronParse.SetEvery` | dcm_cronparse.c:542-544 | the stepping loop sets exactly lo, lo+step, ... up to hi |
| `CronParse.SetMonths` | dcm_cronparse.c:609-633 | the in-place shift: bit m is set exactly when m+1 was listed |
| `CronParse.SetDaysOfWeek` | dcm_cronparse.c:635-657 | the weekdays of the field, 7 folded onto 0 |
| `CronParse.SetDaysOfMonth` | dcm_cronparse.c:659-669 | the days of the field, `?` read as `*` |
| `CronParse.MonthBitsFacts` | dcm_cronparse.c:625-631 | month bit m holds exactly when m+1 was listed, and the mask lies in 0..11 and is not empty |
| `CronParse.WeekdayBitsFacts` | dcm_cronparse.c:651-655 | weekday bit w holds exactly when w was listed, or w is 0 and 7 was; the mask lies in 0..6 and is not empty |
| `CronParse.CompiledIsAccepted` | dcm_cronparse.c:879-939 | every mask of an accepted expression is non-empty and within its field |
| `CronParse.ParseExp` | dcm_cronparse.c:879-939 | the byte masks of an accepted expression are its compilation; failure exactly when it has none |
| `CronLanguage.FieldDenotes` | dcm_cronparse.c:473-556 | a field is accepted exactly when it is short enough, has parts and all are well formed; bit i is set exactly when some part names i |
| `CronLanguage.PartForms` | dcm_cronparse.c:273-336 | what `a`, `a-b`, `a/n`, `a-b/n` and `*/n` mean as bounds and step, for all decimal numbers; a step without a range runs to the end of the field |
| `CronLanguage.StarIsAll` | dcm_cronparse.c:284-287 | `*` accepts every value of its field |
| `CronLanguage.NumbersAreKept` | dcm_cronparse.c:356-381 | texts without letters pass unchanged through upper-casing and the replacement of names |
| `CronLanguage.NamesAreOrdinals` | dcm_cronparse.c:356-381 | every month and weekday name becomes its own number |
| `CronTexts.SixFields` | dcm_cronparse.c:903-935 | `s mi h d mo w` of numbers, or names in the months and weekdays fields, compiles to exactly second s, minute mi, hour h, day d, month mo-1 and weekday w mod 7; and is rejected exactly when a number is outside its field or the text has 256 characters or more |
| `CronTexts.FiveFields` | dcm_cronparse.c:903-935 | the same for `mi h d mo w`, with second 0 |
| `CronTexts.FourNumbers` | dcm_cronparse.c:903-935 | `mi h d mo *` accepts every weekday |
| `CronTexts.FebruaryTexts` | dcm_cronparse.c:879-939 | what `0 0 29 2 *` and `0 0 30 2 *` compile to |
| `CronTexts.OtherTexts` | dcm_cronparse.c:879-939 | what `15 30 2 4 6 1` and `0 0 1 jun FRI` compile to |
| `CronTexts.MonthNames` | dcm_cronparse.c:64-69 | each of the twelve month names, in capitals and small letters, stands for its own number |
| `CronTexts.DayNames` | dcm_cronparse.c:64-66 | each of the seven weekday names, in capitals and small letters, stands for its own number |
| `CronTexts.NumberTexts` | dcm_cronparse.c:82-96 | a text is read as the number v exactly when it is white space, a sign or none, and digits that write v, with v from 0 to 2147483647; the empty text reads as 0 |
| `CronTexts.OtherParts` | dcm_cronparse.c:473-545 | a plus sign changes nothing; a third bound, a second step, a negative step, and a missing bound or step make a part rejected, for all decimal numbers |
| `CronTexts.WrongCount` | dcm_cronparse.c:895-899 | four fields and seven fields are rejected, whatever they are |
| `CronTexts.TokensKeep` | dcm_cronparse.c:119-195 | the tokens together are the text without the delimiter and without blank, tab, newline, vertical tab, form feed and carriage return; nothing else is lost |
| `CronLanguage.FiveFieldPromise` | dcm_cronparse.c:845-939 | on the text: five fields, `*` or `?` for one of the day fields and `*` for the months give the least later match from every date |
| `SchedulerRuns.StateSafe` | dcm_schedjob.c:48-126 | the invariant holds in every state of every interleaving |
| `SchedulerRuns.EventAllowed` | dcm_schedjob.c:48-126 | every event of every interleaving is allowed after the events before it |
| `SchedulerRuns.StepSafe` | dcm_schedjob.c:48-126 | every step of every thread keeps the invariant and says only what is allowed |
| `Scheduler.ArmsSafe` | dcm_schedjob.c:80-87 | arming uses the compilation of the pattern last started, and its instant is later than every instant served so far |
| `Scheduler.FiresSafe` | dcm_schedjob.c:104-117 | a callback begins only after its deadline, for the alarm last armed, not after termination |
| `Scheduler.TakesMutexSafe` | dcm_schedjob.c:55-96 | retaking the mutex after a wait keeps the invariant, though any controller may have run in the gap |
| `Scheduler.ParsesSafe` | dcm_schedjob.c:154-155 | a start that overwrites the masks while `startSched` is set keeps the invariant, because it still has the mutex |
| `Scheduler.TerminatesSafe` | dcm_schedjob.c:278-281 | `terminated` is set only while no callback is in progress |
| `SchedulerRuns.ExpressionIsInstalled` | dcm_schedjob.c:154-166 | with the mutex free and `startSched` set, the masks are the complete compilation of the pattern of the last successful start, all six non-empty |
| `SchedulerRuns.NoLostWakeUp` | dcm_schedjob.c:55-78 | with the mutex free and no signal pending, a worker in the untimed wait implies `startSched` and `terminated` unset; in the timed wait, `terminated` unset |
| `SchedulerRuns.WakeUpIsSent` | dcm_schedjob.c:155-166 | whenever the untimed wait is to end, a signal is pending or a controller is about to send it |
| `SchedulerRuns.NoCallbackAfterRemove` | dcm_schedjob.c:278-289 | every callback of a run begins and ends before `terminated` is set |
| `SchedulerRuns.FreedAfterExit` | dcm_schedjob.c:281-289 | the object is freed only after the worker has exited, and the worker never comes back |
| `SchedulerRuns.NothingArmedAfterStop` | dcm_schedjob.c:154-192 | after `startSched` is cleared nothing is armed until a start succeeds |
| `SchedulerRuns.BoundedStop` | dcm_schedjob.c:65-125 | between a clearing of `startSched` and the next successful start at most one callback begins, and it is the one of the alarm armed at the clearing |
| `SchedulerPaths.NothingIsStuck` | dcm_schedjob.c:55-126 | in every reachable state a worker that has the mutex, or waits for it while it is free, can take a step; a blocked worker can wake at any time; a controller that has the mutex, or wants it while it is free, or joins an exited worker, can take a step |
| `SchedulerPaths.CanAlwaysFire` | dcm_schedjob.c:55-166 | from every reachable state in which the job is not being removed, and for every pattern that compiles, a continuation starts the job, arms for the pattern and begins its callback |
| `SchedulerPaths.CanAlwaysRest` | dcm_schedjob.c:65-192 | from every such state a continuation stops the job and brings the worker to rest in the untimed wait |
| `SchedulerPaths.CanAlwaysRemove` | dcm_schedjob.c:55-290 | from every such state a continuation sets `terminated`, lets the worker exit and frees the object |
| `SchedulerPaths.CanAlwaysExit` | dcm_schedjob.c:55-107 | from every reachable state with `terminated` set the worker can exit |
| `SchedulerPaths.MutexBecomesFree` | dcm_schedjob.c:55-190 | from every sound state the holder of the mutex can go on until it is free |
| `SchedulerExamples.FiresFromTheWait` | dcm_schedjob.c:65-117 | the ordinary start-up, for every pattern that compiles: a run in which the worker is blocked in the untimed wait, then the job is started, the worker arms for the pattern and the callback begins |
| `SchedulerExamples.OneCallbackAfterStop` | dcm_schedjob.c:93-117 | the bound is reached: for every pattern that compiles a run has a callback after a stop |
| `SchedulerRuns.FireOrder` | dcm_schedjob.c:80-124 | the cron instant of a callback, when the search found one, is later than that of every callback before it, over the whole run and whatever is started and stopped in between |
| `SchedulerRuns.FireIsArmed` | dcm_schedjob.c:80-117 | every callback runs at or after the deadline armed last; its instant is the next one, at arming time, of the pattern last started then, and satisfies its masks when the day step is safe; when the search gave up, the deadline lies before 1970 |
| `SchedulerRuns.GivenUpFires` | dcm_schedjob.c:80-117 | with a safe day step and no real date every callback of the pattern has no cron instant and a deadline before 1970 |
| `SchedulerExamples.February30RunsAtOnce` | dcm_schedjob.c:80-117 | for `0 0 30 2 *` and every number there is a run with that many callbacks while the clock stands still |
| `Tar.ArchiveRoundTrip` | uploadstblogs/src/archive_manager.c:363-591 | a reader of the ustar Interchange Format recovers exactly the entries written, as far as they are kept |
| `Tar.ArchiveRoundTripIff` | uploadstblogs/src/archive_manager.c:363-591 | for all entries with C strings for names: the archive reads back as the entries, as far as they are kept, if and only if every size fits its field |
| `Tar.ReadLarge` | uploadstblogs/src/archive_manager.c:504-507 | a file whose size does not fit is read cut short, if the stream can be read at all |
| `Tar.KeptWhole` | uploadstblogs/src/archive_manager.c:484-512 | an entry is kept whole if and only if name and target have at most 99 bytes, the mode nine bits and the time at most eleven octal digits |
| `Tar.ArchiveIsInjective` | uploadstblogs/src/archive_manager.c:484-591 | different sequences of entries that are kept whole give different archives |
| `Tar.ArchiveShape` | uploadstblogs/src/archive_manager.c:761-771 | an archive is a whole number of 512-byte blocks and ends in two blocks of zeros |
| `Tar.ChecksumIsRight` | uploadstblogs/src/archive_manager.c:465-479 | the checksum always fits six octal digits, stands as digits, NUL, space, and is the one the reader computes |
| `Tar.OtherFields` | uploadstblogs/src/archive_manager.c:484-512 | the literal bytes of a header: type flag 50 for links and 48 otherwise, magic and version, zero user and group, NULs after the version |
| `Tar.ShownIsNumber` | uploadstblogs/src/archive_manager.c:490-506 | a number printed into a field reads back as itself if and only if it has no more octal digits than the field holds |
| `Tar.ReadPacked` | uploadstblogs/src/archive_manager.c:484-591 | one header with its padded content is read as one entry in front of any stream |
| `Tar.ReadEntries` | uploadstblogs/src/archive_manager.c:596-660 | entries in sequence are read in sequence in front of any readable stream |
| `TarWriter.TarHeader.CalculateTarChecksum` | uploadstblogs/src/archive_manager.c:465-479 | leaves spaces in the checksum field, nothing else changed, and returns the sum of all 512 bytes |
| `TarWriter.TarHeader.Fill` | uploadstblogs/src/archive_manager.c:486-509 | the fields filled in place are those of the header of the entry |
| `TarWriter.WriteTarHeader` | uploadstblogs/src/archive_manager.c:484-517 | the stream grows by the header of the entry |
| `TarWriter.AddFileToTar` | uploadstblogs/src/archive_manager.c:522-591 | the stream grows by the header, the whole content copied in chunks, and the padding |
| `TarWriter.AddDirectoryToTar` | uploadstblogs/src/archive_manager.c:596-660 | the stream grows by the entries of the tree under their paths relative to the base, in directory order; a directory that cannot be opened ends the visit |
| `TarListing.ArchivedIff` | uploadstblogs/src/archive_manager.c:596-660 | for a tree that could be visited, an entry is archived if and only if some file or link with its path, nine mode bits, time and content or target stands in the tree, neither it nor a directory on the way being `.`, `..` or the excluded path |
| `TarListing.ArchiveContents` | uploadstblogs/src/archive_manager.c:596-660 | the entries are those of the files and links that are met, each once, in directory order, none missing; the visit succeeds exactly when every directory that is met can be opened |
| `TarWriter.ArcNameIsRelative` | uploadstblogs/src/archive_manager.c:630-634 | cutting the base off a full path leaves the relative path |
| `TarWriter.CreateArchive` | uploadstblogs/src/archive_manager.c:758-793 | an archive is left exactly when the whole tree could be visited, and then reads back as the entries of the tree |
| `Rotation.BackupAndRecoverLogs` | backup_logs/src/backup_engine.c:349-504 | unless names clash, exactly the files with the prefix whose copies succeed end under the new prefix, in any directory order and even if moved files are seen again; success unless all of some matching files failed |
| `Rotation.OneMore` | backup_logs/src/backup_engine.c:472-482 | one more copied and removed file leaves the result of the move of one more name |
| `Rotation.RemainingIsSuffix` | backup_logs/src/backup_engine.c:443-453 | cutting directory and prefix off the path leaves the rest of the name |
| `Rotation.OpenLogsStay` | backup_logs/src/backup_engine.c:396-402 | after a move to another directory `backup_logs.log` and `backup_logs.log.0` are where they were |
| `Rotation.OtherLogsMove` | backup_logs/src/backup_engine.c:389-482 | every other file with the prefix is under its new name, and gone from another directory |
| `RotationRuns.ExecuteHddDisabledStrategy` | backup_logs/src/backup_engine.c:245-346 | a boot turns the four generations into those that `Boot` tells, leaves the log directory empty and `last_reboot` in the backup directory |
| `RotationRuns.Store` | backup_logs/src/backup_engine.c:280-301 | the four presence tests send the logs to the generation that `Boot` tells |
| `RotationRuns.Shift` | backup_logs/src/backup_engine.c:297-299 | every generation moves whole to the one before it and the newest is left empty; nothing outside the directory changes |
| `RotationRuns.OldestJoins` | backup_logs/src/backup_engine.c:297 | the oldest prefixed generation overrides the unprefixed logs and its prefix is left empty |
| `RotationRuns.GenerationMoves` | backup_logs/src/backup_engine.c:298-299 | a generation moves whole into an empty one, all other names staying |
| `RotationRuns.Generations` | backup_logs/src/backup_engine.c:280-301 | after n >= 4 boots with `messages.txt` the last three are under bak3_, bak2_ and bak1_ and the unprefixed names hold all earlier boots, later over earlier; also for fewer boots |
| `RotationRuns.RunBoots` | backup_logs/src/backup_engine.c:245-346 | the same for the file system itself, over any number of boots and every directory order; from the fourth boot on name by name, with the literal prefixes, for files other than the two active logs |
| `RotationRuns.ArrangedIsInPlace` | backup_logs/src/backup_engine.c:280-301 | what is under `bak3_`, `bak2_`, `bak1_` and the plain names, name by name, from the logs of the boots |
| `RotationRuns.GenerationsMix` | backup_logs/src/backup_engine.c:280-301 | after a boot without `messages.txt` the next boot is mixed into its generation |
| `RotationRuns.CleanUp` | backup_logs/src/backup_engine.c:319-342 | everything is removed from the log directory and nothing elsewhere |
| `Timestamps.Stamper.AddTimestampToFiles` | uploadstblogs/src/file_operations.c:341-429 | when no entry carries the stamp, exactly the eligible names get it, in any order and even if stamped names are seen again; the stamp is stored |
| `Timestamps.Stamper.RemoveTimestampFromFiles` | uploadstblogs/src/file_operations.c:440-540 | with or without a stored stamp: when no cut names meet, every name that is to be cut is found under what is left of it and all else is as it was; with a stored stamp that no entry carries twice, those are the names that carry it |
| `Timestamps.Stamper.StampRoundTrip` | uploadstblogs/src/file_operations.c:341-540 | adding and removing gives back exactly the files there were, if and only if no entry carried the stamp |
| `Timestamps.RestartRoundTrip` | uploadstblogs/src/file_operations.c:341-540 | when the stored stamp is lost between the two, the pattern still gives the files back, provided it recognises the stamps and no name looks stamped by itself |
| `Timestamps.StoredDoesNotMeet` | uploadstblogs/src/file_operations.c:481-483 | with a stored stamp names meet only when one carries it twice |
| `Timestamps.WhoIsStamped` | uploadstblogs/src/file_operations.c:384-396 | names that begin with a dot, `bak1_`, `bak2_` or `bak3_` keep their place; every other name gets the stamp |
| `Timestamps.StampSays` | uploadstblogs/src/file_operations.c:357-358 | a stamp says month, day, year, hour on a clock of twelve, minute, and AM or PM, in this order |
| `Timestamps.NothingOverwritten` | uploadstblogs/src/file_operations.c:388-424 | stamping loses no file: each is where it was or under its stamped name |
| `Timestamps.StampedThenPeeled` | uploadstblogs/src/file_operations.c:341-540 | the files after stamping and peeling are the files before |
| `Timestamps.StampIsStamp` | uploadstblogs/src/file_operations.c:357-358 | every stamp has 17 characters with dashes and AM or PM where the fallback looks for them |
| `Timestamps.CutStored` | uploadstblogs/src/file_operations.c:481-483 | with a stored stamp exactly the longer names that start with it are cut, by its length |
| `Timestamps.CutByPattern` | uploadstblogs/src/file_operations.c:484-500 | without a stored stamp the pattern cuts exactly the stamp if and only if three characters follow and, after a PM stamp, `AM-` is not among them |
| `Base64.RoundTrip` | uploadstblogs/src/md5_utils.c:42-68 | decoding by section 4 of RFC 4648 gives back every input |
| `Base64.Canonical` | uploadstblogs/src/md5_utils.c:42-68 | what the decoder accepts is exactly what the encoder writes |
| `Base64.Injective` | uploadstblogs/src/md5_utils.c:42-68 | different inputs have different encodings |
| `Base64.Base64Encode` | uploadstblogs/src/md5_utils.c:42-68 | all writes in bounds; success exactly when there is room for the characters and the NUL; then the buffer holds the encoding and the NUL and nothing else changed |
| `Base64.SextetsOfTriple` | uploadstblogs/src/md5_utils.c:58-61 | the shifted and masked sextets are those that section 4 of RFC 4648 makes of three bytes |

## Left out

- CronEngine.GetNext: dates before 1970, and the 32-bit `UINT32` difference `tm_year - dot`, which agrees with the model's integers while the year does not decrease; `time_t` and `struct tm` do not overflow.
- CronEngine.DoNext: the body is one function in the source and three methods here; allocation of the calendar and of the `resets` array cannot fail.
- CronParse.StrSplit: NULL arguments and failing allocation; freeing the tokens.
- CronParse.ParseExp: which bits a rejected expression leaves set is not stated (the scheduler is proved for any).
- CronLanguage.NamesAreOrdinals: `dcmCronParseStrReplace` and `dcmCronParseToUpper` are functions on strings, not pointer loops over buffers.
- CronRegimes.LeastFire: five-field expressions whose day or month masks lie outside the regime; for those `CronHorizon.CorrectIff` gives the exact condition.
- CronHorizon.SafeIsCorrect: with both day masks restricted it is enough but not needed that a real date comes in every four years; what `CronHorizon.CorrectIsInReach` shows to be needed is less by the last accepted day, which the search reaches or not depending on where its month steps and its day steps of at most 366 days have stopped before.
- CronExact.CorrectToHorizonIffSafe: a match after the fifth year is not promised; `CronHorizon.CorrectIff` promises it.
- Tar.ReadPacked: files of 8 GiB and more, whose size field is cut; `Tar.ArchiveRoundTripIff` says that these, and only these, break the round trip.
- Tar.ArchiveRoundTrip: the same files.
- TarWriter.AddFileToTar: compression, write errors, and files that change size while they are archived.
- TarWriter.AddDirectoryToTar: paths longer than the path buffer; entries that cannot be opened or read are skipped, as in the source, without the log messages.
- Rotation.BackupAndRecoverLogs: nothing is stated of names that clash (a moved file landing on a name still to be moved), where the result depends on the directory order; directories, symbolic links, over-long paths and failing removals are not modelled.
- RotationRuns.ExecuteHddDisabledStrategy: copies succeed, and logs and generations contain no names that already start with bak1_, bak2_ or bak3_; the content of `last_reboot` is not counted among the unprefixed logs.
- RotationRuns.Generations: boots whose logs lack `messages.txt`; `RotationRuns.GenerationsMix` says what then happens.
- Timestamps.Stamper.AddTimestampToFiles: the clock and `strftime` are a stamp given by the caller; over-long paths and failing renames.
- Timestamps.Stamper.RemoveTimestampFromFiles: names that meet, where what is left of a name is cut again or two names leave the same, and the result depends on the directory order.
- Base64.Base64Encode: the shifts and masks of disjoint bytes are written as arithmetic.
- Scheduler: the threads are steps on values, not methods on objects, so that they can interleave; the initialisation in `dcmSchedAddJob` is the initial state. Not modelled are error returns of the pthread functions other than a time-out, failing creation of the thread, NULL handles, and the use of a handle after its removal (runs with such calls are included as if the memory were still there). A signal reaches the one thread that can wait.
- The configuration, JSON, upload and network code, certificates, the bus, the daemon's start-up and the strategies with a disk are not part of this model: they are single decisions around calls into code that the model cannot see.
