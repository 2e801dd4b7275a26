# Habit tracker core, modelled in Dafny

The habit tracker records one check-in per day: whether the user relapsed, how many
times, an urge level and a mood on a 1 to 10 scale, and optional notes. From these
logs it derives:

- the current streak, a walk backward from today over clean days;
- the longest streak, the longest run of clean logs in newest-first order;
- the relapse total, which is stored with a longest streak that never decreases;
- goal progress and achievement;
- a thirty-day chart, weekly averages and a success rate for the history screen;
- a quote of the day chosen by a 32-bit string hash.

The model covers that logic and the state updates around it. `src/App.tsx` is split
into two modules, the statistics effect and the handlers around it; every other source
file has one module of its own. Two modules stand for no source file: `Wrappers`, the
option type, and `JsRuntime`, the JavaScript runtime pieces the code relies on:

- `Types` holds the record shapes of `src/types/index.ts`.
- `JsRuntime` holds ECMAScript ToInt32/ToUint32, the `<<` and `&` operators,
  `String.prototype.trim` and `parseInt`, on unbounded integers.
- `Stats` is the statistics effect of `src/App.tsx`, as recursive specifications and as
  two looping methods proved against them.
- `App` is the log upsert and the three goal handlers, as pure sequence updates. A
  `Tracker` class holds `logs`, `goals` and `stats`, and its methods perform the updates.
- `GoalSetting` is the progress function, the achievement test and the add-goal form,
  a `GoalForm` class.
- `History` covers the chart series, the slices, the weekly summary, the success rate and
  the emoji lookup.
- `DailyLogModal` is the check-in record the form submits, and the form itself, a
  `CheckInForm` class.
- `MotivationalQuotes` is the quote table, the hash and the index.

Calendar dates are integer day numbers. The current day, the weekly cutoff and the
day's date string are parameters. Record ids and creation timestamps are parameters too.

One expects the current streak never to exceed the longest streak. The code guarantees
this whenever no two logs share a date, a condition the upsert keeps true.
`Stats.CurrentAtMostLongest` proves it under the further premise that no log lies after
today. `Stats.ScenarioDuplicateDate` shows why the bound fails when dates repeat: with a
repeated date the current streak is 2 and the sorted run is 1.

## Model

| member | source | states |
|---|---|---|
| Stats.FindLog | src/App.tsx:51 | `logs.find` by date: none exactly when no log has the date, otherwise the log at the first index with that date |
| Stats.HasLogOn | src/App.tsx:34 | `logs.some` by date: some log carries the day |
| Stats.IsCleanDay | src/App.tsx:51-64 | the day's first log exists and is not a relapse: the case that counts and continues the walk |
| Stats.FindLogUnique | src/App.tsx:51 | with distinct dates the lookup returns the one log of that day |
| Stats.CountUpToDrops | src/App.tsx:66 | stepping back past a logged day leaves strictly fewer logs on or before the date (the walk's termination measure) |
| Stats.CleanRun | src/App.tsx:58-64 | the run of clean days ending at a day is bounded by the number of logs dated on or before it |
| Stats.CleanRunDays | src/App.tsx:53-64 | every day of the run has a clean first log, and the day just before the run does not |
| Stats.CleanRunCharacterization | src/App.tsx:53-64 | the run ending at d is n if and only if the n days ending at d are clean and day d - n is not |
| Stats.CurrentStreak | src/App.tsx:49-70 | the streak (today skipped when unlogged) is at most the number of logs |
| Stats.ComputeCurrentStreak | src/App.tsx:41-70 | the `while (true)` walk returns CurrentStreak and at most `logs.length`, so the guard at line 69 never ends it |
| Stats.InsertByDate | src/App.tsx:39 | inserting into a newest-first list keeps it newest-first and adds exactly the one element |
| Stats.SortByDateDesc | src/App.tsx:39 | the sort is a permutation of the logs, ordered by descending date |
| Stats.OnDate | src/App.tsx:39 | the logs of one day, in order, all carrying that day |
| Stats.OnDateCons | src/App.tsx:39 | the logs of a day in a list with a head are the head, if of that day, then those of the tail |
| Stats.InsertOnDate | src/App.tsx:39 | an inserted log goes before the other logs of its own day, which keep their order |
| Stats.SortKeepsSameDayOrder | src/App.tsx:39 | the sort is stable: the logs of any one day keep their input order |
| Stats.DistinctCons | src/App.tsx:39 | a log of a date not yet present can be put in front with dates staying distinct |
| Stats.InsertKeepsDistinct | src/App.tsx:39 | inserting a log of a new date keeps dates distinct |
| Stats.SortKeepsDistinct | src/App.tsx:39 | sorting keeps dates distinct |
| Stats.TrailingCleanRun | src/App.tsx:74-78 | the loop's running counter is at most the length of the prefix |
| Stats.TrailingIsClean | src/App.tsx:74-78 | the counted trailing logs are all clean |
| Stats.TrailingAtLeast | src/App.tsx:74-78 | a clean suffix is no longer than the running counter |
| Stats.LongestCleanRun | src/App.tsx:73-80 | the running maximum lies between the current counter and the length |
| Stats.CleanSegmentBounded | src/App.tsx:73-80 | no run of consecutive clean logs is longer than the running maximum |
| Stats.LongestCleanRunAttained | src/App.tsx:73-80 | some run of consecutive clean logs has exactly the maximum's length |
| Stats.LongestCleanRunIsMaximum | src/App.tsx:73-80 | the maximum is the length of the longest run of consecutive clean logs (both directions) |
| Stats.LongestCleanRunIgnoresDates | src/App.tsx:73-80 | only the relapse flags in order matter: gaps between dates do not reset the run |
| Stats.ComputeLongestStreak | src/App.tsx:72-80 | the `for` loop over the sorted logs returns LongestCleanRun of the sorted logs |
| Stats.CleanDaysLeadSorted | src/App.tsx:39 | with distinct dates none after d, the clean days d, d-1, ... the walk counts are the first entries of the sorted logs |
| Stats.NextSortedIsNextDay | src/App.tsx:39 | the inductive step: the log of day d - i sits at position i of the sorted logs |
| Stats.CleanRunAtMostLongest | src/App.tsx:49-80 | a clean run ending on or after every log date is at most the longest sorted run |
| Stats.CurrentAtMostLongest | src/App.tsx:49-80 | with distinct dates none after today, currentStreak is at most the recomputed longest streak |
| Stats.SumRelapseCounts | src/App.tsx:82 | the relapse total is non-negative when every count is |
| Stats.SumRelapseCountsAppend | src/App.tsx:82 | the total is additive over concatenated log lists |
| Stats.SumRelapseCountsClean | src/App.tsx:82 | well-formed logs without relapses total 0 |
| Stats.RecomputedStats | src/App.tsx:84-89 | the stored longest streak never decreases, is at least the recomputed run and equals one of the two; startDate and lastLogDate are kept |
| Stats.RecomputedStatsEmpty | src/App.tsx:41-89 | no logs: current streak 0, total 0, longest streak the stored one |
| Stats.RecomputedStatsIdempotent | src/App.tsx:84-89 | running the effect again on the same logs changes nothing |
| Stats.RecomputedStreaksOrdered | src/App.tsx:84-89 | with distinct dates none after today, the stored current streak is at most the stored longest |
| Stats.ScenarioTodayNotYetLogged | src/App.tsx:53-57 | clean logs for the two previous days and none for today give a streak of 2 |
| Stats.ScenarioRelapseYesterday | src/App.tsx:58-60 | a relapse yesterday gives streak 0 and adds its count to the total |
| Stats.DuplicateDayWalk | src/App.tsx:49-70 | with a clean and a relapsed log both for today, the walk sees the first and counts 2 |
| Stats.DuplicateDaySorted | src/App.tsx:39 | the stable sort keeps the two same-day logs in input order |
| Stats.DuplicateDayLongest | src/App.tsx:73-80 | the relapse between the clean logs limits the longest run to 1 |
| Stats.ScenarioDuplicateDate | src/App.tsx:49-80 | without distinct dates the current streak can exceed the longest run |
| App.WithoutDate | src/App.tsx:117 | the filter keeps only logs of the list, none of them of the removed date |
| App.WithoutDateSubsequence | src/App.tsx:117 | the kept logs stay in their relative order |
| App.WithoutDateCounts | src/App.tsx:117 | every log of another date is kept as often as it occurred |
| App.WithoutDateAppend | src/App.tsx:117 | filtering distributes over concatenation |
| App.WithoutDateIdempotent | src/App.tsx:117 | filtering twice is filtering once |
| App.WithoutDateKeepsDistinct | src/App.tsx:117 | filtering keeps dates distinct |
| App.SubsequenceKeepsDistinct | src/App.tsx:117 | a subsequence of logs with distinct dates has distinct dates |
| App.SubsequenceIn | src/App.tsx:117 | every element of a subsequence is an element of the original |
| App.NewLog | src/App.tsx:109-113 | the new log is the submitted record with the given id and today's date |
| App.Upserted | src/App.tsx:115-119 | the logs without today's date, then the new log; its laws are UpsertLaw |
| App.UpsertLaw | src/App.tsx:115-119 | after the upsert exactly one log has the new date, it is the new log and last; the others are the old logs of other dates, in order and multiplicity; the lookup finds the new log |
| App.UpsertKeepsDistinct | src/App.tsx:115-119 | the upsert keeps at most one log per date |
| App.UpsertTwice | src/App.tsx:115-119 | two check-ins for the same day leave only the second |
| App.StreakAfterCheckIn | src/App.tsx:108-119 | right after today's check-in the current streak is 0 for a relapse and at least 1 otherwise |
| App.GoalFromDraft | src/App.tsx:128-132 | the draft's fields with the given id and creation timestamp |
| App.WithoutGoal | src/App.tsx:137 | the filter keeps only goals of the list, none with the deleted id |
| App.WithoutGoalSubsequence | src/App.tsx:137 | the remaining goals keep their order |
| App.WithoutGoalCounts | src/App.tsx:137 | every goal with another id is kept as often as it occurred |
| App.WithoutGoalIdempotent | src/App.tsx:137 | deleting twice is deleting once |
| App.WithoutAbsentGoal | src/App.tsx:137 | deleting an id no goal has changes nothing |
| App.FlipIfMatching | src/App.tsx:142 | a goal with the id gets isCompleted negated, any other goal stays |
| App.WithGoalToggled | src/App.tsx:141-143 | the map keeps the number of goals |
| App.ToggleFlipsOnlyMatching | src/App.tsx:141-143 | exactly the goals with the id have isCompleted flipped; no other field or goal changes |
| App.ToggleTwice | src/App.tsx:141-143 | toggling the same id twice restores the goals |
| App.Tracker.constructor | src/App.tsx:17-29 | no logs, no goals, zero streaks and total, no last log date |
| App.Tracker.HasLoggedToday | src/App.tsx:32-35 | some stored log carries today's date |
| App.Tracker.RecomputeStats | src/App.tsx:38-90 | runs both loops and the sum; the new stats are RecomputedStats of the old, the longest streak does not drop, and current <= longest under distinct dates none after today |
| App.Tracker.LogSubmit | src/App.tsx:101-125 | the logs become the upsert with the new log, only lastLogDate changes in the stats, at most one log per date is kept and hasLoggedToday holds |
| App.Tracker.SubmitCheckIn | src/App.tsx:38-125 | a check-in followed by the effect it triggers: the streak is 0 after a relapse and at least 1 after a clean day |
| App.Tracker.AddGoal | src/App.tsx:127-134 | exactly one goal is appended, built from the draft, the id and the timestamp; the prefix is unchanged |
| App.Tracker.DeleteGoal | src/App.tsx:136-138 | the goals become WithoutGoal of the old goals |
| App.Tracker.ToggleGoal | src/App.tsx:140-144 | the goals become WithGoalToggled of the old goals |
| GoalSetting.Progress | src/components/GoalSetting.tsx:47-50 | NaN exactly for an open goal with target 0 and streak 0; never above 100; not negative for a non-negative target |
| GoalSetting.IsAchieved | src/components/GoalSetting.tsx:109 | a goal is achieved when the streak reaches its target or it is completed |
| GoalSetting.ShowsMarkComplete | src/components/GoalSetting.tsx:173 | the mark-complete button shows for an achieved goal not yet completed |
| GoalSetting.ProgressOfCompleted | src/components/GoalSetting.tsx:48 | a completed goal has progress 100 whatever the streak |
| GoalSetting.ProgressBounds | src/components/GoalSetting.tsx:49 | with a target of at least 1 the progress is a number in [0, 100] |
| GoalSetting.ProgressBelowTarget | src/components/GoalSetting.tsx:49 | an open goal below its target shows exactly 100 * streak / target |
| GoalSetting.ProgressMonotone | src/components/GoalSetting.tsx:49 | a longer streak never shows less progress |
| GoalSetting.AchievedIffFull | src/components/GoalSetting.tsx:109 | with a target of at least 1, isAchieved holds exactly when the progress is 100 |
| GoalSetting.MarkCompleteHides | src/components/GoalSetting.tsx:173-175 | pressing mark-complete leaves the goal completed, achieved, at 100, and without the button |
| GoalSetting.ParseTargetDays | src/components/GoalSetting.tsx:305 | parseInt with the fallback 1: never 0; NaN and a parsed 0 give 1; any other parsed integer is kept |
| GoalSetting.ParseTargetDaysRoundTrip | src/components/GoalSetting.tsx:300-305 | the decimal text of a non-zero target reads back as that target |
| GoalSetting.DraftOf | src/components/GoalSetting.tsx:29-36 | nothing for a blank title; otherwise the form fields with isCompleted false |
| GoalSetting.GoalForm.constructor | src/components/GoalSetting.tsx:21-27 | closed, empty title and description, target 7, short-term |
| GoalSetting.GoalForm.Open | src/components/GoalSetting.tsx:92 | the form is shown |
| GoalSetting.GoalForm.Close | src/components/GoalSetting.tsx:344 | the form is hidden |
| GoalSetting.GoalForm.SetTitle | src/components/GoalSetting.tsx:276 | the title is the typed text |
| GoalSetting.GoalForm.SetDescription | src/components/GoalSetting.tsx:289 | the description is the typed text |
| GoalSetting.GoalForm.SetTargetDays | src/components/GoalSetting.tsx:305 | the target is the parsed text, never 0 |
| GoalSetting.GoalForm.SetGoalType | src/components/GoalSetting.tsx:318 | the type is the chosen one |
| GoalSetting.GoalForm.Submit | src/components/GoalSetting.tsx:29-45 | a blank title changes nothing and submits nothing; otherwise the draft goes out and the form resets to its defaults and closes |
| History.OrDefault | src/components/History.tsx:24-26 | the logical-or default on a number: 0 gives way to the default, any other value stays |
| History.Slot | src/components/History.tsx:19-27 | a slot carries the date it is for |
| History.ChartData | src/components/History.tsx:12-29 | the series has exactly 30 slots |
| History.ChartDays | src/components/History.tsx:13-17 | the slots cover consecutive ascending days, the last being today |
| History.SlotContents | src/components/History.tsx:19-27 | a logged day shows its first log, with mood 0 read as 5; a day without a log shows {false, 0, 0, 5} |
| History.ChartShowsCheckIn | src/components/History.tsx:19-27 | right after a well-formed check-in, the last slot shows it unchanged |
| History.ChartMoodsInRange | src/components/History.tsx:26 | with well-formed logs every slot's mood is in 1..10 |
| History.Last | src/components/History.tsx:155 | `slice(-k)` for k at least 1 is the last min(k, n) elements |
| History.WeekBars | src/components/History.tsx:155 | at most seven slots, exactly seven from a full chart, the final ones of the chart |
| History.RecentEntries | src/components/History.tsx:203 | at most five logs, the last stored first |
| History.Reverse | src/components/History.tsx:203 | position i holds the element n - 1 - i |
| History.WeekBarsDays | src/components/History.tsx:155 | the bars are 7 slots, for the days from six days ago to today |
| History.RecentEntriesNewestFirst | src/components/History.tsx:203 | min(5, n) entries, the last appended first |
| History.RecentEntriesAfterCheckIn | src/components/History.tsx:203 | the check-in just submitted heads the recent list |
| History.InWindow | src/components/History.tsx:32-37 | the window holds exactly the logs dated on or after the cutoff (no upper bound) |
| History.InWindowSubsequence | src/components/History.tsx:32-37 | the window keeps the logs' order |
| History.InWindowCounts | src/components/History.tsx:32-37 | the window keeps each log on or after the cutoff as often as it occurs |
| History.SeqMin | src/components/History.tsx:40-45 | the least value of the window, one of its values |
| History.SeqMax | src/components/History.tsx:40-45 | the greatest value of the window, one of its values |
| History.SumBounds | src/components/History.tsx:40-45 | values between lo and hi sum to between lo and hi times the count |
| History.DivBetween | src/components/History.tsx:40-45 | dividing the sum by the count keeps it between the bounds |
| History.Mean | src/components/History.tsx:40-45 | the sum over the count, or the default for no values |
| History.MeanBetween | src/components/History.tsx:40-45 | the mean of values between lo and hi lies between lo and hi |
| History.MeanWithinRange | src/components/History.tsx:40-45 | the mean lies between the least and the greatest value |
| History.WeeklyRelapsesNonNegative | src/components/History.tsx:39 | non-negative counts give a non-negative weekly total |
| History.InWindowEmpty | src/components/History.tsx:32-37 | logs all before the cutoff leave the window empty |
| History.WeeklyStats | src/components/History.tsx:31-48 | the relapse total, mean mood (default 5) and mean urge (default 0) of the window; its laws are the lemmas below |
| History.WeeklyStatsEmpty | src/components/History.tsx:39-45 | an empty window gives total 0, mood 5 and urge 0 |
| History.WeeklyAveragesInRange | src/components/History.tsx:40-45 | each average lies between the window's least and greatest value |
| History.WeeklyAveragesOnScale | src/components/History.tsx:40-45 | with well-formed logs both averages lie in [1, 10] |
| History.CountRelapsed | src/components/History.tsx:117 | at most n; 0 exactly when no log relapsed; n exactly when all did |
| History.CountRelapsedAppend | src/components/History.tsx:117 | the count over two lists joined is the sum of their counts |
| History.SuccessRate | src/components/History.tsx:116-119 | 100 with no logs, otherwise the share of logs without a relapse as a percentage; bounds in SuccessRateCharacterization |
| History.Percent | src/components/History.tsx:117 | a share c of n as a percentage lies in [0, 100], is 100 exactly when c = n and 0 exactly when c = 0 |
| History.SuccessRateCharacterization | src/components/History.tsx:116-119 | the rate lies in [0, 100], is 100 exactly when no log relapsed (with no logs included) and 0 exactly when there are logs and all relapsed |
| History.MoodEmoji | src/components/History.tsx:69-72 | every mood yields an entry of the emoji table |
| History.DayEmoji | src/components/History.tsx:179 | a positive mood shows an emoji of the table, any other mood the black circle |
| History.MoodEmojiLookup | src/components/History.tsx:69-72 | moods 1..10 pick `emojis[mood - 1]`, every other mood the neutral face; the result is always in the table |
| History.WeekBarEmojis | src/components/History.tsx:179 | with well-formed logs every bar shows its mood's emoji, never the no-mood mark |
| DailyLogModal.ParseRelapseCount | src/components/DailyLogModal.tsx:134 | parseInt with the fallback 0: NaN gives 0, any parsed integer is kept |
| DailyLogModal.ParseRelapseCountRoundTrip | src/components/DailyLogModal.tsx:130-134 | the decimal text of a count reads back as that count |
| DailyLogModal.NotesOf | src/components/DailyLogModal.tsx:40 | absent exactly when the notes are blank; otherwise the trimmed, non-empty text |
| DailyLogModal.NotesAreTrimmed | src/components/DailyLogModal.tsx:40 | submitted notes have nothing left to trim |
| DailyLogModal.Submission | src/components/DailyLogModal.tsx:35-41 | the count is 0 without a relapse and the entered count with one; urge and mood are forwarded; notes as NotesOf |
| DailyLogModal.SubmissionWellFormed | src/components/DailyLogModal.tsx:35-41 | slider values in 1..10 and a non-negative count give a well-formed stored log |
| DailyLogModal.CheckInForm.constructor | src/components/DailyLogModal.tsx:18-24 | relapsed false, count 0, urge 1, mood 5, notes empty, not submitting |
| DailyLogModal.CheckInForm.SetRelapsed | src/components/DailyLogModal.tsx:97 | relapsed is the pressed answer |
| DailyLogModal.CheckInForm.SetRelapseCount | src/components/DailyLogModal.tsx:134 | the count is the parsed text |
| DailyLogModal.CheckInForm.SetUrgeLevel | src/components/DailyLogModal.tsx:146-150 | the urge level is the slider position |
| DailyLogModal.CheckInForm.SetMood | src/components/DailyLogModal.tsx:164-169 | the mood is the slider position |
| DailyLogModal.CheckInForm.SetNotes | src/components/DailyLogModal.tsx:181 | the notes are the typed text |
| DailyLogModal.CheckInForm.Submit | src/components/DailyLogModal.tsx:29-44 | the Submission of the current fields goes out and the confirmation shows; its urge and mood lie on the slider scale, and a non-negative count stays non-negative |
| DailyLogModal.CheckInForm.FinishSubmit | src/components/DailyLogModal.tsx:46-55 | the confirmation closes and the fields return to the defaults |
| MotivationalQuotes.QuoteTable | src/utils/motivationalQuotes.ts:3-44 | eight entries, each with a quote, an author and a tip |
| MotivationalQuotes.CodeUnits | src/utils/motivationalQuotes.ts:52 | at least one code unit per character, exactly the characters' codes when each is in the basic plane |
| MotivationalQuotes.HashStep | src/utils/motivationalQuotes.ts:53-54 | a reducer step yields a signed 32-bit value |
| MotivationalQuotes.Hash | src/utils/motivationalQuotes.ts:52-55 | the hash lies in [-2^31, 2^31) |
| MotivationalQuotes.ShiftLeftFive | src/utils/motivationalQuotes.ts:53 | `a << 5` on a signed 32-bit a is 32 * a reduced to signed 32 bits |
| MotivationalQuotes.HashStepTruncates | src/utils/motivationalQuotes.ts:54 | the `a & a` of a step only truncates to signed 32 bits |
| MotivationalQuotes.ShiftedStepValue | src/utils/motivationalQuotes.ts:53-54 | reducing the shifted accumulator first does not change the reduced step |
| MotivationalQuotes.HashStepValue | src/utils/motivationalQuotes.ts:53-54 | from a 32-bit accumulator a step is 31 * a + code reduced to signed 32 bits |
| MotivationalQuotes.HashStepReduced | src/utils/motivationalQuotes.ts:53-54 | a step from a reduced accumulator is the reduced unbounded step |
| MotivationalQuotes.PolyHash | src/utils/motivationalQuotes.ts:52-55 | the recurrence h := 31 * h + code from 0 on unbounded integers, the reference the hash is proved against |
| MotivationalQuotes.HashIsReducedPolyHash | src/utils/motivationalQuotes.ts:52-55 | the hash is the unbounded polynomial hash of the code units reduced to signed 32 bits |
| MotivationalQuotes.HashShortInputs | src/utils/motivationalQuotes.ts:52-55 | the empty string hashes to 0, a single code unit to itself |
| MotivationalQuotes.QuoteIndex | src/utils/motivationalQuotes.ts:56 | the index is in [0, 8) |
| MotivationalQuotes.TodaysQuote | src/utils/motivationalQuotes.ts:50-58 | the quote of the day is an entry of the table |
| JsRuntime.ToInt32 | src/utils/motivationalQuotes.ts:54 | the result lies in the signed 32-bit range |
| JsRuntime.ToUint32 | src/utils/motivationalQuotes.ts:53 | the result lies in the unsigned 32-bit range |
| JsRuntime.ToInt32Congruence | src/utils/motivationalQuotes.ts:53-54 | ToInt32 and ToUint32 both keep the input's residue modulo 2^32 |
| JsRuntime.ToInt32Congruent | src/utils/motivationalQuotes.ts:54 | congruent inputs have the same ToInt32 |
| JsRuntime.ToInt32Shift | src/utils/motivationalQuotes.ts:54 | adding multiples of 2^32 does not change ToInt32 |
| JsRuntime.ToInt32Wraps | src/utils/motivationalQuotes.ts:54 | ToInt32(x) is x less a whole number of 2^32 |
| JsRuntime.ToInt32Identity | src/utils/motivationalQuotes.ts:54 | ToInt32 is the identity exactly on the signed 32-bit range |
| JsRuntime.ShiftLeft | src/utils/motivationalQuotes.ts:53 | `x << y` yields a signed 32-bit value |
| JsRuntime.BitAnd | src/utils/motivationalQuotes.ts:54 | `x & y` yields a signed 32-bit value |
| JsRuntime.BitAndSelf | src/utils/motivationalQuotes.ts:54 | `a & a` is ToInt32(a) |
| JsRuntime.TrimStart | src/components/GoalSetting.tsx:305 | the leading blank prefix is removed, and the result starts with a non-blank character |
| JsRuntime.TrimEnd | src/components/DailyLogModal.tsx:40 | the trailing blank suffix is removed, and the result ends with a non-blank character |
| JsRuntime.Trim | src/components/GoalSetting.tsx:31 | a non-empty result starts and ends with non-blank characters |
| JsRuntime.TrimIsInfix | src/components/DailyLogModal.tsx:40 | the trimmed text is the input without a blank prefix and a blank suffix |
| JsRuntime.TrimEmptyIffBlank | src/components/GoalSetting.tsx:31 | a string trims to empty exactly when it is all white space |
| JsRuntime.TrimIdempotent | src/components/DailyLogModal.tsx:40 | trimming twice is trimming once |
| JsRuntime.ParseInt | src/components/GoalSetting.tsx:305 | `parseInt` without a radix: leading white space, one sign, a 0x prefix, then the longest digit run; NaN for no digit |
| JsRuntime.DigitRunLength | src/components/GoalSetting.tsx:305 | parseInt reads the longest prefix of digits of the radix |
| JsRuntime.ParseIntNaN | src/components/GoalSetting.tsx:305 | text that cannot start a number parses to NaN |
| JsRuntime.ParseIntUnsigned | src/components/DailyLogModal.tsx:134 | text starting with a digit is read as its magnitude |
| JsRuntime.ParseIntMinus | src/components/DailyLogModal.tsx:134 | a minus sign before a digit negates the magnitude |
| JsRuntime.ParseIntDecimal | src/components/DailyLogModal.tsx:134 | parseInt reads back the decimal text of every integer |

## Left out

- The clock and the time zone are not modelled. This covers `new Date()`, `toISOString` date keys, `toDateString` and the time-of-day weekly cutoff. Today, the cutoff and the date string are parameters, and dates are day numbers. ISO 8601 date strings are not parsed.
- `getRandomQuote` uses `Math.random` and is not modelled.
- Persistence through `useLocalStorage` is not modelled. The hook is not part of this model, and the state is held as whole values.
- The dark-mode effect and its DOM class change are not modelled.
- `setTimeout`, `await` and the `isSubmitting` delay are not modelled. The two halves of the check-in submission are separate methods, and `onClose` is not modelled.
- `Date.now()` ids and `toISOString` creation times are parameters. Their uniqueness is not modelled.
- `Math.round` display values, bar heights and IEEE-754 rounding are not modelled. Means and percentages are exact reals.
- The browser enforces `min`, `max` and `required`, and the model enforces none of them. The model does assume, as a precondition, that a range input delivers a position from 1 to 10.
- The JSX rendering, animation and styling are not modelled. Navigation, Dashboard and Motivation are display only.
- The quote choice being the same for the same date string is not stated as a lemma. It holds because TodaysQuote is a function.
- JsRuntime.ParseInt: digit strings are read as exact integers. The double rounding of values above 2^53 is not modelled.
- JsRuntime.ShiftLeft: only the integral Number values the code feeds it are modelled. NaN and fractional operands are not.
- Stats.SortByDateDesc: the comparator subtracts parsed timestamps. The model compares day numbers, so the NaN comparisons of invalid date strings are not modelled.
- History.MoodEmoji: moods are integers, so a fractional index, which is also undefined in the source, is not modelled.
- GoalSetting.Progress: NaN is modelled as None and +Infinity as the clamped 100. The negative streaks that would give other infinities cannot occur, because the streak is a nat.
- Stats.CurrentAtMostLongest: it assumes no log lies after today as well as distinct dates. Distinct dates alone suffice for the bound, but the model proves it only with both premises, and so do CleanRunAtMostLongest, RecomputedStreaksOrdered and Tracker.RecomputeStats.
