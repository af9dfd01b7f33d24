# Study Habit Tracker — streak engine and study log, in Dafny

The Study Habit Tracker is a one-page dashboard. A form logs study sessions, each with a
subject, hours and a mood. The page then shows today's hours against a 4-hour goal, the
current and best streak of consecutive study days, the badges the current streak has
earned, and per-subject and per-day totals for a chosen time window ("All Time",
"This Month", "This Week").

This project models the logic behind that page and proves properties of it:

- `streaks.dfy` (module `Streaks`) is the streak engine. It defines reference predicates
  over the set of distinct dates: a run of consecutive days, the maximal run ending at the
  latest date (the current streak), and the longest run (the best streak). The method
  `CalculateStreaks` mirrors the source: it returns (0, 0) for no dates, sorts the distinct
  dates and walks them with a running counter and a best-so-far counter. It is proved to
  meet the reference predicates.
- `badges.dfy` (module `Badges`) holds the badge table (3, 7 and 30 days) and the rule that
  a streak earns every badge whose threshold it reaches, in table order.
- `study_log.dfy` (module `StudyLog`) covers the record log and its derived views:
  - the append-only log and the form's non-empty-subject guard;
  - the time-window filter;
  - today's total;
  - the per-subject and per-day grouped sums.
- `dashboard.dfy` (module `Dashboard`) composes these into one render of the page. It also
  holds lemmas about how logging a session moves the streaks.

Modelling choices:

- A date is an integer day number, so consecutive calendar days are consecutive integers.
- Hours are a `nat` count of half-hours, the form's step. All sums are therefore exact.
- "Today" is a parameter everywhere, never a clock reading.
- The current streak follows the source literally. It is the run ending at the **latest
  logged date**, not the run ending today. A user who stops logging keeps a non-zero
  current streak. `ThreeConsecutiveDays` and `IsCurrentStreak` (which takes no "today")
  state this behaviour.
- Grouped sums come back as rows sorted by key, because pandas' `groupby` sorts group
  keys by default. Dates sort as integers. Subjects sort by code point (`StrLess`), which
  is how Python compares strings.
- A mood is one of four values. The form stores its label, and `MoodLabelInjective` shows
  that the value determines the label and back.

## Model

| member | source | states |
|---|---|---|
| Streaks.CalculateStreaks | app.py:44-62 | No dates gives (0, 0). Otherwise `current` is the maximal run of consecutive days ending at the latest date and `best` is the longest run among the distinct dates. Also 1 ≤ current ≤ best ≤ number of distinct dates. |
| Streaks.WalkSorted | app.py:52-62 | For non-empty strictly increasing dates, the counter loop ends with `current` equal to the maximal run ending at the last date and `best` equal to the longest run. Also 1 ≤ current ≤ best ≤ count. |
| Streaks.SortedDistinct | app.py:50 | The result is strictly increasing and has exactly the distinct values of the input: `sorted(list(set(dates)))`. |
| Streaks.Insert | app.py:50 | Inserting into a strictly increasing sequence keeps it strictly increasing and adds exactly that value, dropping a duplicate. |
| Streaks.StreakStep | app.py:55-61 | One loop step with a date later than all earlier ones. The next day adds one to the current run and raises best to max(best, current). Any later day resets current to 1 and leaves best unchanged. Both remain correct for the enlarged set. |
| Streaks.StreaksDetermined | app.py:50 | Current and best are unique for a given set of dates. So the engine's result depends only on the set of distinct dates: duplicates and input order cannot change it. |
| Streaks.CurrentAtMostBest | app.py:52-58 | Whenever both are defined, 0 ≤ current ≤ best, because best is raised on every increment of current. |
| Streaks.IntervalStreaks | app.py:55-58 | A set of exactly the days D, …, D+k-1 gives current = best = k. |
| Streaks.GapResetsCurrent | app.py:55-62 | Dates D, D+1, D+5, D+6, D+7: the gap resets the counter, and current = 3 and best = 3. |
| Streaks.BestNeverDrops | app.py:55-58 | Adding a date never lowers the best streak. |
| Streaks.LaterDayUpdatesCurrent | app.py:55-62 | Adding a date after the latest one makes the current streak one longer when it is the next day. Otherwise the current streak becomes 1. |
| Streaks.DistinctCount | app.py:50 | A strictly increasing sequence has as many distinct dates as entries. This bounds best by the number of distinct dates. |
| Badges.EarnedFrom | app.py:64-66 | A badge is kept iff its threshold is ≤ the streak. When the table's thresholds ascend, the result is a prefix of the table. |
| Badges.EarnedBadges | app.py:38-42 | With the table 3, 7, 30, a badge is earned iff streak ≥ threshold, in table order. The count is 0 below 3, 1 for 3–6, 2 for 7–29 and 3 from 30 on. |
| Badges.EarnedGrows | app.py:66 | A longer streak's badge list extends a shorter streak's list: earned badges only grow. |
| StudyLog.AddLogEntry | app.py:72-81 | The log grows by exactly one record. Earlier records are unchanged. The new last record carries today's date and the given subject, hours and mood. |
| StudyLog.SubmitForm | app.py:99-101 | The log grows by one iff the form was submitted with a non-empty subject, and otherwise stays unchanged. The existing prefix is kept, and a log whose subjects are all non-empty stays that way. |
| StudyLog.FilterView | app.py:159-167 | The filtered records are never more than the log's. "All Time" returns the log unchanged. |
| StudyLog.FilterViewMembers | app.py:160-165 | A record is shown iff it is in the log and in the view. The month view needs date ≥ today−30 and the week view date ≥ today−7; "All Time" shows every record. |
| StudyLog.FilterViewAppend | app.py:159-167 | Filtering distributes over concatenation, so kept records stay in their original order. |
| StudyLog.WeekBoundary | app.py:163-165 | The week view keeps a session dated exactly 7 days ago and drops one dated 8 days ago. |
| StudyLog.HoursWhere | app.py:121-122 | The half-hours of records with a given key never exceed the log's total. They are 0 when no record has the key and the whole total when every record has it. |
| StudyLog.TodayHours | app.py:120-122 | Today's total is at most the log total. It is 0 when nothing is dated today and the full total when everything is. |
| StudyLog.TodayHoursAfterEntry | app.py:120-122 | Logging a session today raises today's total by exactly that session's half-hours. |
| StudyLog.TotalHoursAppend | app.py:122 | The total of two logs joined is the sum of their totals. |
| StudyLog.AddToRows | app.py:173 | Adding hours under a key keeps the rows sorted and adds the key to the key set. It raises the column total and that key's lookup by exactly those hours, and leaves every other key's lookup unchanged. |
| StudyLog.GroupSums | app.py:173 | One row per distinct key of the log, sorted by key. Each key's lookup is the hours of the records with that key, and the rows add up to the log's total. |
| StudyLog.GroupRowsAreSums | app.py:173 | Every grouped row holds exactly the half-hours of the records carrying its key. Sorted rows have one row per key. |
| StudyLog.LookupFindsRow | app.py:173 | In sorted rows, looking up a row's key returns that row's hours. |
| StudyLog.StrLessIsStrictTotalOrder | app.py:173 | Code-point lexicographic order on subjects is a strict total order, so subject rows are well defined and sorted. |
| StudyLog.MoodLabelInjective | app.py:94-97 | The four mood labels are pairwise distinct, so different moods are never stored as the same label. |
| StudyLog.SubjectHours | app.py:173 | Per-subject rows sorted by subject: one per subject present, each with that subject's hours, summing to the total. |
| StudyLog.DailyHours | app.py:186 | Per-day rows sorted by date: one per date present, each with that day's hours, summing to the total. |
| StudyLog.SubjectTotalsExample | app.py:173 | Sessions (Math 1 h, Math 2 h, Art 1.5 h) group to Math = 3 h and Art = 1.5 h. |
| Dashboard.GoalProgress | app.py:125 | The progress bar is today's hours capped at the 4-hour goal. It is full iff today's hours reach the goal. |
| Dashboard.Metrics | app.py:118-153 | Today's total and its capped progress come from the whole log, and the streaks from every logged date. The badges are exactly those the current (not best) streak earns, in table order. |
| Dashboard.ChartTables | app.py:159-186 | Over the records in the chosen view: the subject table has one row per subject in the view, in code-point order, each with that subject's hours; the day table has one row per day in the view, in date order, each with that day's hours. Each adds up to the view's total. Both are empty iff the view holds no record, the "no data" case. |
| Dashboard.Render | app.py:118-186 | One render. Today's total and its capped progress come from the whole log. The streaks match every logged date and current ≤ best. The badge strip holds exactly the badges the current streak earns, as a prefix of the table. The chart tables are the view's per-subject and per-day tables, empty iff the view is. |
| Dashboard.DateColumn | app.py:129 | The date column handed to the streak engine has one entry per record, duplicates included, and its set of values is exactly the logged dates. `.unique()` is not applied; `StreaksDetermined` shows it cannot change the result. |
| Dashboard.EntryAddsToday | app.py:72-81 | A new entry adds exactly today's date to the set of logged dates. |
| Dashboard.NextDayEntryExtendsStreak | app.py:55-62 | Logging the day after the latest logged date raises the current streak by one. |
| Dashboard.EntryKeepsBest | app.py:55-58 | Logging a session never lowers the best streak. |
| Dashboard.ThreeConsecutiveDays | app.py:55-62 | Sessions on three consecutive days give current = best = 3, with no reference to today. |

## Left out

- Page layout, widgets and the per-session cache of the table (app.py:9-14, 21-26, 85-98,
  102-117, 124-153 apart from the computations at 125, 129 and 140) are not modelled. They hold rendering calls and implicit global state with no logic to
  check. The log is an explicit value passed to every operation.
- Loading and saving the CSV file (app.py:22-24, 68-70) is not modelled. It is file I/O
  through pandas. The model's log is the records as they were entered; "file missing" is
  the empty log. What a save-and-reload round trip does to the records is not modelled:
  `read_csv` reads subjects such as "NA", "null" or "nan" as missing values, and reads an
  all-digit subject column as numbers.
- StudyLog.SubjectHours: the per-subject facts hold for records as entered, not for records
  reloaded from the file. After a reload, `groupby` at app.py:173 drops the rows with a
  missing subject, so the subject table can sum to less than the total, or be empty for a
  non-empty log (the guards at app.py:174 and 199 exist for this), and numeric subjects sort
  as numbers.
- Dashboard.ChartTables: the same limit applies to its subject table, so "subject table
  empty iff no data" and "subject table sums to the view's total" are promised only for
  records that never went through the file.
- Dashboard.Render: its subject table carries the same limit as `Dashboard.ChartTables`.
- Chart construction (app.py:175-206) is not modelled. Only the grouped tables that feed
  the charts are.
- The wall clock (app.py:74, 120) is not read. Today is a parameter.
- The random motivational quote (app.py:212) is left out. It is a random choice from a
  constant list.
- Floating point is replaced by integers. `GoalProgress` gives the filled half-hours out of
  8 instead of the float ratio. The one-decimal formatting and the signed "from goal" text
  of app.py:124 are not modelled.
- StudyLog.AddLogEntry: hours are whole half-hours. The form's minimum of 0.5 hours is not
  enforced. Values typed between steps, and amounts read back from the file, are not
  representable.
- test_server.py is not part of this model. It only starts a static file server.
