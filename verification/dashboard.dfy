/**
 One render of the dashboard: today's total, the two streaks, the badge strip
 and the two grouped tables behind the charts, all recomputed from the log.
 */
module Dashboard {
  import opened Streaks
  import opened Badges
  import opened StudyLog

  /** The daily goal, 4 hours, in half-hour units. */
  const DailyGoal: nat := 8

  /** The distinct days on which something was logged. */
  ghost function LoggedDates(log: Log): set<int> {
    set i | 0 <= i < |log| :: log[i].date
  }

  /** The date column of the log, in log order. */
  function DateColumn(log: Log): (dates: seq<int>)
    ensures Elems(dates) == LoggedDates(log)
    ensures |dates| == |log|
  {
    var dates := seq(|log|, i requires 0 <= i < |log| => log[i].date);
    assert forall i :: 0 <= i < |log| ==> dates[i] == log[i].date;
    assert forall d :: d in Elems(dates) ==> d in LoggedDates(log);
    dates
  }

  /**
   The filled part of the daily-goal progress bar, in half-hours out of
   `DailyGoal`: today's hours, capped at the goal.
   */
  function GoalProgress(todayHours: nat): (filled: nat)
    ensures filled <= DailyGoal && filled <= todayHours
    ensures filled == DailyGoal <==> todayHours >= DailyGoal
    ensures todayHours < DailyGoal ==> filled == todayHours
  {
    if todayHours < DailyGoal then todayHours else DailyGoal
  }

  /**
   The metrics row and the badge strip: today's total and its progress
   toward the goal, the streaks over every logged date (whatever the view),
   and the badges the current streak earns.
   */
  method Metrics(log: Log, today: int) returns (todayHours: nat, progress: nat, current: nat, best: nat, badges: seq<Badge>)
    ensures todayHours == TodayHours(log, today)
    ensures progress == GoalProgress(todayHours)
    ensures IsCurrentStreak(LoggedDates(log), current)
    ensures IsBestStreak(LoggedDates(log), best)
    ensures current <= best
    ensures forall b :: b in badges <==> b in Table && b.threshold <= current
    ensures |badges| <= |Table| && badges == Table[..|badges|]
  {
    todayHours := TodayHours(log, today);
    progress := GoalProgress(todayHours);
    current, best := CalculateStreaks(DateColumn(log));
    badges := EarnedBadges(current);
  }

  /**
   The tables behind the charts, over the records in the view: half-hours
   per subject and per day. Each is the grouped table of the view (so each
   adds up to the view's total), and both are empty exactly when the view
   holds no record ("no data").
   */
  function ChartTables(log: Log, view: View, today: int): (tables: (seq<(string, nat)>, seq<(int, nat)>))
    ensures IsSubjectTable(tables.0, FilterView(log, view, today))
    ensures IsDayTable(tables.1, FilterView(log, view, today))
    ensures tables.0 == [] <==> FilterView(log, view, today) == []
    ensures tables.1 == [] <==> FilterView(log, view, today) == []
  {
    var chartData := FilterView(log, view, today);
    if chartData == [] then
      assert IsSubjectTable([], chartData) && IsDayTable([], chartData);
      ([], [])
    else
      var subjectRows, dailyRows := SubjectHours(chartData), DailyHours(chartData);
      assert chartData[0].subject in RowKeys(subjectRows);
      assert chartData[0].date in RowKeys(dailyRows);
      (subjectRows, dailyRows)
  }

  /**
   The chart tables of the records `shown`: its per-subject and per-day
   tables, both empty exactly when nothing is shown ("no data").
   */
  ghost predicate ChartsOf(subjectRows: seq<(string, nat)>, dailyRows: seq<(int, nat)>, shown: Log) {
    && IsSubjectTable(subjectRows, shown)
    && IsDayTable(dailyRows, shown)
    && (subjectRows == [] <==> shown == [])
    && (dailyRows == [] <==> shown == [])
  }

  datatype Screen = Screen(
    todayHours: nat,
    progress: nat,
    current: nat,
    best: nat,
    badges: seq<Badge>,
    subjectRows: seq<(string, nat)>,
    dailyRows: seq<(int, nat)>)

  /**
   Renders the dashboard for `today` and the chosen view: the metrics and
   badges over the whole log, the chart tables over the view.
   */
  method Render(log: Log, today: int, view: View) returns (s: Screen)
    ensures s.todayHours == TodayHours(log, today)
    ensures s.progress == GoalProgress(s.todayHours)
    ensures IsCurrentStreak(LoggedDates(log), s.current) && IsBestStreak(LoggedDates(log), s.best)
    ensures s.current <= s.best
    ensures IsEarnedStrip(s.badges, s.current)
    ensures ChartsOf(s.subjectRows, s.dailyRows, FilterView(log, view, today))
  {
    var todayHours, progress, current, best, badges := Metrics(log, today);
    var tables := ChartTables(log, view, today);
    s := Screen(todayHours, progress, current, best, badges, tables.0, tables.1);
  }

  /** Logging a session dated the day after the latest logged date extends
      the current streak by one. */
  lemma NextDayEntryExtendsStreak(log: Log, today: int, subject: string, halfHours: nat, mood: Mood, current: int)
    requires IsLatest(LoggedDates(log), today - 1)
    requires IsCurrentStreak(LoggedDates(log), current)
    ensures IsCurrentStreak(LoggedDates(AddLogEntry(log, today, subject, halfHours, mood)), current + 1)
  {
    EntryAddsToday(log, today, subject, halfHours, mood);
    LaterDayUpdatesCurrent(LoggedDates(log), today - 1, today, current);
  }

  /** A new entry adds exactly today's date to the logged dates. */
  lemma EntryAddsToday(log: Log, today: int, subject: string, halfHours: nat, mood: Mood)
    ensures LoggedDates(AddLogEntry(log, today, subject, halfHours, mood)) == LoggedDates(log) + {today}
  {
    var log' := AddLogEntry(log, today, subject, halfHours, mood);
    assert log'[|log|].date == today;
    forall d | d in LoggedDates(log)
      ensures d in LoggedDates(log')
    {
      var i :| 0 <= i < |log| && log[i].date == d;
      assert log'[i] == log[i];
    }
  }

  /** Logging a session never lowers the best streak. */
  lemma EntryKeepsBest(log: Log, today: int, subject: string, halfHours: nat, mood: Mood, best: int, best': int)
    requires IsBestStreak(LoggedDates(log), best)
    requires IsBestStreak(LoggedDates(AddLogEntry(log, today, subject, halfHours, mood)), best')
    ensures best <= best'
  {
    EntryAddsToday(log, today, subject, halfHours, mood);
    BestNeverDrops(LoggedDates(log), today, best, best');
  }

  /** Sessions on three consecutive days give current and best streaks of 3,
      however long ago the last of them was. */
  lemma ThreeConsecutiveDays(d: int)
    ensures IsCurrentStreak(LoggedDates([
      Record(d, "Math", 2, Good), Record(d + 1, "Math", 2, Good), Record(d + 2, "Art", 2, Tired)]), 3)
    ensures IsBestStreak(LoggedDates([
      Record(d, "Math", 2, Good), Record(d + 1, "Math", 2, Good), Record(d + 2, "Art", 2, Tired)]), 3)
  {
    var log := [Record(d, "Math", 2, Good), Record(d + 1, "Math", 2, Good), Record(d + 2, "Art", 2, Tired)];
    assert log[0].date == d && log[1].date == d + 1 && log[2].date == d + 2;
    IntervalStreaks(LoggedDates(log), d, 3);
  }
}
