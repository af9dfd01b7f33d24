/**
 The study log: an append-only sequence of study sessions, and the views the
 dashboard derives from it (time-window filter, today's total, per-subject
 and per-day totals).

 A date is a day number. Hours are counted in half-hour units, the form's
 step, so every sum is exact.
 */
module StudyLog {

  datatype Mood = Great | Good | Okay | Tired

  /** The label the form shows for a mood. */
  function MoodLabel(m: Mood): string {
    match m
    case Great => "\U{1F603} Great"
    case Good => "\U{1F642} Good"
    case Okay => "\U{1F610} Okay"
    case Tired => "\U{1F613} Tired"
  }

  /** Distinct moods have distinct labels, so a record may keep the mood
      itself in place of the label the form stores. */
  lemma MoodLabelInjective(m1: Mood, m2: Mood)
    ensures m1 != m2 ==> MoodLabel(m1) != MoodLabel(m2)
  {
    if m1 != m2 {
      assert MoodLabel(m1)[0] != MoodLabel(m2)[0];
    }
  }

  /** One logged study session. */
  datatype Record = Record(date: int, subject: string, halfHours: nat, mood: Mood)

  type Log = seq<Record>

  function DateOf(r: Record): int { r.date }

  function SubjectOf(r: Record): string { r.subject }

  // ---------------------------------------------------------------------------
  // Appending
  // ---------------------------------------------------------------------------

  /** Appends a session dated `today`; earlier records are left as they were. */
  function AddLogEntry(log: Log, today: int, subject: string, halfHours: nat, mood: Mood): (r: Log)
    ensures |r| == |log| + 1 && r[..|log|] == log
    ensures r[|log|] == Record(today, subject, halfHours, mood)
  {
    log + [Record(today, subject, halfHours, mood)]
  }

  /** Every record carries a subject. */
  ghost predicate SubjectsPresent(log: Log) {
    forall i :: 0 <= i < |log| ==> log[i].subject != ""
  }

  /**
   A submission of the entry form: a session is logged only when the form
   was submitted with a non-empty subject, and nothing is logged otherwise.
   */
  function SubmitForm(log: Log, submitted: bool, today: int, subject: string, halfHours: nat, mood: Mood): (r: Log)
    ensures |r| == |log| || |r| == |log| + 1
    ensures |r| == |log| + 1 <==> submitted && subject != ""
    ensures r[..|log|] == log
    ensures |r| == |log| + 1 ==> r[|log|] == Record(today, subject, halfHours, mood)
    ensures SubjectsPresent(log) ==> SubjectsPresent(r)
  {
    if submitted && subject != "" then AddLogEntry(log, today, subject, halfHours, mood) else log
  }

  // ---------------------------------------------------------------------------
  // Time window
  // ---------------------------------------------------------------------------

  datatype View = AllTime | ThisMonth | ThisWeek

  /** Whether a date falls in the chosen view: the last 30 days for the month,
      the last 7 days for the week, both counted back from `today` inclusive. */
  predicate InView(view: View, today: int, date: int) {
    match view
    case AllTime => true
    case ThisMonth => date >= today - 30
    case ThisWeek => date >= today - 7
  }

  /** The records shown for a view, in log order. */
  function FilterView(log: Log, view: View, today: int): (r: Log)
    ensures |r| <= |log|
    ensures view == AllTime ==> r == log
  {
    if |log| == 0 then []
    else
      var n := |log| - 1;
      assert log == log[..n] + [log[n]];
      FilterView(log[..n], view, today) + (if InView(view, today, log[n].date) then [log[n]] else [])
  }

  /** A record is shown iff it is in the log and in the view. */
  lemma {:induction false} FilterViewMembers(log: Log, view: View, today: int)
    ensures forall rec :: rec in FilterView(log, view, today) <==> rec in log && InView(view, today, rec.date)
  {
    if |log| > 0 {
      var n := |log| - 1;
      assert log == log[..n] + [log[n]];
      FilterViewMembers(log[..n], view, today);
    }
  }

  /** Filtering a log with one more record filters that record on its own. */
  lemma FilterViewSnoc(log: Log, rec: Record, view: View, today: int)
    ensures FilterView(log + [rec], view, today)
      == FilterView(log, view, today) + (if InView(view, today, rec.date) then [rec] else [])
  {
    assert (log + [rec])[..|log|] == log;
  }

  /** Filtering splits over concatenation, so it keeps the log's order. */
  lemma {:induction false} FilterViewAppend(a: Log, b: Log, view: View, today: int)
    ensures FilterView(a + b, view, today) == FilterView(a, view, today) + FilterView(b, view, today)
  {
    if |b| > 0 {
      var n := |b| - 1;
      assert a + b == (a + b[..n]) + [b[n]];
      assert b == b[..n] + [b[n]];
      FilterViewSnoc(a + b[..n], b[n], view, today);
      FilterViewSnoc(b[..n], b[n], view, today);
      FilterViewAppend(a, b[..n], view, today);
    } else {
      assert a + b == a;
    }
  }

  /** The week view keeps a session dated exactly 7 days ago and drops one 8 days ago. */
  lemma WeekBoundary(rec: Record, today: int)
    ensures rec.date == today - 7 ==> FilterView([rec], ThisWeek, today) == [rec]
    ensures rec.date == today - 8 ==> FilterView([rec], ThisWeek, today) == []
  {
    assert [rec][..0] == [];
  }

  // ---------------------------------------------------------------------------
  // Sums
  // ---------------------------------------------------------------------------

  /** Total half-hours of a log. */
  function TotalHours(log: Log): nat {
    if |log| == 0 then 0 else TotalHours(log[..|log| - 1]) + log[|log| - 1].halfHours
  }

  /** Total half-hours of the records whose `key` is `k`. */
  function HoursWhere<K(==)>(log: Log, key: Record -> K, k: K): (r: nat)
    ensures r <= TotalHours(log)
    ensures (forall i :: 0 <= i < |log| ==> key(log[i]) != k) ==> r == 0
    ensures (forall i :: 0 <= i < |log| ==> key(log[i]) == k) ==> r == TotalHours(log)
  {
    if |log| == 0 then 0
    else
      var n := |log| - 1;
      HoursWhere(log[..n], key, k) + (if key(log[n]) == k then log[n].halfHours else 0)
  }

  /** Total half-hours over two logs is the sum of their totals. */
  lemma {:induction false} TotalHoursAppend(a: Log, b: Log)
    ensures TotalHours(a + b) == TotalHours(a) + TotalHours(b)
  {
    if |b| > 0 {
      var n := |b| - 1;
      assert (a + b)[..|a + b| - 1] == a + b[..n];
      TotalHoursAppend(a, b[..n]);
    } else {
      assert a + b == a;
    }
  }

  /** Today's half-hours: the sessions dated `today`. */
  function TodayHours(log: Log, today: int): (r: nat)
    ensures r <= TotalHours(log)
    ensures (forall i :: 0 <= i < |log| ==> log[i].date != today) ==> r == 0
    ensures (forall i :: 0 <= i < |log| ==> log[i].date == today) ==> r == TotalHours(log)
  {
    HoursWhere(log, DateOf, today)
  }

  /** Logging a session raises today's total by exactly its half-hours. */
  lemma TodayHoursAfterEntry(log: Log, today: int, subject: string, halfHours: nat, mood: Mood)
    ensures TodayHours(AddLogEntry(log, today, subject, halfHours, mood), today) == TodayHours(log, today) + halfHours
  {
    var r := AddLogEntry(log, today, subject, halfHours, mood);
    assert r[..|r| - 1] == log;
  }

  // ---------------------------------------------------------------------------
  // Grouped sums
  // ---------------------------------------------------------------------------

  /** `less` is irreflexive, transitive and relates any two distinct keys. */
  ghost predicate StrictTotalOrder<K(!new)>(less: (K, K) -> bool) {
    && (forall a :: !less(a, a))
    && (forall a, b, c :: less(a, b) && less(b, c) ==> less(a, c))
    && (forall a, b :: a != b ==> less(a, b) || less(b, a))
  }

  /** Rows of (key, half-hours), keys strictly ascending under `less`. */
  ghost predicate SortedBy<K>(rows: seq<(K, nat)>, less: (K, K) -> bool) {
    forall i, j :: 0 <= i < j < |rows| ==> less(rows[i].0, rows[j].0)
  }

  ghost function RowKeys<K>(rows: seq<(K, nat)>): set<K> {
    set i | 0 <= i < |rows| :: rows[i].0
  }

  /** The half-hours in the first row for `k`, or 0 when there is none. */
  function Lookup<K(==)>(rows: seq<(K, nat)>, k: K): (h: nat)
    ensures k !in RowKeys(rows) ==> h == 0
  {
    if |rows| == 0 then 0
    else if rows[0].0 == k then rows[0].1
    else
      assert RowKeys(rows) == {rows[0].0} + RowKeys(rows[1..]);
      Lookup(rows[1..], k)
  }

  /** Sum of the half-hours column. */
  function RowsTotal<K>(rows: seq<(K, nat)>): nat {
    if |rows| == 0 then 0 else rows[0].1 + RowsTotal(rows[1..])
  }

  lemma RowKeysCons<K>(row: (K, nat), rows: seq<(K, nat)>)
    ensures RowKeys([row] + rows) == {row.0} + RowKeys(rows)
  {
    var r := [row] + rows;
    assert r[0] == row;
    forall k | k in RowKeys(rows)
      ensures k in RowKeys(r)
    {
      var i :| 0 <= i < |rows| && rows[i].0 == k;
      assert r[i + 1] == rows[i];
    }
    forall k | k in RowKeys(r)
      ensures k in {row.0} + RowKeys(rows)
    {
      var i :| 0 <= i < |r| && r[i].0 == k;
      if i > 0 {
        assert rows[i - 1] == r[i];
      }
    }
  }

  /** In sorted rows each key has one row, so looking a row's key up finds that row. */
  lemma {:induction false} LookupFindsRow<K(!new)>(rows: seq<(K, nat)>, less: (K, K) -> bool, i: int)
    requires StrictTotalOrder(less) && SortedBy(rows, less)
    requires 0 <= i < |rows|
    ensures Lookup(rows, rows[i].0) == rows[i].1
  {
    if i > 0 {
      assert less(rows[0].0, rows[i].0);
      assert SortedBy(rows[1..], less);
      LookupFindsRow(rows[1..], less, i - 1);
    }
  }

  /** `r` is `rows` with `h` more half-hours under key `k`, still sorted. */
  ghost predicate AddedTo<K(!new)>(r: seq<(K, nat)>, rows: seq<(K, nat)>, k: K, h: nat, less: (K, K) -> bool) {
    && SortedBy(r, less)
    && RowKeys(r) == RowKeys(rows) + {k}
    && RowsTotal(r) == RowsTotal(rows) + h
    && forall k' :: Lookup(r, k') == Lookup(rows, k') + (if k' == k then h else 0)
  }

  lemma AddToEmpty<K(!new)>(k: K, h: nat, less: (K, K) -> bool)
    requires StrictTotalOrder(less)
    ensures AddedTo([(k, h)], [], k, h, less)
  {
    RowKeysCons((k, h), []);
  }

  lemma AddToFirstRow<K(!new)>(rows: seq<(K, nat)>, k: K, h: nat, less: (K, K) -> bool)
    requires StrictTotalOrder(less) && SortedBy(rows, less)
    requires |rows| > 0 && rows[0].0 == k
    ensures AddedTo([(k, rows[0].1 + h)] + rows[1..], rows, k, h, less)
  {
    RowKeysCons(rows[0], rows[1..]);
    RowKeysCons((k, rows[0].1 + h), rows[1..]);
    assert rows == [rows[0]] + rows[1..];
  }

  lemma AddBeforeFirstRow<K(!new)>(rows: seq<(K, nat)>, k: K, h: nat, less: (K, K) -> bool)
    requires StrictTotalOrder(less) && SortedBy(rows, less)
    requires |rows| > 0 && less(k, rows[0].0)
    ensures AddedTo([(k, h)] + rows, rows, k, h, less)
  {
    RowKeysCons((k, h), rows);
    var r := [(k, h)] + rows;
    assert r[1..] == rows;
  }

  lemma AddAfterFirstRow<K(!new)>(rows: seq<(K, nat)>, k: K, h: nat, less: (K, K) -> bool, rest: seq<(K, nat)>)
    requires StrictTotalOrder(less) && SortedBy(rows, less)
    requires |rows| > 0 && rows[0].0 != k && !less(k, rows[0].0)
    requires AddedTo(rest, rows[1..], k, h, less)
    ensures AddedTo([rows[0]] + rest, rows, k, h, less)
  {
    var r := [rows[0]] + rest;
    assert r[1..] == rest && r[0] == rows[0];
    assert rows == [rows[0]] + rows[1..];
    RowKeysCons(rows[0], rows[1..]);
    RowKeysCons(rows[0], rest);
    assert less(rows[0].0, k);
    forall j | 0 <= j < |rest|
      ensures less(rows[0].0, rest[j].0)
    {
      assert rest[j].0 in RowKeys(rest);
      if rest[j].0 != k {
        var m :| 0 <= m < |rows[1..]| && rows[1..][m].0 == rest[j].0;
        assert rows[1..][m] == rows[m + 1];
      }
    }
    assert SortedBy(r, less);
    forall k'
      ensures Lookup(r, k') == Lookup(rows, k') + (if k' == k then h else 0)
    {
    }
  }

  /** Adds `h` half-hours to the row for `k`, creating it at its sorted place if absent. */
  function AddToRows<K(==,!new)>(rows: seq<(K, nat)>, k: K, h: nat, less: (K, K) -> bool): (r: seq<(K, nat)>)
    requires StrictTotalOrder(less) && SortedBy(rows, less)
    ensures SortedBy(r, less)
    ensures RowKeys(r) == RowKeys(rows) + {k}
    ensures RowsTotal(r) == RowsTotal(rows) + h
    ensures forall k' :: Lookup(r, k') == Lookup(rows, k') + (if k' == k then h else 0)
  {
    if |rows| == 0 then
      AddToEmpty(k, h, less);
      [(k, h)]
    else if rows[0].0 == k then
      AddToFirstRow(rows, k, h, less);
      [(k, rows[0].1 + h)] + rows[1..]
    else if less(k, rows[0].0) then
      AddBeforeFirstRow(rows, k, h, less);
      [(k, h)] + rows
    else
      assert SortedBy(rows[1..], less);
      var rest := AddToRows(rows[1..], k, h, less);
      AddAfterFirstRow(rows, k, h, less, rest);
      [rows[0]] + rest
  }

  /**
   Half-hours summed per key: one row per distinct key of the log, rows in
   ascending key order, each row holding the total of the records with that key.
   */
  function GroupSums<K(==,!new)>(log: Log, key: Record -> K, less: (K, K) -> bool): (rows: seq<(K, nat)>)
    requires StrictTotalOrder(less)
    ensures SortedBy(rows, less)
    ensures RowKeys(rows) == set i | 0 <= i < |log| :: key(log[i])
    ensures forall k :: Lookup(rows, k) == HoursWhere(log, key, k)
    ensures RowsTotal(rows) == TotalHours(log)
  {
    if |log| == 0 then []
    else
      var n := |log| - 1;
      var prefix := GroupSums(log[..n], key, less);
      assert (set i | 0 <= i < |log| :: key(log[i])) == (set i | 0 <= i < n :: key(log[..n][i])) + {key(log[n])} by {
        assert forall i :: 0 <= i < n ==> log[..n][i] == log[i];
      }
      AddToRows(prefix, key(log[n]), log[n].halfHours, less)
  }

  /** Each grouped row holds exactly the half-hours of the records with its key. */
  lemma GroupRowsAreSums<K(!new)>(log: Log, key: Record -> K, less: (K, K) -> bool)
    requires StrictTotalOrder(less)
    ensures forall i :: 0 <= i < |GroupSums(log, key, less)| ==>
      GroupSums(log, key, less)[i].1 == HoursWhere(log, key, GroupSums(log, key, less)[i].0)
  {
    var rows := GroupSums(log, key, less);
    forall i | 0 <= i < |rows|
      ensures rows[i].1 == HoursWhere(log, key, rows[i].0)
    {
      LookupFindsRow(rows, less, i);
    }
  }

  // ---------------------------------------------------------------------------
  // Key orders
  // ---------------------------------------------------------------------------

  predicate IntLess(a: int, b: int) { a < b }

  /** Lexicographic order on strings by code point. */
  predicate StrLess(a: string, b: string) {
    if |a| == 0 then |b| > 0
    else if |b| == 0 then false
    else if a[0] != b[0] then a[0] < b[0]
    else StrLess(a[1..], b[1..])
  }

  lemma {:induction false} StrLessIrreflexive(a: string)
    ensures !StrLess(a, a)
  {
    if |a| > 0 {
      StrLessIrreflexive(a[1..]);
    }
  }

  lemma {:induction false} StrLessTransitive(a: string, b: string, c: string)
    requires StrLess(a, b) && StrLess(b, c)
    ensures StrLess(a, c)
  {
    if |a| > 0 && |b| > 0 && |c| > 0 && a[0] == b[0] && b[0] == c[0] {
      StrLessTransitive(a[1..], b[1..], c[1..]);
    }
  }

  lemma {:induction false} StrLessTotal(a: string, b: string)
    requires a != b
    ensures StrLess(a, b) || StrLess(b, a)
  {
    if |a| > 0 && |b| > 0 && a[0] == b[0] {
      assert a == [a[0]] + a[1..] && b == [b[0]] + b[1..];
      StrLessTotal(a[1..], b[1..]);
    }
  }

  lemma StrLessIsStrictTotalOrder()
    ensures StrictTotalOrder(StrLess)
  {
    forall a: string
      ensures !StrLess(a, a)
    {
      StrLessIrreflexive(a);
    }
    forall a: string, b: string, c: string | StrLess(a, b) && StrLess(b, c)
      ensures StrLess(a, c)
    {
      StrLessTransitive(a, b, c);
    }
    forall a: string, b: string | a != b
      ensures StrLess(a, b) || StrLess(b, a)
    {
      StrLessTotal(a, b);
    }
  }

  lemma IntLessIsStrictTotalOrder()
    ensures StrictTotalOrder(IntLess)
  {
  }

  /** `rows` is the per-subject table of `log`: subjects in ascending order,
      one row per subject present, each with that subject's half-hours. */
  ghost predicate IsSubjectTable(rows: seq<(string, nat)>, log: Log) {
    && SortedBy(rows, StrLess)
    && RowKeys(rows) == (set i | 0 <= i < |log| :: log[i].subject)
    && (forall s :: Lookup(rows, s) == HoursWhere(log, SubjectOf, s))
    && RowsTotal(rows) == TotalHours(log)
  }

  /** `rows` is the per-day table of `log`: days in ascending order, one row
      per day present, each with that day's half-hours. */
  ghost predicate IsDayTable(rows: seq<(int, nat)>, log: Log) {
    && SortedBy(rows, IntLess)
    && RowKeys(rows) == (set i | 0 <= i < |log| :: log[i].date)
    && (forall d :: Lookup(rows, d) == HoursWhere(log, DateOf, d))
    && RowsTotal(rows) == TotalHours(log)
  }

  /** Half-hours per subject, subjects in ascending order. */
  function SubjectHours(log: Log): (rows: seq<(string, nat)>)
    ensures IsSubjectTable(rows, log)
  {
    StrLessIsStrictTotalOrder();
    GroupSums(log, SubjectOf, StrLess)
  }

  /** Half-hours per day, days in ascending order. */
  function DailyHours(log: Log): (rows: seq<(int, nat)>)
    ensures IsDayTable(rows, log)
  {
    IntLessIsStrictTotalOrder();
    GroupSums(log, DateOf, IntLess)
  }

  /** Sessions of 1, 2 and 1.5 hours give Math 3 hours and Art 1.5 hours. */
  lemma SubjectTotalsExample()
    ensures var rows := SubjectHours([Record(0, "Math", 2, Good), Record(0, "Math", 4, Good), Record(0, "Art", 3, Great)]);
      && RowKeys(rows) == {"Math", "Art"}
      && Lookup(rows, "Math") == 6
      && Lookup(rows, "Art") == 3
  {
  }
}
