/** views/PersonalDashboard.tsx: the calendar's day keys and event markers, the selected
    day's todos and schedules, and the two add forms. The calendar arithmetic of `Date`
    (days in a month, the first weekday, month changes) is left to the caller: the model
    starts from a year, a zero-based month and a day number. */
module PersonalDashboard {
  import opened Wrappers
  import opened Strings
  import opened Seqs
  import opened Types
  import LocalApi

  // ---------------------------------------------------------------------------------------
  // Date keys

  /** `String(n).padStart(2, '0')`: one-digit numbers get a leading zero, longer ones are
      left alone. */
  function Pad2(n: nat): (r: string)
    ensures forall i :: 0 <= i < |r| ==> '0' <= r[i] <= '9'
  {
    if n < 10 then "0" + NatToString(n) else NatToString(n)
  }

  /** `${year}-${pad(month + 1)}-${pad(day)}` with a zero-based month. */
  function DateKey(year: nat, month0: nat, day: nat): string {
    NatToString(year) + "-" + Pad2(month0 + 1) + "-" + Pad2(day)
  }

  /** `String(n)` has one digit below 10 and one more for each factor of ten. */
  lemma DigitCount(n: nat)
    ensures n < 10 ==> |NatToString(n)| == 1
    ensures n >= 10 ==> |NatToString(n)| == |NatToString(n / 10)| + 1
  {
  }

  /** Numbers below 100 pad to exactly two digits, which read back as the number. */
  lemma Pad2Value(n: nat)
    requires n < 100
    ensures |Pad2(n)| == 2
    ensures DigitsValue(Pad2(n)) == n
  {
    var r := Pad2(n);
    DigitCount(n);
    if n < 10 {
      assert r[..1] == "0";
      assert DigitsValue(r[..1]) == 0 by {
        assert r[..1][..0] == "";
      }
    } else {
      DigitCount(n / 10);
      NatToStringRoundTrip(n);
    }
  }

  /** Reads a key back from its end: two digits of day, a dash, two digits of month, a dash,
      and the year in front. */
  function ParseDateKey(key: string): (int, int, int)
    requires |key| >= 6
  {
    var year := key[..|key| - 6];
    var month := key[|key| - 5..|key| - 3];
    var day := key[|key| - 2..];
    (if forall i :: 0 <= i < |year| ==> '0' <= year[i] <= '9' then DigitsValue(year) else -1,
     if forall i :: 0 <= i < |month| ==> '0' <= month[i] <= '9' then DigitsValue(month) - 1 else -1,
     if forall i :: 0 <= i < |day| ==> '0' <= day[i] <= '9' then DigitsValue(day) else -1)
  }

  /** A key is read back as the year, month and day it was made from (for any year, and a
      month and day below 100), so different dates never share a key. */
  lemma DateKeyRoundTrip(year: nat, month0: nat, day: nat)
    requires month0 + 1 < 100 && day < 100
    ensures |DateKey(year, month0, day)| >= 6
    ensures ParseDateKey(DateKey(year, month0, day)) == (year, month0, day)
  {
    Pad2Value(month0 + 1);
    Pad2Value(day);
    DateKeyPieces(NatToString(year), Pad2(month0 + 1), Pad2(day));
    NatToStringRoundTrip(year);
  }

  /** Where the pieces of a key sit when month and day take two characters each. */
  lemma DateKeyPieces(y: string, m: string, d: string)
    requires |m| == 2 && |d| == 2
    ensures var key := y + "-" + m + "-" + d;
      && |key| == |y| + 6
      && key[..|key| - 6] == y && key[|key| - 5..|key| - 3] == m && key[|key| - 2..] == d
  {
  }

  lemma DateKeyInjective(y1: nat, m1: nat, d1: nat, y2: nat, m2: nat, d2: nat)
    requires m1 + 1 < 100 && d1 < 100 && m2 + 1 < 100 && d2 < 100
    requires DateKey(y1, m1, d1) == DateKey(y2, m2, d2)
    ensures y1 == y2 && m1 == m2 && d1 == d2
  {
    DateKeyRoundTrip(y1, m1, d1);
    DateKeyRoundTrip(y2, m2, d2);
  }

  /** A four-digit year gives the familiar ten-character `YYYY-MM-DD`. */
  lemma DateKeyShape(year: nat, month0: nat, day: nat)
    requires 1000 <= year <= 9999 && month0 < 12 && 1 <= day <= 31
    ensures var key := DateKey(year, month0, day);
      |key| == 10 && key[4] == '-' && key[7] == '-'
  {
    DigitCount(year);
    DigitCount(year / 10);
    DigitCount(year / 100);
    DigitCount(year / 1000);
    Pad2Value(month0 + 1);
    Pad2Value(day);
    DateKeyPieces(NatToString(year), Pad2(month0 + 1), Pad2(day));
  }

  // ---------------------------------------------------------------------------------------
  // The selected day

  function TodoDate(t: Todo): string { t.date }
  function ScheduleDate(s: Schedule): string { s.date }

  /** `dayTodos`. */
  function DayTodos(todos: seq<Todo>, date: string): seq<Todo> {
    Filter(todos, HasKey(TodoDate, date))
  }

  /** `daySchedules`: the day's schedules sorted by time. */
  function DaySchedules(schedules: seq<Schedule>, date: string): seq<Schedule> {
    SortBy(Filter(schedules, HasKey(ScheduleDate, date)), LocalApi.ScheduleTime)
  }

  /** The day's todos are those with the date, each as often as in the list, in list order. */
  lemma DayTodosSpec(todos: seq<Todo>, date: string)
    ensures IsSubseq(DayTodos(todos, date), todos)
    ensures forall t :: t in DayTodos(todos, date) <==> t in todos && t.date == date
    ensures forall t :: multiset(DayTodos(todos, date))[t] == if t.date == date then multiset(todos)[t] else 0
  {
    HasKeyMembers(todos, TodoDate, date);
    FilterSpec(todos, HasKey(TodoDate, date));
  }

  /** The day's schedules are exactly those with the date, sorted by time, and schedules at
      the same time keep their list order. */
  lemma DaySchedulesSpec(schedules: seq<Schedule>, date: string, time: string)
    ensures var r := DaySchedules(schedules, date);
      && SortedBy(r, LocalApi.ScheduleTime)
      && multiset(r) == multiset(Filter(schedules, HasKey(ScheduleDate, date)))
      && Filter(r, HasKey(LocalApi.ScheduleTime, time))
         == Filter(Filter(schedules, HasKey(ScheduleDate, date)), HasKey(LocalApi.ScheduleTime, time))
  {
    var f := Filter(schedules, HasKey(ScheduleDate, date));
    SortBySorted(f, LocalApi.ScheduleTime);
    SortByStable(f, LocalApi.ScheduleTime, time);
  }

  lemma DaySchedulesMembers(schedules: seq<Schedule>, date: string)
    ensures forall s :: s in DaySchedules(schedules, date) <==> s in schedules && s.date == date
  {
    HasKeyMembers(schedules, ScheduleDate, date);
    SortByMembers(Filter(schedules, HasKey(ScheduleDate, date)), LocalApi.ScheduleTime);
  }

  /** `hasEventOnDate`: some schedule on the day, or some open todo. */
  predicate HasEvent(schedules: seq<Schedule>, todos: seq<Todo>, date: string) {
    (exists i :: 0 <= i < |schedules| && schedules[i].date == date)
    || (exists i :: 0 <= i < |todos| && todos[i].date == date && !todos[i].completed)
  }

  /** A day carries the marker exactly when selecting it lists a schedule or an open todo. */
  lemma HasEventMatchesDayLists(schedules: seq<Schedule>, todos: seq<Todo>, date: string)
    ensures HasEvent(schedules, todos, date) <==>
      DaySchedules(schedules, date) != [] || exists t :: t in DayTodos(todos, date) && !t.completed
  {
    DayTodosSpec(todos, date);
    DaySchedulesMembers(schedules, date);
    var r := DaySchedules(schedules, date);
    if r != [] {
      assert r[0] in r;
    }
    if exists i :: 0 <= i < |schedules| && schedules[i].date == date {
      var i :| 0 <= i < |schedules| && schedules[i].date == date;
      assert schedules[i] in r;
    }
    if exists i :: 0 <= i < |todos| && todos[i].date == date && !todos[i].completed {
      var i :| 0 <= i < |todos| && todos[i].date == date && !todos[i].completed;
      assert todos[i] in DayTodos(todos, date);
    }
  }

  // ---------------------------------------------------------------------------------------
  // The add forms

  /** `addTodo`: blank text adds nothing; otherwise the todo is added for the selected day
      with the text as typed, and the field is cleared. Returns the list and the field. */
  function AddTodo(todos: seq<Todo>, text: string, priority: Priority, date: string, freshId: string): (r: (seq<Todo>, string))
    ensures Trim(text) == "" ==> r == (todos, text)
    ensures Trim(text) != "" ==> r.1 == "" && r.0 == LocalApi.AddTodo(todos, text, priority, date, freshId)
  {
    if Trim(text) == "" then (todos, text)
    else (LocalApi.AddTodo(todos, text, priority, date, freshId), "")
  }

  /** `addSchedule`: a blank title or time adds nothing; otherwise the schedule is added for
      the selected day and both fields are cleared. */
  function AddSchedule(schedules: seq<Schedule>, title: string, time: string, date: string, freshId: string)
    : (r: (seq<Schedule>, string, string))
    ensures Trim(title) == "" || Trim(time) == "" ==> r == (schedules, title, time)
    ensures Trim(title) != "" && Trim(time) != "" ==>
      r.1 == "" && r.2 == "" && r.0 == LocalApi.AddSchedule(schedules, title, time, date, None, freshId)
  {
    if Trim(title) == "" || Trim(time) == "" then (schedules, title, time)
    else (LocalApi.AddSchedule(schedules, title, time, date, None, freshId), "", "")
  }

  /** An added todo is the last of its day's list and marks the day. */
  lemma AddedTodoMarksDay(schedules: seq<Schedule>, todos: seq<Todo>, text: string, priority: Priority,
                          date: string, freshId: string)
    requires Trim(text) != ""
    ensures var after := AddTodo(todos, text, priority, date, freshId).0;
      && DayTodos(after, date) == DayTodos(todos, date) + [Todo(freshId, text, false, priority, date)]
      && HasEvent(schedules, after, date)
  {
    var t := Todo(freshId, text, false, priority, date);
    FilterConcat(todos, [t], HasKey(TodoDate, date));
    FilterSingle(t, HasKey(TodoDate, date));
    var after := AddTodo(todos, text, priority, date, freshId).0;
    assert after[|todos|] == t;
  }

  /** An added schedule appears among its day's schedules and marks the day. */
  lemma AddedScheduleMarksDay(schedules: seq<Schedule>, todos: seq<Todo>, title: string, time: string,
                              date: string, freshId: string)
    requires Trim(title) != "" && Trim(time) != ""
    ensures var after := AddSchedule(schedules, title, time, date, freshId).0;
      && Schedule(freshId, title, time, date, None) in DaySchedules(after, date)
      && HasEvent(after, todos, date)
  {
    var s := Schedule(freshId, title, time, date, None);
    var after := AddSchedule(schedules, title, time, date, freshId).0;
    LocalApi.AddScheduleSpec(schedules, title, time, date, None, freshId, time);
    assert s in multiset(after);
    DaySchedulesMembers(after, date);
    var i :| 0 <= i < |after| && after[i] == s;
  }
}
