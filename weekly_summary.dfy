/** The teacher weekly summary: the tasks of the current Sunday-to-Saturday
    week, the hours they take, and the salary those hours earn at the
    teacher's first subject's rate. */
module WeeklySummary {
  import opened Text
  import opened Numbers
  import opened Interfaces
  import opened Time
  import opened Seqs

  // ---------------------------------------------------------------------
  // calculateTaskHours
  // ---------------------------------------------------------------------

  /** `const [h, m] = t.split(':').map(Number)` followed by `h + m / 60`. A
      missing minute part is `undefined`, which makes the sum NaN. */
  function ClockHours(t: string): Number {
    var parts := Split(t, ':');
    var h := FromString(parts[0]);
    var m := if |parts| > 1 then FromString(parts[1]) else NaN;
    h.Plus(m.Over(60))
  }

  /** `calculateTaskHours(start, end)`: `(eh + em / 60) - (sh + sm / 60)`. */
  function CalculateTaskHours(start: string, end: string): Number {
    ClockHours(end).Minus(ClockHours(start))
  }

  /** The hours of one task. */
  function TaskHours(t: Task): Number {
    CalculateTaskHours(t.startTime, t.endTime)
  }

  /** Two digit runs around a colon are read as hours and minutes. */
  lemma ClockHoursOfParts(a: string, b: string)
    requires AllDigits(a) && AllDigits(b)
    ensures ClockHours(a + [':'] + b)
            == Num(DigitsValue(a) as real).Plus(Num(DigitsValue(b) as real).Over(60))
  {
    NoColonInDigits(a);
    NoColonInDigits(b);
    SplitAround(a, b, ':');
  }

  lemma Sixtieths(h: nat, m: nat)
    ensures Num(h as real).Plus(Num(m as real).Over(60)).value * 60.0 == (h * 60 + m) as real
  {
    var x := Num(m as real).Over(60).value;
    assert x * 60.0 == m as real;
    assert (h as real + x) * 60.0 == h as real * 60.0 + x * 60.0;
  }

  /** An "HH:MM" text is read as its hour plus its minutes in sixtieths. */
  lemma ClockHoursOfText(h: nat, m: nat)
    requires h < 100 && m < 100
    ensures ClockHours(ClockText(h, m)).Num?
    ensures ClockHours(ClockText(h, m)).value * 60.0 == (h * 60 + m) as real
  {
    var a, b := TwoDigits(h), TwoDigits(m);
    assert ClockText(h, m) == a + [':'] + b;
    TwoDigitsValue(h);
    TwoDigitsValue(m);
    ClockHoursOfParts(a, b);
    var x := Num(m as real).Over(60);
    var r := Num(h as real).Plus(x);
    assert ClockHours(ClockText(h, m)) == r;
    Sixtieths(h, m);
  }

  /** For times as a time input writes them, the result times 60 is the
      number of minutes from start to end; it is negative when the end is
      before the start, since nothing checks the order. */
  lemma TaskHoursOfClockTexts(sh: nat, sm: nat, eh: nat, em: nat)
    requires sh < 100 && sm < 100 && eh < 100 && em < 100
    ensures CalculateTaskHours(ClockText(sh, sm), ClockText(eh, em)).Num?
    ensures CalculateTaskHours(ClockText(sh, sm), ClockText(eh, em)).value * 60.0
            == ((eh * 60 + em) - (sh * 60 + sm)) as real
  {
    ClockHoursOfText(sh, sm);
    ClockHoursOfText(eh, em);
  }

  /** The same as a quotient, with the texts passed in. */
  lemma HoursFromMinutes(s: string, e: string, sh: nat, sm: nat, eh: nat, em: nat)
    requires sh < 100 && sm < 100 && eh < 100 && em < 100
    requires s == ClockText(sh, sm) && e == ClockText(eh, em)
    ensures CalculateTaskHours(s, e) == Num(((eh * 60 + em) - (sh * 60 + sm)) as real / 60.0)
  {
    TaskHoursOfClockTexts(sh, sm, eh, em);
  }

  lemma ClockTextLiterals()
    ensures ClockText(9, 0) == "09:00" && ClockText(10, 30) == "10:30" && ClockText(10, 0) == "10:00"
  {
  }

  /** "09:00" to "10:30" is an hour and a half. */
  lemma TaskHoursExample()
    ensures CalculateTaskHours("09:00", "10:30") == Num(1.5)
  {
    ClockTextLiterals();
    HoursFromMinutes("09:00", "10:30", 9, 0, 10, 30);
  }

  /** "10:00" to "09:00" is minus one hour: the order is not checked. */
  lemma NegativeTaskHoursExample()
    ensures CalculateTaskHours("10:00", "09:00") == Num(-1.0)
  {
    ClockTextLiterals();
    HoursFromMinutes("10:00", "09:00", 10, 0, 9, 0);
  }

  /** A time without a minute part gives NaN, and so does a non-numeric one. */
  lemma MalformedTimeIsNaN()
    ensures CalculateTaskHours("9", "10:00") == NaN
    ensures CalculateTaskHours("09:00", "9h:00") == NaN
  {
    SplitNoSeparator("9", ':');
    assert "9h:00" == "9h" + [':'] + "00";
    SplitAround("9h", "00", ':');
    FromStringNaN("9h", 1);
  }

  // ---------------------------------------------------------------------
  // The week window and the totals
  // ---------------------------------------------------------------------

  /** `new Date(task.date)` is midnight of the task's day; it belongs to the
      week when `weekStart <= taskDate < weekEnd`. */
  predicate InWeek(t: Task, weekStart: int) {
    weekStart <= Midnight(t.date) < weekStart + 7 * MinutesPerDay
  }

  /** `allTasks.filter(...)` with the week window. */
  function TasksOfWeek(all: seq<Task>, weekStart: int): seq<Task> {
    Filter(all, t => InWeek(t, weekStart))
  }

  /** The week's tasks are exactly the tasks dated in the window, in their
      original order, each as often as in the full list. */
  lemma TasksOfWeekExact(all: seq<Task>, weekStart: int)
    ensures IsSubsequence(TasksOfWeek(all, weekStart), all)
    ensures forall i :: 0 <= i < |TasksOfWeek(all, weekStart)| ==> InWeek(TasksOfWeek(all, weekStart)[i], weekStart)
    ensures forall i :: 0 <= i < |all| && InWeek(all[i], weekStart) ==> all[i] in TasksOfWeek(all, weekStart)
    ensures multiset(TasksOfWeek(all, weekStart)) + multiset(Filter(all, t => !InWeek(t, weekStart))) == multiset(all)
  {
    FilterIsSubsequence(all, t => InWeek(t, weekStart));
    FilterPartition(all, t => InWeek(t, weekStart), t => !InWeek(t, weekStart));
  }

  /** For the current week a task is kept exactly when its own date rounds
      down to the same Sunday. */
  lemma InCurrentWeekIff(t: Task, now: int)
    ensures InWeek(t, WeekStart(now)) <==> WeekStart(Midnight(t.date)) == WeekStart(now)
  {
    if InWeek(t, WeekStart(now)) {
      WeekStartUnique(Midnight(t.date), WeekStart(now));
    }
  }

  /** The hours of a list of tasks, added up from first to last. */
  function SumHours(ts: seq<Task>): Number {
    if ts == [] then Num(0.0) else SumHours(ts[..|ts| - 1]).Plus(TaskHours(ts[|ts| - 1]))
  }

  /** The total is finite exactly when every task's hours are, and then it
      is their sum; one malformed time makes the week's total NaN. */
  lemma {:induction false} SumHoursNaN(ts: seq<Task>)
    ensures SumHours(ts).NaN? <==> exists i :: 0 <= i < |ts| && TaskHours(ts[i]).NaN?
  {
    if ts != [] {
      var init := ts[..|ts| - 1];
      SumHoursNaN(init);
      if SumHours(init).NaN? {
        var i :| 0 <= i < |init| && TaskHours(init[i]).NaN?;
        assert ts[i] == init[i];
      }
      if exists i :: 0 <= i < |ts| && TaskHours(ts[i]).NaN? {
        var i :| 0 <= i < |ts| && TaskHours(ts[i]).NaN?;
        if i < |ts| - 1 {
          assert init[i] == ts[i];
        }
      }
    }
  }

  /** One more task adds its hours to the running total. */
  lemma SumHoursNext(ts: seq<Task>, i: nat)
    requires i < |ts|
    ensures SumHours(ts[..i + 1]) == SumHours(ts[..i]).Plus(TaskHours(ts[i]))
  {
    assert ts[..i + 1][..i] == ts[..i];
  }

  /** Totals of consecutive lists add up. */
  lemma {:induction false} SumHoursAppend(a: seq<Task>, b: seq<Task>)
    ensures SumHours(a + b) == SumHours(a).Plus(SumHours(b))
  {
    if b == [] {
      assert a + b == a;
    } else {
      var b', last := b[..|b| - 1], b[|b| - 1];
      assert (a + b)[..|a + b| - 1] == a + b';
      assert (a + b)[|a + b| - 1] == last;
      assert SumHours(a + b) == SumHours(a + b').Plus(TaskHours(last));
      SumHoursAppend(a, b');
      PlusAssociative(SumHours(a), SumHours(b'), TaskHours(last));
    }
  }

  /** The rate every task is paid at: the first subject's, or 0 when the
      teacher has no subjects. A task's own subject is not consulted. */
  function PayRate(teacher: Teacher): real {
    if |teacher.subjects| > 0 then teacher.subjects[0].payPerHour else 0.0
  }

  /** The salary of a list of tasks, each task's hours paid at `rate`,
      added up from first to last. */
  function SumSalary(ts: seq<Task>, rate: real): Number {
    if ts == [] then Num(0.0)
    else SumSalary(ts[..|ts| - 1], rate).Plus(TaskHours(ts[|ts| - 1]).Times(Num(rate)))
  }

  lemma SumSalaryNext(ts: seq<Task>, i: nat, rate: real)
    requires i < |ts|
    ensures SumSalary(ts[..i + 1], rate) == SumSalary(ts[..i], rate).Plus(TaskHours(ts[i]).Times(Num(rate)))
  {
    assert ts[..i + 1][..i] == ts[..i];
  }

  /** Paying every task at the same rate is paying the total hours at that
      rate. */
  lemma {:induction false} SumSalaryIsHoursTimesRate(ts: seq<Task>, rate: real)
    ensures SumSalary(ts, rate) == SumHours(ts).Times(Num(rate))
  {
    if ts != [] {
      var init := ts[..|ts| - 1];
      SumSalaryIsHoursTimesRate(init, rate);
      TimesDistributes(SumHours(init), TaskHours(ts[|ts| - 1]), rate);
    }
  }

  /** A week with no tasks has no hours and no salary. */
  lemma EmptyWeekTotals(all: seq<Task>, now: int, teacher: Teacher)
    requires forall i :: 0 <= i < |all| ==> !InWeek(all[i], WeekStart(now))
    ensures TasksOfWeek(all, WeekStart(now)) == []
    ensures SumHours(TasksOfWeek(all, WeekStart(now))) == Num(0.0)
    ensures SumSalary(TasksOfWeek(all, WeekStart(now)), PayRate(teacher)) == Num(0.0)
  {
    FilterNone(all, t => InWeek(t, WeekStart(now)));
  }

  /** The `forEach` over the week's tasks: each task's hours are added to
      the hours total and, at the pay rate, to the salary total. */
  method AddUpTasks(tasks: seq<Task>, teacher: Teacher) returns (totalHours: Number, totalSalary: Number)
    ensures totalHours == SumHours(tasks)
    ensures totalSalary == SumSalary(tasks, PayRate(teacher))
  {
    totalHours, totalSalary := Num(0.0), Num(0.0);
    for i := 0 to |tasks|
      invariant totalHours == SumHours(tasks[..i])
      invariant totalSalary == SumSalary(tasks[..i], PayRate(teacher))
    {
      var task := tasks[i];
      var hours := TaskHours(task);
      SumHoursNext(tasks, i);
      SumSalaryNext(tasks, i, PayRate(teacher));
      totalHours := totalHours.Plus(hours);

      var payPerHour := 0.0;
      if |teacher.subjects| > 0 {
        payPerHour := teacher.subjects[0].payPerHour;
      }
      totalSalary := totalSalary.Plus(hours.Times(Num(payPerHour)));
    }
    assert tasks[..|tasks|] == tasks;
  }

  class TeacherWeeklySummaryComponent {
    var teacher: Teacher
    var weeklyTasks: seq<Task>
    var totalHours: Number
    var totalSalary: Number

    constructor (teacher: Teacher)
      ensures this.teacher == teacher
      ensures weeklyTasks == [] && totalHours == Num(0.0) && totalSalary == Num(0.0)
    {
      this.teacher := teacher;
      weeklyTasks := [];
      totalHours := Num(0.0);
      totalSalary := Num(0.0);
    }

    /** `loadWeeklySummary()`. `allTasks` is what the database returns for
        the teacher's email and `now` is the clock reading. The new state
        depends on these and the teacher only, so loading twice with the
        same inputs gives the same totals. */
    method LoadWeeklySummary(allTasks: seq<Task>, now: int)
      modifies this
      ensures teacher == old(teacher)
      ensures weeklyTasks == TasksOfWeek(allTasks, WeekStart(now))
      ensures totalHours == SumHours(weeklyTasks)
      ensures totalSalary == SumSalary(weeklyTasks, PayRate(teacher))
    {
      var weekStart := WeekStart(now);
      weeklyTasks := TasksOfWeek(allTasks, weekStart);
      totalHours, totalSalary := AddUpTasks(weeklyTasks, teacher);
    }
  }
}
