/** The teacher's task list: the task form's validators and error messages,
    completion toggling, the pending/completed partition, the filtered and
    sorted view, the completion rate and the duration label. */
module Tasks {
  import opened Text
  import opened Interfaces
  import opened Time
  import opened Seqs

  // ---------------------------------------------------------------------
  // Field validators
  // ---------------------------------------------------------------------

  /** `noWhitespaceValidator`: `{whitespace: true}` for a value that is
      non-empty but trims to nothing. */
  function NoWhitespaceValidator(value: string): (whitespace: bool)
    ensures whitespace <==> value != [] && AllSpace(value)
  {
    TrimEmptyIff(value);
    value != [] && |Trim(value)| == 0
  }

  /** `futureDateValidator`: `{pastDate: true}` when a date is chosen whose
      midnight is before today's midnight. `today` is the clock's day. */
  function FutureDateValidator(value: Option<int>, today: int): (pastDate: bool)
    ensures pastDate <==> value.Some? && value.value < today
  {
    value.Some? && Midnight(value.value) < Midnight(today)
  }

  // ---------------------------------------------------------------------
  // Form-level validators
  // ---------------------------------------------------------------------

  datatype TimeErrorKind = TimeError | MinimumDuration

  /** `timeValidator`: with both times filled in, `timeError` when the start
      is not before the end and `minimumDuration` when the session is
      shorter than 15 minutes. A time that does not parse is an invalid
      date; every comparison with it is false, so it passes. */
  function TimeValidator(start: string, end: string): (r: Option<TimeErrorKind>)
    ensures start == [] || end == [] ==> r == None
    ensures ClockMinutes(start).None? || ClockMinutes(end).None? ==> r == None
    ensures r == Some(TimeError) <==>
              start != [] && end != [] && ClockMinutes(start).Some? && ClockMinutes(end).Some?
              && ClockMinutes(start).value >= ClockMinutes(end).value
    ensures r == Some(MinimumDuration) <==>
              start != [] && end != [] && ClockMinutes(start).Some? && ClockMinutes(end).Some?
              && 0 < ClockMinutes(end).value - ClockMinutes(start).value < 15
  {
    if start != [] && end != [] then
      var s, e := ClockMinutes(start), ClockMinutes(end);
      if s.Some? && e.Some? && s.value >= e.value then Some(TimeError)
      else if s.Some? && e.Some? && e.value - s.value < 15 then Some(MinimumDuration)
      else None
    else None
  }

  /** For the times a time input produces, the form passes exactly when the
      session lasts at least 15 minutes. */
  lemma TimeValidatorOnClockTexts(sh: nat, sm: nat, eh: nat, em: nat)
    requires sh < 24 && sm < 60 && eh < 24 && em < 60
    ensures TimeValidator(ClockText(sh, sm), ClockText(eh, em)) == None
            <==> (eh * 60 + em) - (sh * 60 + sm) >= 15
    ensures TimeValidator(ClockText(sh, sm), ClockText(eh, em)) == Some(TimeError)
            <==> (eh * 60 + em) <= (sh * 60 + sm)
  {
    ClockTextMinutes(sh, sm);
    ClockTextMinutes(eh, em);
  }

  /** The task that `duplicateTaskValidator` matches. */
  predicate SameSlot(t: Task, title: string, date: int, startTime: string) {
    EqualsIgnoreCase(t.title, title) && t.date == date && t.startTime == startTime
  }

  /** `duplicateTaskValidator`: with title, date and start time all filled
      in, `{duplicate: true}` when an existing task has the same title up to
      case, the same date and the same start time. */
  function DuplicateTaskValidator(tasks: seq<Task>, title: string, date: Option<int>, startTime: string): (duplicate: bool)
    ensures duplicate <==>
              title != [] && date.Some? && startTime != []
              && exists i :: 0 <= i < |tasks| && SameSlot(tasks[i], title, date.value, startTime)
  {
    title != [] && date.Some? && startTime != []
    && IndexOfFirst(tasks, (t: Task) => SameSlot(t, title, date.value, startTime)) >= 0
  }

  /** Only the case-folded title matters to the duplicate check. */
  lemma DuplicateIgnoresCase(tasks: seq<Task>, title: string, date: Option<int>, startTime: string)
    ensures DuplicateTaskValidator(tasks, ToLower(title), date, startTime)
            == DuplicateTaskValidator(tasks, title, date, startTime)
  {
    ToLowerIdempotent(title);
    if date.Some? {
      forall t: Task
        ensures SameSlot(t, ToLower(title), date.value, startTime) == SameSlot(t, title, date.value, startTime)
      {
      }
    }
  }

  // ---------------------------------------------------------------------
  // Error messages
  // ---------------------------------------------------------------------

  /** The keys of a control's `errors` object that the messages look at;
      `minlength` and `maxlength` carry their `requiredLength`. */
  datatype ControlErrors = ControlErrors(
    required: bool,
    minlength: Option<nat>,
    maxlength: Option<nat>,
    whitespace: bool,
    pastDate: bool)

  /** A control's `errors`: None for a valid control (`errors` is null). */
  function Errors(e: ControlErrors): Option<ControlErrors> {
    if e == ControlErrors(false, None, None, false, false) then None else Some(e)
  }

  /** The errors of a text control with `required`, `minLength(min)`,
      `maxLength(max)` and `noWhitespaceValidator`. The length validators
      skip an empty value, as Angular's do. */
  function TextControlErrors(value: string, min: nat, max: nat): Option<ControlErrors> {
    Errors(ControlErrors(
      value == [],
      if value != [] && |value| < min then Some(min) else None,
      if |value| > max then Some(max) else None,
      NoWhitespaceValidator(value),
      false))
  }

  /** `getFieldDisplayName` */
  function FieldDisplayName(fieldName: string): string {
    if fieldName == "title" then "Title"
    else if fieldName == "description" then "Description"
    else if fieldName == "date" then "Date"
    else if fieldName == "startTime" then "Start time"
    else if fieldName == "endTime" then "End time"
    else fieldName
  }

  /** `getErrorMessage(fieldName)`: '' for a missing or valid control, else
      the first of required, minlength, maxlength, whitespace and pastDate
      that is set, else 'Invalid input'. */
  function ErrorMessage(fieldName: string, errors: Option<ControlErrors>): string {
    match errors
    case None => ""
    case Some(e) =>
      var name := FieldDisplayName(fieldName);
      if e.required then name + " is required"
      else if e.minlength.Some? then name + " must be at least " + NatToString(e.minlength.value) + " characters"
      else if e.maxlength.Some? then name + " cannot exceed " + NatToString(e.maxlength.value) + " characters"
      else if e.whitespace then name + " cannot be empty"
      else if e.pastDate then "Date cannot be in the past"
      else "Invalid input"
  }

  /** What a text control says for each value: an empty value is required;
      a too-short value reports its length even when it is all white space;
      a too-long one likewise; white space of an acceptable length is
      'cannot be empty'; any other value has no message. */
  lemma TextControlMessages(fieldName: string, value: string, min: nat, max: nat)
    requires 1 <= min <= max
    ensures value == [] ==>
              ErrorMessage(fieldName, TextControlErrors(value, min, max)) == FieldDisplayName(fieldName) + " is required"
    ensures 0 < |value| < min ==>
              ErrorMessage(fieldName, TextControlErrors(value, min, max))
              == FieldDisplayName(fieldName) + " must be at least " + NatToString(min) + " characters"
    ensures |value| > max ==>
              ErrorMessage(fieldName, TextControlErrors(value, min, max))
              == FieldDisplayName(fieldName) + " cannot exceed " + NatToString(max) + " characters"
    ensures min <= |value| <= max && AllSpace(value) ==>
              ErrorMessage(fieldName, TextControlErrors(value, min, max)) == FieldDisplayName(fieldName) + " cannot be empty"
    ensures min <= |value| <= max && !AllSpace(value) ==>
              TextControlErrors(value, min, max) == None && ErrorMessage(fieldName, TextControlErrors(value, min, max)) == ""
  {
  }

  /** The title field's messages, with its limits of 3 and 100: an empty
      title is required, ... */
  lemma TitleRequiredMessage()
    ensures ErrorMessage("title", TextControlErrors("", 3, 100)) == "Title is required"
  {
    TextControlMessages("title", "", 3, 100);
    DisplayNameOfTitle();
  }

  /** ... a title of one or two characters, blank or not, is too short, ... */
  lemma TitleTooShortMessage(value: string)
    requires 0 < |value| < 3
    ensures ErrorMessage("title", TextControlErrors(value, 3, 100)) == "Title must be at least 3 characters"
  {
    TextControlMessages("title", value, 3, 100);
    DisplayNameOfTitle();
    TooShortText();
  }

  lemma TooShortText()
    ensures "Title" + " must be at least " + "3" + " characters" == "Title must be at least 3 characters"
  {
  }

  /** ... and a blank title of an acceptable length cannot be empty. */
  lemma TitleBlankMessage(value: string)
    requires 3 <= |value| <= 100 && AllSpace(value)
    ensures ErrorMessage("title", TextControlErrors(value, 3, 100)) == "Title cannot be empty"
  {
    TextControlMessages("title", value, 3, 100);
    DisplayNameOfTitle();
  }

  lemma DisplayNameOfTitle()
    ensures FieldDisplayName("title") == "Title" && NatToString(3) == "3"
  {
  }

  // ---------------------------------------------------------------------
  // Completion rate and duration label
  // ---------------------------------------------------------------------

  predicate IsPending(t: Task) { !t.completed }

  predicate IsCompleted(t: Task) { t.completed }

  function CompletedCount(ts: seq<Task>): (c: nat)
    ensures c <= |ts|
  {
    |Filter(ts, IsCompleted)|
  }

  /** `getCompletionRate()`: 0 for no tasks, else
      `Math.round(completed / total * 100)`, that is the integer r with
      r - 1/2 <= 100 c / n < r + 1/2. */
  function CompletionRate(ts: seq<Task>): (r: int)
    ensures 0 <= r <= 100
    ensures |ts| == 0 ==> r == 0
    ensures |ts| > 0 ==> 2 * |ts| * r <= 200 * CompletedCount(ts) + |ts| < 2 * |ts| * (r + 1)
  {
    if |ts| == 0 then 0
    else
      var n, c := |ts|, CompletedCount(ts);
      RoundedPercent(c, n);
      (200 * c + n) / (2 * n)
  }

  lemma RoundedPercent(c: nat, n: nat)
    requires 0 < n && c <= n
    ensures 0 <= (200 * c + n) / (2 * n) <= 100
    ensures 2 * n * ((200 * c + n) / (2 * n)) <= 200 * c + n < 2 * n * ((200 * c + n) / (2 * n) + 1)
  {
    DivBelow(200 * c + n, 2 * n, 101);
  }

  lemma MulMonotone(d: int, a: int, b: int)
    requires d > 0 && a <= b
    ensures d * a <= d * b
  {
  }

  /** x / d is below k when x is below d * k. */
  lemma DivBelow(x: int, d: int, k: int)
    requires d > 0 && 0 <= x < d * k
    ensures x / d < k
  {
    var q := x / d;
    assert x == d * q + x % d;
    if q >= k {
      MulMonotone(d, k, q);
    }
  }

  /** x / d is at least k when x is at least d * k. */
  lemma DivAtLeast(x: int, d: int, k: int)
    requires d > 0 && d * k <= x
    ensures x / d >= k
  {
    var q := x / d;
    assert x == d * q + x % d;
    if q < k {
      MulMonotone(d, q + 1, k);
    }
  }

  /** With fewer than 200 tasks the rate reads 100 exactly when all are
      completed and 0 exactly when none are. */
  lemma CompletionRateExtremes(ts: seq<Task>)
    requires 0 < |ts| < 200
    ensures CompletionRate(ts) == 100 <==> CompletedCount(ts) == |ts|
    ensures CompletionRate(ts) == 0 <==> CompletedCount(ts) == 0
  {
    var n, c := |ts|, CompletedCount(ts);
    var x := 200 * c + n;
    if c == n {
      DivModUnique(x, 2 * n, 100, n);
    } else {
      assert x < 2 * n * 100;
      DivBelow(x, 2 * n, 100);
    }
    if c == 0 {
      DivModUnique(x, 2 * n, 0, n);
    } else {
      assert 2 * n * 1 <= x;
      DivAtLeast(x, 2 * n, 1);
    }
  }

  /** From 200 tasks on, rounding shows 100 with a task still pending. */
  lemma CompletionRateRoundsToFull(ts: seq<Task>)
    requires |ts| == 200 && CompletedCount(ts) == 199
    ensures CompletionRate(ts) == 100
  {
    DivModUnique(200 * 199 + 200, 400, 100, 0);
  }

  /** A multiple of d leaves no remainder. */
  lemma MultipleMod(k: int, d: nat)
    requires d > 0
    ensures (k * d) % d == 0
  {
    var q, m := (k * d) / d, (k * d) % d;
    var e := k - q;
    assert e * d == m by {
      assert k * d == q * d + m;
      assert e * d == k * d - q * d;
    }
  }

  /** `x % d` as JavaScript computes it: the sign follows x;
      TruncRemIsRemainder fixes the value. */
  function TruncRem(x: int, d: nat): (r: int)
    requires d > 0
    ensures -(d as int) < r < d
    ensures x >= 0 ==> r == x % d
    ensures x < 0 ==> r <= 0
  {
    if x >= 0 then x % d else -((-x) % d)
  }

  /** x minus its remainder is a multiple of d. With the sign and the bound,
      this leaves one possible value. */
  lemma TruncRemIsRemainder(x: int, d: nat)
    requires d > 0
    ensures (x - TruncRem(x, d)) % d == 0
  {
    if x >= 0 {
      var q := x / d;
      assert x - TruncRem(x, d) == q * d;
      MultipleMod(q, d);
    } else {
      var y := -x;
      var q, m := y / d, y % d;
      assert y == q * d + m;
      assert TruncRem(x, d) == -m;
      assert x - TruncRem(x, d) == (-q) * d;
      MultipleMod(-q, d);
    }
  }

  /** -7 % 3 is -1 in JavaScript, where Python's floor rule would give 2. */
  lemma TruncRemOfNegative()
    ensures TruncRem(-7, 3) == -1 && TruncRem(-90, 60) == -30
  {
  }

  /** The label for a difference of `diff` minutes: `Math.floor(diff / 60)`
      hours and `diff % 60` minutes, as "{h}h {m}m", "{h}h" (the trailing
      space trimmed) or "{m}m". */
  function DurationText(diff: int): string {
    var hours := diff / 60;
    var minutes := TruncRem(diff, 60);
    if hours > 0 then
      if minutes > 0 then IntToString(hours) + "h " + IntToString(minutes) + "m"
      else IntToString(hours) + "h"
    else IntToString(minutes) + "m"
  }

  /** `calculateDuration(startTime, endTime)`. A time that does not parse
      makes the difference NaN and the label "NaNm". */
  function CalculateDuration(startTime: string, endTime: string): (text: string)
    ensures ClockMinutes(startTime).None? || ClockMinutes(endTime).None? ==> text == "NaNm"
  {
    var s, e := ClockMinutes(startTime), ClockMinutes(endTime);
    if s.Some? && e.Some? then DurationText(e.value - s.value) else "NaNm"
  }

  /** The three label shapes for a non-negative number of minutes. */
  lemma DurationTextShapes(d: nat)
    ensures d >= 60 && d % 60 > 0 ==> DurationText(d) == NatToString(d / 60) + "h " + NatToString(d % 60) + "m"
    ensures d >= 60 && d % 60 == 0 ==> DurationText(d) == NatToString(d / 60) + "h"
    ensures d < 60 ==> DurationText(d) == NatToString(d) + "m"
  {
  }

  /** For times a time input produces. */
  lemma CalculateDurationOnClockTexts(sh: nat, sm: nat, eh: nat, em: nat)
    requires sh < 24 && sm < 60 && eh < 24 && em < 60
    ensures CalculateDuration(ClockText(sh, sm), ClockText(eh, em)) == DurationText((eh * 60 + em) - (sh * 60 + sm))
  {
    ClockTextMinutes(sh, sm);
    ClockTextMinutes(eh, em);
  }

  /** A negative difference has no hours part; minus a whole hour reads
      "0m", since `-60 % 60` is `-0`. */
  lemma NegativeDurationText()
    ensures DurationText(-30) == "-30m"
    ensures DurationText(-60) == "0m"
  {
    assert NatToString(30) == "30";
  }

  /** A digit string followed by a unit letter. */
  predicate IsAmount(s: string, unit: char) {
    |s| >= 2 && s[|s| - 1] == unit && AllDigits(s[..|s| - 1])
  }

  function AmountValue(s: string, unit: char): nat
    requires IsAmount(s, unit)
  {
    DigitsValue(s[..|s| - 1])
  }

  /** Reads a duration label back into minutes. */
  function ParseDuration(text: string): Option<int> {
    var parts := Split(text, ' ');
    if |parts| == 1 && IsAmount(text, 'm') then Some(AmountValue(text, 'm'))
    else if |parts| == 1 && IsAmount(text, 'h') then Some(60 * AmountValue(text, 'h'))
    else if |parts| == 2 && IsAmount(parts[0], 'h') && IsAmount(parts[1], 'm') then
      Some(60 * AmountValue(parts[0], 'h') + AmountValue(parts[1], 'm'))
    else None
  }

  lemma AmountOfNat(n: nat, unit: char)
    requires !IsDigit(unit)
    ensures IsAmount(NatToString(n) + [unit], unit)
    ensures AmountValue(NatToString(n) + [unit], unit) == n
    ensures ' ' !in NatToString(n) + [unit] || unit == ' '
  {
    var s := NatToString(n) + [unit];
    assert s[..|s| - 1] == NatToString(n);
  }

  lemma MinutesRoundTrip(d: nat)
    requires d < 60
    ensures ParseDuration(DurationText(d)) == Some(d)
  {
    DurationTextShapes(d);
    AmountOfNat(d, 'm');
    SplitNoSeparator(NatToString(d) + "m", ' ');
  }

  lemma HoursRoundTrip(d: nat)
    requires d >= 60 && d % 60 == 0
    ensures ParseDuration(DurationText(d)) == Some(d)
  {
    DurationTextShapes(d);
    AmountOfNat(d / 60, 'h');
    SplitNoSeparator(NatToString(d / 60) + "h", ' ');
  }

  lemma HoursMinutesRoundTrip(d: nat)
    requires d >= 60 && d % 60 > 0
    ensures ParseDuration(DurationText(d)) == Some(d)
  {
    DurationTextShapes(d);
    var a, b := NatToString(d / 60) + "h", NatToString(d % 60) + "m";
    AmountOfNat(d / 60, 'h');
    AmountOfNat(d % 60, 'm');
    assert DurationText(d) == a + [' '] + b;
    SplitAround(a, b, ' ');
  }

  /** The label of a non-negative number of minutes determines it. */
  lemma DurationRoundTrip(d: nat)
    ensures ParseDuration(DurationText(d)) == Some(d)
  {
    if d < 60 {
      MinutesRoundTrip(d);
    } else if d % 60 == 0 {
      HoursRoundTrip(d);
    } else {
      HoursMinutesRoundTrip(d);
    }
  }

  /** Different non-negative durations get different labels. */
  lemma DurationTextInjective(a: nat, b: nat)
    ensures DurationText(a) == DurationText(b) ==> a == b
  {
    DurationRoundTrip(a);
    DurationRoundTrip(b);
  }

  // ---------------------------------------------------------------------
  // Toggling, filtering and sorting
  // ---------------------------------------------------------------------

  /** `tasks[index].completed = !tasks[index].completed` on a list value. */
  function ToggleAt(ts: seq<Task>, index: nat): (r: seq<Task>)
    requires index < |ts|
    ensures |r| == |ts|
    ensures r[index] == ts[index].(completed := !ts[index].completed)
    ensures forall j :: 0 <= j < |ts| && j != index ==> r[j] == ts[j]
  {
    ts[index := ts[index].(completed := !ts[index].completed)]
  }

  /** Toggling the same task twice restores the list. */
  lemma ToggleTwice(ts: seq<Task>, index: nat)
    requires index < |ts|
    ensures ToggleAt(ToggleAt(ts, index), index) == ts
  {
    var r := ToggleAt(ToggleAt(ts, index), index);
    assert forall j :: 0 <= j < |ts| ==> r[j] == ts[j];
  }

  /** A toggle moves exactly one task between the pending and the completed
      list. */
  lemma {:induction false} ToggleCompletedCount(ts: seq<Task>, index: nat)
    requires index < |ts|
    ensures CompletedCount(ToggleAt(ts, index)) == CompletedCount(ts) + (if ts[index].completed then -1 else 1)
  {
    var r := ToggleAt(ts, index);
    if index == 0 {
      assert r[1..] == ts[1..];
    } else {
      ToggleCompletedCount(ts[1..], index - 1);
      assert r[1..] == ToggleAt(ts[1..], index - 1);
      assert r[0] == ts[0];
    }
  }

  datatype TaskFilter = AllTasks | PendingOnly | CompletedOnly

  datatype SortKey = ByDate | ByTitle

  /** The list `currentFilter` selects. */
  function Chosen(ts: seq<Task>, filter: TaskFilter): seq<Task> {
    match filter
    case AllTasks => ts
    case PendingOnly => Filter(ts, IsPending)
    case CompletedOnly => Filter(ts, IsCompleted)
  }

  /** `new Date(`${t.date} ${t.startTime}`).getTime()` in minutes, None for
      an invalid date. */
  function DateKey(t: Task): Option<int> {
    var m := ClockMinutes(t.startTime);
    if m.Some? then Some(Midnight(t.date) + m.value) else None
  }

  /** The comparator for `sortBy`: the difference of the two instants (a
      NaN difference counts as 0), or `a.title.localeCompare(b.title)`. */
  function Compare(key: SortKey, a: Task, b: Task): int {
    match key
    case ByDate =>
      var ka, kb := DateKey(a), DateKey(b);
      if ka.Some? && kb.Some? then ka.value - kb.value else 0
    case ByTitle => LexCompare(a.title, b.title)
  }

  function TaskOrder(key: SortKey): (Task, Task) -> bool {
    (a: Task, b: Task) => Compare(key, a, b) <= 0
  }

  /** `filtered.sort(comparator)` */
  function SortedView(ts: seq<Task>, key: SortKey): seq<Task> {
    SortBy(ts, TaskOrder(key))
  }

  /** Titles always compare consistently; dates do once every start time
      parses. */
  lemma TaskOrderIsPreorder(ts: seq<Task>, key: SortKey)
    requires key == ByTitle || forall i :: 0 <= i < |ts| ==> DateKey(ts[i]).Some?
    ensures TotalPreorderOn(multiset(ts), TaskOrder(key))
  {
    var leq := TaskOrder(key);
    if key == ByTitle {
      forall a, b | a in multiset(ts) && b in multiset(ts)
        ensures leq(a, b) || leq(b, a)
      {
        LexCompareAntisymmetric(a.title, b.title);
      }
      forall a, b, c | a in multiset(ts) && b in multiset(ts) && c in multiset(ts) && leq(a, b) && leq(b, c)
        ensures leq(a, c)
      {
        LexCompareTransitive(a.title, b.title, c.title);
      }
    } else {
      forall a | a in multiset(ts)
        ensures DateKey(a).Some?
      {
        var i :| 0 <= i < |ts| && ts[i] == a;
      }
    }
  }

  /** `pendingTasks` and `completedTasks` split `tasks`: each keeps the
      order of `tasks`, no task is in both, and together they hold every
      task as often as `tasks` does. */
  lemma PendingCompletedPartition(ts: seq<Task>)
    ensures IsSubsequence(Filter(ts, IsPending), ts) && IsSubsequence(Filter(ts, IsCompleted), ts)
    ensures forall i, j :: 0 <= i < |Filter(ts, IsPending)| && 0 <= j < |Filter(ts, IsCompleted)|
              ==> Filter(ts, IsPending)[i] != Filter(ts, IsCompleted)[j]
    ensures multiset(Filter(ts, IsPending)) + multiset(Filter(ts, IsCompleted)) == multiset(ts)
    ensures |Filter(ts, IsPending)| + |Filter(ts, IsCompleted)| == |ts|
  {
    FilterIsSubsequence(ts, IsPending);
    FilterIsSubsequence(ts, IsCompleted);
    FilterPartition(ts, IsPending, IsCompleted);
  }

  /** The chosen list keeps only tasks of `tasks`, and only the tasks the
      filter asks for. */
  lemma ChosenTasks(ts: seq<Task>, filter: TaskFilter)
    ensures forall t :: t in Chosen(ts, filter) ==> t in ts
    ensures filter == PendingOnly ==> forall t :: t in Chosen(ts, filter) ==> !t.completed
    ensures filter == CompletedOnly ==> forall t :: t in Chosen(ts, filter) ==> t.completed
  {
  }

  /** `filteredTasks` holds the chosen tasks, each as often as the chosen
      list does. */
  lemma FilteredTasksPermutation(ts: seq<Task>, filter: TaskFilter, key: SortKey)
    ensures multiset(SortedView(Chosen(ts, filter), key)) == multiset(Chosen(ts, filter))
    ensures forall t :: t in SortedView(Chosen(ts, filter), key) ==> t in Chosen(ts, filter)
  {
    var view := SortedView(Chosen(ts, filter), key);
    forall t | t in view
      ensures t in Chosen(ts, filter)
    {
      assert t in multiset(view);
    }
  }

  /** `filteredTasks` is in comparator order whenever the comparator is
      consistent on the tasks. */
  lemma FilteredTasksSorted(ts: seq<Task>, filter: TaskFilter, key: SortKey)
    requires key == ByTitle || forall i :: 0 <= i < |ts| ==> DateKey(ts[i]).Some?
    ensures SortedBy(SortedView(Chosen(ts, filter), key), TaskOrder(key))
  {
    var chosen := Chosen(ts, filter);
    if key == ByDate {
      ChosenTasks(ts, filter);
      forall i | 0 <= i < |chosen|
        ensures DateKey(chosen[i]).Some?
      {
        assert chosen[i] in ts;
      }
    }
    TaskOrderIsPreorder(chosen, key);
    SortBySorted(chosen, TaskOrder(key));
  }

  /** `getOriginalIndex(task)`: the first position of a task with the same
      id, or -1. */
  function GetOriginalIndex(tasks: seq<Task>, task: Task): (r: int)
    ensures -1 <= r < |tasks|
    ensures r == -1 <==> forall i :: 0 <= i < |tasks| ==> tasks[i].id != task.id
    ensures r >= 0 ==> tasks[r].id == task.id && forall j :: 0 <= j < r ==> tasks[j].id != task.id
  {
    IndexOfFirst(tasks, (t: Task) => t.id == task.id)
  }

  /** With unique ids, a task shown in a filtered view is found at its own
      position in `tasks`. */
  lemma OriginalIndexOfMember(tasks: seq<Task>, i: nat)
    requires i < |tasks|
    requires forall j, k :: 0 <= j < k < |tasks| ==> tasks[j].id != tasks[k].id
    ensures GetOriginalIndex(tasks, tasks[i]) == i
  {
  }

  // ---------------------------------------------------------------------
  // The component
  // ---------------------------------------------------------------------

  class TasksComponent {
    var tasks: seq<Task>
    var pendingTasks: seq<Task>
    var completedTasks: seq<Task>
    var filteredTasks: seq<Task>
    var currentFilter: TaskFilter
    var sortBy: SortKey
    var showToast: bool
    var toastMessage: string
    /** The (teacher email, task) pairs passed to the database's
        `updateTaskForTeacher`, oldest first. */
    ghost var sentUpdates: seq<(string, Task)>

    /** The derived lists agree with `tasks`, the filter and the sort key. */
    ghost predicate ViewsAgree()
      reads this
    {
      pendingTasks == Filter(tasks, IsPending)
      && completedTasks == Filter(tasks, IsCompleted)
      && filteredTasks == SortedView(Chosen(tasks, currentFilter), sortBy)
    }

    constructor ()
      ensures tasks == [] && pendingTasks == [] && completedTasks == [] && filteredTasks == []
      ensures currentFilter == AllTasks && sortBy == ByDate
      ensures !showToast && toastMessage == "" && sentUpdates == []
    {
      tasks, pendingTasks, completedTasks, filteredTasks := [], [], [], [];
      currentFilter, sortBy := AllTasks, ByDate;
      showToast, toastMessage := false, "";
      sentUpdates := [];
    }

    /** `ngOnInit`: `loadTasks()` then `updateFilteredTasks()`. `email` is
        the logged-in teacher's email ('' when nobody is logged in) and
        `stored` what the database holds for that email. */
    method Init(email: string, stored: seq<Task>)
      modifies this
      ensures tasks == (if email != [] then stored else [])
      ensures ViewsAgree()
      ensures currentFilter == old(currentFilter) && sortBy == old(sortBy)
      ensures showToast == old(showToast) && toastMessage == old(toastMessage) && sentUpdates == old(sentUpdates)
    {
      if email != [] {
        tasks := stored;
      } else {
        tasks := [];
      }
      UpdateFilteredTasks();
    }

    /** `updateFilteredTasks()` */
    method UpdateFilteredTasks()
      modifies this
      ensures ViewsAgree()
      ensures tasks == old(tasks) && currentFilter == old(currentFilter) && sortBy == old(sortBy)
      ensures showToast == old(showToast) && toastMessage == old(toastMessage) && sentUpdates == old(sentUpdates)
    {
      pendingTasks := Filter(tasks, IsPending);
      completedTasks := Filter(tasks, IsCompleted);
      var filtered: seq<Task>;
      match currentFilter {
        case PendingOnly => filtered := pendingTasks;
        case CompletedOnly => filtered := completedTasks;
        case AllTasks => filtered := tasks;
      }
      filteredTasks := SortedView(filtered, sortBy);
    }

    /** `toggleTask(index)`: an index out of range changes nothing; otherwise
        only that task's `completed` flips, the database is sent the
        updated task when a teacher is logged in, the views are rebuilt and
        the toast names the new status. */
    method ToggleTask(index: int, email: string)
      modifies this
      ensures !(0 <= index < |old(tasks)|) ==> unchanged(this)
      ensures 0 <= index < |old(tasks)| ==>
                tasks == ToggleAt(old(tasks), index)
                && ViewsAgree()
                && currentFilter == old(currentFilter) && sortBy == old(sortBy)
                && sentUpdates == old(sentUpdates) + (if email != [] then [(email, tasks[index])] else [])
                && showToast
                && toastMessage == (if tasks[index].completed then "Task completed!" else "Task reopened!")
    {
      if 0 <= index < |tasks| {
        var toggled := ToggleAt(tasks, index);
        var task := toggled[index];
        tasks := toggled;
        if email != [] {
          sentUpdates := sentUpdates + [(email, task)];
        }
        UpdateFilteredTasks();
        var status := if task.completed then "completed" else "reopened";
        ToastTexts();
        ShowSuccessToast("Task " + status + "!");
      }
    }

    /** `setFilter(filter)` */
    method SetFilter(filter: TaskFilter)
      modifies this
      ensures currentFilter == filter && ViewsAgree()
      ensures tasks == old(tasks) && sortBy == old(sortBy)
      ensures showToast == old(showToast) && toastMessage == old(toastMessage) && sentUpdates == old(sentUpdates)
    {
      currentFilter := filter;
      UpdateFilteredTasks();
    }

    /** `sortTasks()` after the sort selector has set `sortBy` to `key`. */
    method SortTasks(key: SortKey)
      modifies this
      ensures sortBy == key && ViewsAgree()
      ensures tasks == old(tasks) && currentFilter == old(currentFilter)
      ensures showToast == old(showToast) && toastMessage == old(toastMessage) && sentUpdates == old(sentUpdates)
    {
      sortBy := key;
      UpdateFilteredTasks();
    }

    /** `showSuccessToast(message)`; the timer that hides it is not modelled. */
    method ShowSuccessToast(message: string)
      modifies this
      ensures showToast && toastMessage == message
      ensures tasks == old(tasks) && pendingTasks == old(pendingTasks) && completedTasks == old(completedTasks)
      ensures filteredTasks == old(filteredTasks) && currentFilter == old(currentFilter) && sortBy == old(sortBy)
      ensures sentUpdates == old(sentUpdates)
    {
      toastMessage := message;
      showToast := true;
    }
  }

  lemma ToastTexts()
    ensures "Task " + "completed" + "!" == "Task completed!"
    ensures "Task " + "reopened" + "!" == "Task reopened!"
  {
  }

  /** Toggling a task twice leaves the list and the views as they were. */
  method ToggleTaskTwice(c: TasksComponent, index: int, email: string)
    requires c.ViewsAgree()
    modifies c
    ensures c.tasks == old(c.tasks) && c.ViewsAgree()
  {
    c.ToggleTask(index, email);
    c.ToggleTask(index, email);
    if 0 <= index < |old(c.tasks)| {
      ToggleTwice(old(c.tasks), index);
    }
  }
}
