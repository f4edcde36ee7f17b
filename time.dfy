/** Calendar and clock arithmetic behind the components' use of `Date`.
    Calendar days are integers (day 0 is 1970-01-01); instants are integer
    minutes since 1970-01-01 00:00 local time; times of day are "HH:MM"
    texts. Time zones and daylight saving are not modelled. */
module Time {
  import opened Text
  import opened Interfaces

  const MinutesPerDay: int := 1440

  /** `Date.prototype.getDay()` of a calendar day: 0 is Sunday, 6 is
      Saturday. 1970-01-01 was a Thursday. */
  function Weekday(day: int): (w: int)
    ensures 0 <= w < 7
  {
    (day + 4) % 7
  }

  /** The week days advance one at a time. */
  lemma WeekdayNext(day: int)
    ensures Weekday(day + 1) == (Weekday(day) + 1) % 7
  {
  }

  const DayNames: seq<string> := ["Sunday", "Monday", "Tuesday", "Wednesday", "Thursday", "Friday", "Saturday"]

  /** `days[date.getDay()]` */
  function DayName(day: int): (name: string)
    ensures name in DayNames
    ensures name == "Sunday" <==> Weekday(day) == 0
  {
    DayNames[Weekday(day)]
  }

  /** The midnight of a calendar day, as an instant. */
  function Midnight(day: int): int {
    day * MinutesPerDay
  }

  /** An instant that is midnight at the start of a Sunday. */
  predicate IsSundayMidnight(t: int) {
    t % MinutesPerDay == 0 && Weekday(t / MinutesPerDay) == 0
  }

  /** `getWeekStart(t)`: copy t, set the time to 00:00:00.000, then go back
      `getDay()` days. The result is the Sunday midnight at or before t
      that is less than a week before t. */
  function WeekStart(t: int): (s: int)
    ensures IsSundayMidnight(s)
    ensures s <= t < s + 7 * MinutesPerDay
  {
    var day := t / MinutesPerDay;
    Midnight(day - Weekday(day))
  }

  /** There is only one such Sunday midnight, so any instant of the week
      gives the same start. */
  lemma WeekStartUnique(t: int, s: int)
    requires IsSundayMidnight(s)
    requires s <= t < s + 7 * MinutesPerDay
    ensures WeekStart(t) == s
  {
    var w := WeekStart(t);
    var a, b := w / MinutesPerDay, s / MinutesPerDay;
    assert w == a * MinutesPerDay && s == b * MinutesPerDay;
    assert -7 < a - b < 7;
    assert (a + 4) % 7 == 0 && (b + 4) % 7 == 0;
  }

  /** A Sunday midnight is its own week start, and any moment of a Saturday
      belongs to the week that began six days before. */
  lemma WeekStartOfSundayAndSaturday(day: int, minute: int)
    requires 0 <= minute < MinutesPerDay
    ensures Weekday(day) == 0 ==> WeekStart(Midnight(day)) == Midnight(day)
    ensures Weekday(day) == 6 ==> WeekStart(Midnight(day) + minute) == Midnight(day - 6)
  {
    if Weekday(day) == 0 {
      assert Midnight(day) / MinutesPerDay == day;
      WeekStartUnique(Midnight(day), Midnight(day));
    }
    if Weekday(day) == 6 {
      assert Midnight(day - 6) / MinutesPerDay == day - 6;
      WeekStartUnique(Midnight(day) + minute, Midnight(day - 6));
    }
  }

  /** The two-digit, zero-padded text of n < 100. */
  function TwoDigits(n: nat): (s: string)
    requires n < 100
    ensures |s| == 2 && AllDigits(s)
  {
    [DigitChar(n / 10), DigitChar(n % 10)]
  }

  lemma TwoDigitsValue(n: nat)
    requires n < 100
    ensures DigitsValue(TwoDigits(n)) == n
  {
    assert TwoDigits(n)[..1] == [DigitChar(n / 10)];
  }

  /** The "HH:MM" text an HTML time input produces. */
  function ClockText(h: nat, m: nat): (t: string)
    requires h < 100 && m < 100
    ensures |t| == 5
  {
    TwoDigits(h) + [':'] + TwoDigits(m)
  }

  /** A text of one or two decimal digits. */
  predicate IsShortNumeral(s: string) {
    1 <= |s| <= 2 && AllDigits(s)
  }

  /** `new Date("2000/01/01 " + t)` read as minutes after midnight: the time
      must be one or two digits, a colon and one or two digits, with an hour
      of at most 23 and a minute of at most 59; anything else is an invalid
      date (None stands for its NaN time value). */
  function ClockMinutes(t: string): (r: Option<int>)
    ensures r.Some? ==> 0 <= r.value < MinutesPerDay
  {
    var parts := Split(t, ':');
    if |parts| == 2 && IsShortNumeral(parts[0]) && IsShortNumeral(parts[1])
       && DigitsValue(parts[0]) <= 23 && DigitsValue(parts[1]) <= 59
    then Some(DigitsValue(parts[0]) * 60 + DigitsValue(parts[1]))
    else None
  }

  lemma NoColonInDigits(a: string)
    requires AllDigits(a)
    ensures ':' !in a
  {
  }

  /** Any text made of two short numerals around a colon is read as
      hours and minutes when they are in range. */
  lemma ClockOfParts(a: string, b: string)
    requires IsShortNumeral(a) && IsShortNumeral(b)
    requires DigitsValue(a) <= 23 && DigitsValue(b) <= 59
    ensures ClockMinutes(a + [':'] + b) == Some(DigitsValue(a) * 60 + DigitsValue(b))
  {
    NoColonInDigits(a);
    NoColonInDigits(b);
    SplitAround(a, b, ':');
  }

  /** Every time a time input can produce is read back exactly. */
  lemma ClockTextMinutes(h: nat, m: nat)
    requires h < 24 && m < 60
    ensures ClockMinutes(ClockText(h, m)) == Some(h * 60 + m)
  {
    TwoDigitsValue(h);
    TwoDigitsValue(m);
    ClockOfParts(TwoDigits(h), TwoDigits(m));
  }
}
