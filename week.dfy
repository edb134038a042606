/** Day labels of the current week (`get_days_of_week` in monitor.py).

    A date is a Python proleptic-Gregorian ordinal: ordinal 1 is 1 January of
    year 1, and `date.weekday()` is `(ordinal + 6) % 7` with Monday = 0 and
    Sunday = 6. A label is what `strftime('%a %-d')` shows: the weekday and the
    day of the month. */
module Week {

  const Sunday := 6

  datatype Label = Label(weekday: int, dayOfMonth: int)

  function Weekday(ordinal: int): (w: int)
    ensures 0 <= w < 7
  {
    (ordinal + 6) % 7
  }

  /** Day of the month of an ordinal, by the days-to-civil conversion over
      400-year eras counted from 1 March of year 0. */
  function DayOfMonth(ordinal: int): (d: int)
    ensures 1 <= d <= 31
  {
    var z := ordinal + 305;  // days since 0000-03-01
    var doe := z % 146097;   // day of the 400-year era
    var yoe := (doe - doe / 1460 + doe / 36524 - doe / 146096) / 365;
    var doy := doe - (365 * yoe + yoe / 4 - yoe / 100);  // day of the March-based year
    var mp := (5 * doy + 2) / 153;                        // month, March = 0
    doy - (153 * mp + 2) / 5 + 1
  }

  function LabelOf(ordinal: int): Label {
    Label(Weekday(ordinal), DayOfMonth(ordinal))
  }

  /** Today when today is a Sunday, otherwise `weekday() + 1` days earlier. */
  function StartOfWeek(today: int): (start: int)
    ensures Weekday(start) == Sunday
    ensures start <= today < start + 7
    ensures start == today - (Weekday(today) + 1) % 7
  {
    if Weekday(today) != Sunday then today - (Weekday(today) + 1) else today
  }

  /** The seven labels of the consecutive dates from the week's Sunday on. */
  function GetDaysOfWeek(today: int): (days: seq<Label>)
    ensures |days| == 7
    ensures forall i :: 0 <= i < 7 ==> days[i] == LabelOf(StartOfWeek(today) + i)
    ensures forall i :: 0 <= i < 7 ==> days[i].weekday == (Sunday + i) % 7
    ensures days[(Weekday(today) + 1) % 7] == LabelOf(today)
  {
    var start := StartOfWeek(today);
    var days := seq(7, i requires 0 <= i < 7 => LabelOf(start + i));
    forall i | 0 <= i < 7
      ensures days[i].weekday == (Sunday + i) % 7
    {
      assert days[i] == LabelOf(start + i);
      WeekdayAfterSunday(start, i);
    }
    days
  }

  lemma WeekdayAfterSunday(sunday: int, i: int)
    requires Weekday(sunday) == Sunday
    ensures Weekday(sunday + i) == (Sunday + i) % 7
  {
    var q := (sunday + 6) / 7;
    assert sunday + 6 == 7 * q + 6;
    assert sunday + i + 6 == 7 * q + (Sunday + i);
  }

  predicate Distinct<T(==)>(s: seq<T>) {
    forall i, j :: 0 <= i < j < |s| ==> s[i] != s[j]
  }

  /** The seven labels are pairwise different, so they key seven separate
      entries of the monitor's dictionaries. */
  lemma DaysOfWeekDistinct(today: int)
    ensures Distinct(GetDaysOfWeek(today))
  {
    WeekdaysDistinct(GetDaysOfWeek(today));
  }

  /** Labels on seven consecutive weekdays differ in their weekday. */
  lemma WeekdaysDistinct(days: seq<Label>)
    requires |days| == 7 && forall i :: 0 <= i < 7 ==> days[i].weekday == (Sunday + i) % 7
    ensures Distinct(days)
  {
    forall i, j | 0 <= i < j < 7
      ensures days[i] != days[j]
    {
      assert days[i].weekday == (Sunday + i) % 7;
      assert days[j].weekday == (Sunday + j) % 7;
    }
  }

  /** Every day of a week yields the same labels: the list only moves on at the
      next Sunday. */
  lemma WeekIsStable(today: int, other: int)
    requires StartOfWeek(today) <= other < StartOfWeek(today) + 7
    ensures GetDaysOfWeek(other) == GetDaysOfWeek(today)
  {
    var s := StartOfWeek(today);
    assert (s + 6) % 7 == Sunday;
    assert s % 7 == 0;
    assert Weekday(other) == (other - s + 6) % 7;
    assert StartOfWeek(other) == s;
  }
}
