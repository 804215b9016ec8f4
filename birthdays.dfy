/**
 * The upcoming-birthday computation of AddressBook (Task_1.py, lines 76-116):
 * weekend adjustment, the next occurrence of a birthday, and the greetings.
 */
module Birthdays {
  import opened Results
  import opened Text
  import opened Calendar
  import opened Fields

  /** A contact as `get_upcoming_birthdays` sees it: its name and its birthday. */
  datatype User = User(name: string, birthday: Date)

  /** One entry of the result: `{"Name": ..., "Congratulation date": ...}`. */
  datatype Greeting = Greeting(name: string, date: string)

  /** The weekday `j` days after weekday `wd`. */
  function WeekdayPlus(wd: int, j: int): int {
    (wd + j) % 7
  }

  /** `find_next_weekday`'s step: the days from weekday `wd` forward to weekday `w`, 1 to 7, never 0. */
  function DaysAhead(wd: int, w: int): (n: int)
    requires 0 <= wd < 7 && 0 <= w < 7
    ensures 1 <= n <= 7 && WeekdayPlus(wd, n) == w
    ensures forall j :: 1 <= j < n ==> WeekdayPlus(wd, j) != w
  {
    var k := w - wd;
    if k <= 0 then k + 7 else k
  }

  lemma ModSeven(a: int, b: int, n: int)
    requires b == a + n
    ensures (b + 6) % 7 == WeekdayPlus((a + 6) % 7, n)
  {
  }

  /** Moving `n` days forward moves the weekday `n` places round the week. */
  lemma WeekdayAfter(d: Date, n: nat)
    requires IsCalendarDate(d)
    ensures Weekday(AddDays(d, n)) == WeekdayPlus(Weekday(d), n)
  {
    var r := AddDays(d, n);
    ModSeven(Ordinal(d), Ordinal(r), n);
  }

  /**
   * `find_next_weekday(start_date, weekday)`: the first date after `s` that falls
   * on weekday `w`; fails when that date is past 9999-12-31.
   */
  function FindNextWeekday(s: Date, w: int): (r: Result<Date>)
    requires IsPyDate(s) && 0 <= w < 7
    ensures r.Ok? ==> IsPyDate(r.value) && Weekday(r.value) == w
    ensures r.Ok? ==> 1 <= DaysBetween(r.value, s) <= 7
    ensures r.Ok? ==> forall j :: 1 <= j < DaysBetween(r.value, s) ==> WeekdayPlus(Weekday(s), j) != w
    ensures r.Err? <==> Ordinal(s) + DaysAhead(Weekday(s), w) > Ordinal(MaxDate)
    ensures r.Err? ==> r.error == DateOutOfRange
  {
    var n := DaysAhead(Weekday(s), w);
    var t := AddDays(s, n);
    WeekdayAfter(s, n);
    PyDateIsUpToMaxDate(t);
    if IsPyDate(t) then Ok(t) else Err(DateOutOfRange)
  }

  /** A Saturday or Sunday is never in the last days of the calendar, which ends on a Friday. */
  lemma WeekendHasNextMonday(d: Date)
    requires IsPyDate(d) && Weekday(d) >= 5
    ensures Ordinal(d) + DaysAhead(Weekday(d), 0) <= Ordinal(MaxDate)
  {
    PyDateIsUpToMaxDate(d);
    MaxDateIsFriday();
  }

  /** `adjust_for_weekend`: a Saturday or Sunday moves to the next Monday; weekdays stay. */
  function AdjustForWeekend(d: Date): (r: Date)
    requires IsPyDate(d)
    ensures IsPyDate(r) && Weekday(r) < 5
    ensures Weekday(d) < 5 ==> r == d
    ensures Weekday(d) == 5 ==> DaysBetween(r, d) == 2
    ensures Weekday(d) == 6 ==> DaysBetween(r, d) == 1
  {
    if Weekday(d) >= 5 then
      WeekendHasNextMonday(d);
      FindNextWeekday(d, 0).value
    else d
  }

  /**
   * The next occurrence of birthday `b` on or after `today`: its date in this
   * year if that has not passed, else in the next year. Fails, as `date.replace`
   * does, on 29 February in a common year and on a year past 9999.
   */
  function NextOccurrence(b: Date, today: Date): (r: Result<Date>)
    requires IsCalendarDate(b) && IsPyDate(today)
    ensures r.Ok? ==> IsPyDate(r.value) && r.value.month == b.month && r.value.day == b.day
    ensures r.Ok? ==> !Before(r.value, today)
    ensures r.Ok? ==> r.value.year == today.year ||
                      (r.value.year == today.year + 1 && Before(Date(today.year, b.month, b.day), today))
    ensures r.Err? <==>
              (b.month == 2 && b.day == 29 && !IsLeap(today.year)) ||
              (Before(Date(today.year, b.month, b.day), today) &&
               (today.year == MaxYear || (b.month == 2 && b.day == 29)))
    ensures r.Err? ==> r.error == DateOutOfRange
  {
    match Replace(b, today.year)
    case Err(e) => Err(e)
    case Ok(t) => if Before(t, today) then Replace(t, today.year + 1) else Ok(t)
  }

  /** The window `get_upcoming_birthdays` reports: from today to `days` days later. */
  predicate InWindow(d: Date, today: Date, days: int)
    requires IsCalendarDate(d) && IsCalendarDate(today)
  {
    0 <= DaysBetween(d, today) <= days
  }

  /** A date that has already passed is never in the window. */
  lemma PassedDateOutsideWindow(d: Date, today: Date, days: int)
    requires IsCalendarDate(d) && IsCalendarDate(today) && Before(d, today)
    ensures !InWindow(d, today, days)
  {
    BeforeIsOrdinalLess(d, today);
  }

  /**
   * Lines 102-106: this year's birthday, replaced by next year's only when this
   * year's has passed and next year's is at most `days` away; otherwise a passed
   * date stays the candidate (and falls outside the window).
   */
  function Candidate(b: Date, today: Date, days: int): (r: Result<Date>)
    requires IsCalendarDate(b) && IsPyDate(today)
    ensures r.Ok? ==> IsPyDate(r.value)
  {
    match Replace(b, today.year)
    case Err(e) => Err(e)
    case Ok(thisYear) =>
      if Before(thisYear, today) then
        match Replace(thisYear, thisYear.year + 1)
        case Err(e) => Err(e)
        case Ok(nextYear) => if DaysBetween(nextYear, today) <= days then Ok(nextYear) else Ok(thisYear)
      else Ok(thisYear)
  }

  /**
   * The source's candidate selects the same users as the next occurrence: it
   * fails exactly when the next occurrence does, it is in the window exactly
   * when the next occurrence is, and then it is that occurrence.
   */
  lemma CandidateAgreesWithNextOccurrence(b: Date, today: Date, days: int)
    requires IsCalendarDate(b) && IsPyDate(today)
    ensures Candidate(b, today, days).Err? <==> NextOccurrence(b, today).Err?
    ensures Candidate(b, today, days).Ok? ==>
              (InWindow(Candidate(b, today, days).value, today, days) <==>
               InWindow(NextOccurrence(b, today).value, today, days))
    ensures Candidate(b, today, days).Ok? && InWindow(Candidate(b, today, days).value, today, days) ==>
              Candidate(b, today, days) == NextOccurrence(b, today)
  {
    var thisYear := Replace(b, today.year);
    if thisYear.Ok? && Before(thisYear.value, today) {
      PassedDateOutsideWindow(thisYear.value, today, days);
    }
  }

  /** The greeting for a user whose birthday falls on `d`. */
  function Greet(name: string, d: Date): (g: Greeting)
    requires IsPyDate(d)
    ensures Lower(g.name) == Lower(name)
  {
    Greeting(Capitalize(name), FormatDate(AdjustForWeekend(d)))
  }

  predicate AllPyDates(users: seq<User>) {
    forall i :: 0 <= i < |users| ==> IsPyDate(users[i].birthday)
  }

  /**
   * The greetings for `users`, in their order: one for each user whose next
   * birthday lies in the window; the first failing `date.replace` fails all.
   */
  function Greetings(users: seq<User>, today: Date, days: int): (r: Result<seq<Greeting>>)
    requires AllPyDates(users) && IsPyDate(today)
    ensures r.Ok? ==> |r.value| <= |users|
    ensures r.Err? ==> r.error == DateOutOfRange
  {
    if users == [] then Ok([])
    else
      var u := users[|users| - 1];
      match Greetings(users[..|users| - 1], today, days)
      case Err(e) => Err(e)
      case Ok(gs) =>
        match NextOccurrence(u.birthday, today)
        case Err(e) => Err(e)
        case Ok(n) => if InWindow(n, today, days) then Ok(gs + [Greet(u.name, n)]) else Ok(gs)
  }

  /** `get_upcoming_birthdays` once every contact has a birthday: an empty result is a failure. */
  function UpcomingBirthdays(users: seq<User>, today: Date, days: int): (r: Result<seq<Greeting>>)
    requires AllPyDates(users) && IsPyDate(today)
    ensures r.Ok? ==> 0 < |r.value| <= |users|
    ensures r.Err? ==> r.error == DateOutOfRange || r.error == NoUpcomingBirthdays
    ensures users == [] ==> r == Err(NoUpcomingBirthdays)
  {
    match Greetings(users, today, days)
    case Err(e) => Err(e)
    case Ok(gs) => if gs == [] then Err(NoUpcomingBirthdays) else Ok(gs)
  }

  /**
   * Lines 101-116: each user's candidate date that lies in the window is moved
   * off the weekend and formatted; nobody to greet is a failure.
   */
  method CollectGreetings(users: seq<User>, today: Date, days: int) returns (r: Result<seq<Greeting>>)
    requires AllPyDates(users) && IsPyDate(today)
    ensures r == UpcomingBirthdays(users, today, days)
  {
    var upcoming: seq<Greeting> := [];
    var i := 0;
    while i < |users|
      invariant 0 <= i <= |users|
      invariant Greetings(users[..i], today, days) == Ok(upcoming)
    {
      var user := users[i];
      assert users[..i + 1][..i] == users[..i];
      var candidate := Candidate(user.birthday, today, days);
      CandidateAgreesWithNextOccurrence(user.birthday, today, days);
      if candidate.Err? {
        GreetingsFailFromPrefix(users, i + 1, today, days);
        return Err(candidate.error);
      }
      if 0 <= DaysBetween(candidate.value, today) <= days {
        var congratulation := AdjustForWeekend(candidate.value);
        upcoming := upcoming + [Greeting(Capitalize(user.name), FormatDate(congratulation))];
      }
      i := i + 1;
    }
    assert users[..i] == users;
    if upcoming == [] {
      return Err(NoUpcomingBirthdays);
    }
    return Ok(upcoming);
  }

  /** A failure among the first `k` users is the failure of the whole computation. */
  lemma {:induction false} GreetingsFailFromPrefix(users: seq<User>, k: nat, today: Date, days: int)
    requires AllPyDates(users) && IsPyDate(today) && k <= |users|
    requires Greetings(users[..k], today, days).Err?
    ensures Greetings(users, today, days) == Greetings(users[..k], today, days)
    decreases |users|
  {
    if k < |users| {
      assert users[..|users| - 1][..k] == users[..k];
      GreetingsFailFromPrefix(users[..|users| - 1], k, today, days);
    } else {
      assert users[..k] == users;
    }
  }
}
