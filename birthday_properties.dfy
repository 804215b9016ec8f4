/** What the upcoming-birthday computation promises, proved about its specification. */
module BirthdayProperties {
  import opened Results
  import opened Text
  import opened Calendar
  import opened Fields
  import opened Birthdays

  /** `g`'s date is text that reads back as a weekday from 0 to `days + 2` days after today. */
  predicate CongratulatesWithin(g: Greeting, today: Date, days: int)
    requires IsPyDate(today)
  {
    ParseBirthday(g.date).Ok? &&
    var c := ParseBirthday(g.date).value;
    0 <= DaysBetween(c, today) <= days + 2 && Weekday(c) < 5
  }

  /** A greeting for a birthday in the window names a weekday at most two days past the window. */
  lemma GreetInWindow(name: string, n: Date, today: Date, days: int)
    requires IsPyDate(n) && IsPyDate(today) && InWindow(n, today, days)
    ensures CongratulatesWithin(Greet(name, n), today, days)
  {
    ParseFormatRoundTrip(AdjustForWeekend(n));
  }

  /** Every congratulation date is a weekday in `[today, today + days + 2]`. */
  lemma {:induction false} GreetingsWithinWindow(users: seq<User>, today: Date, days: int)
    requires AllPyDates(users) && IsPyDate(today)
    ensures Greetings(users, today, days).Ok? ==>
              forall k :: 0 <= k < |Greetings(users, today, days).value| ==>
                CongratulatesWithin(Greetings(users, today, days).value[k], today, days)
    decreases |users|
  {
    if users != [] {
      var u := users[|users| - 1];
      GreetingsWithinWindow(users[..|users| - 1], today, days);
      var n := NextOccurrence(u.birthday, today);
      if n.Ok? && InWindow(n.value, today, days) {
        GreetInWindow(u.name, n.value, today, days);
      }
    }
  }

  /** `date.replace` cannot form `u`'s next birthday. */
  predicate ReplaceFails(u: User, today: Date) {
    IsPyDate(u.birthday) && IsPyDate(today) && NextOccurrence(u.birthday, today).Err?
  }

  /** The computation fails on a date exactly when some user's next birthday cannot be formed. */
  lemma {:induction false} GreetingsFailOnlyOnReplace(users: seq<User>, today: Date, days: int)
    requires AllPyDates(users) && IsPyDate(today)
    ensures Greetings(users, today, days).Err? <==> exists i :: 0 <= i < |users| && ReplaceFails(users[i], today)
    ensures Greetings(users, today, days).Err? ==> Greetings(users, today, days).error == DateOutOfRange
    decreases |users|
  {
    if users != [] {
      var last := |users| - 1;
      var init := users[..last];
      GreetingsFailOnlyOnReplace(init, today, days);
      if Greetings(init, today, days).Err? {
        var i :| 0 <= i < |init| && ReplaceFails(init[i], today);
        assert users[i] == init[i];
      } else if ReplaceFails(users[last], today) {
        assert Greetings(users, today, days).Err?;
      } else {
        assert Greetings(users, today, days).Ok?;
        forall i | 0 <= i < |users| ensures !ReplaceFails(users[i], today) {
          if i < last {
            assert users[i] == init[i];
          }
        }
      }
    }
  }

  /** Every user whose next birthday is in the window is greeted. */
  lemma {:induction false} UsersInWindowAreGreeted(users: seq<User>, today: Date, days: int, gs: seq<Greeting>)
    requires AllPyDates(users) && IsPyDate(today)
    requires Greetings(users, today, days) == Ok(gs)
    ensures forall i :: 0 <= i < |users| ==> IsGreetedIfInWindow(users[i], today, days, gs)
    decreases |users|
  {
    if users != [] {
      var last := |users| - 1;
      var init := users[..last];
      var gs' := Greetings(init, today, days).value;
      UsersInWindowAreGreeted(init, today, days, gs');
      var n := NextOccurrence(users[last].birthday, today);
      assert n.Ok?;
      assert gs == if InWindow(n.value, today, days) then gs' + [Greet(users[last].name, n.value)] else gs';
      assert forall g :: g in gs' ==> g in gs;
      if InWindow(n.value, today, days) {
        assert gs[|gs| - 1] == Greet(users[last].name, n.value);
      }
      assert IsGreetedIfInWindow(users[last], today, days, gs);
      forall i | 0 <= i < |users| ensures IsGreetedIfInWindow(users[i], today, days, gs) {
        if i < last {
          assert users[i] == init[i];
          StillGreeted(users[i], today, days, gs', gs);
        } else {
          assert i == last;
        }
      }
    }
  }

  lemma StillGreeted(u: User, today: Date, days: int, gs: seq<Greeting>, more: seq<Greeting>)
    requires IsGreetedIfInWindow(u, today, days, gs)
    requires forall g :: g in gs ==> g in more
    ensures IsGreetedIfInWindow(u, today, days, more)
  {
  }

  /** When `u`'s next birthday is in the window, `gs` holds its greeting. */
  predicate IsGreetedIfInWindow(u: User, today: Date, days: int, gs: seq<Greeting>) {
    IsPyDate(u.birthday) && IsPyDate(today) &&
    var n := NextOccurrence(u.birthday, today);
    n.Ok? && InWindow(n.value, today, days) ==> Greet(u.name, n.value) in gs
  }

  /** `g` is the greeting of `u`, whose next birthday lies in the window. */
  predicate IsGreetingOf(g: Greeting, u: User, today: Date, days: int) {
    IsPyDate(u.birthday) && IsPyDate(today) &&
    var n := NextOccurrence(u.birthday, today);
    n.Ok? && InWindow(n.value, today, days) && g == Greet(u.name, n.value)
  }

  /** Every greeting belongs to a user whose next birthday is in the window. */
  lemma {:induction false} GreetedUsersAreInWindow(users: seq<User>, today: Date, days: int, gs: seq<Greeting>)
    requires AllPyDates(users) && IsPyDate(today)
    requires Greetings(users, today, days) == Ok(gs)
    ensures |gs| <= |users|
    ensures forall g :: g in gs ==> exists i :: 0 <= i < |users| && IsGreetingOf(g, users[i], today, days)
    decreases |users|
  {
    if users != [] {
      var last := |users| - 1;
      var init := users[..last];
      var gs' := Greetings(init, today, days).value;
      GreetedUsersAreInWindow(init, today, days, gs');
      forall g | g in gs
        ensures exists i :: 0 <= i < |users| && IsGreetingOf(g, users[i], today, days)
      {
        if g in gs' {
          var i :| 0 <= i < |init| && IsGreetingOf(g, init[i], today, days);
          assert users[i] == init[i];
        } else {
          LastGreeting(users, today, days, g);
        }
      }
    }
  }

  /** A greeting that the prefix did not produce is the last user's. */
  lemma LastGreeting(users: seq<User>, today: Date, days: int, g: Greeting)
    requires AllPyDates(users) && IsPyDate(today) && users != []
    requires Greetings(users, today, days).Ok? && g in Greetings(users, today, days).value
    requires Greetings(users[..|users| - 1], today, days).Ok?
    requires g !in Greetings(users[..|users| - 1], today, days).value
    ensures IsGreetingOf(g, users[|users| - 1], today, days)
  {
  }

  lemma MondayText()
    ensures FormatDate(Date(2024, 5, 20)) == "20.05.2024"
  {
  }

  lemma NamesCapitalized()
    ensures Capitalize("ivan") == "Ivan" && Capitalize("petro") == "Petro"
  {
  }

  /** Monday 2024-05-20 is greeted on the day from Saturday 2024-05-18. */
  lemma MondayBirthdayStays()
    ensures Greetings([User("ivan", Date(1990, 5, 20))], Date(2024, 5, 18), 7) == Ok([Greeting("Ivan", "20.05.2024")])
  {
    IvanOnMonday();
    assert [User("ivan", Date(1990, 5, 20))][..0] == [];
    assert Greetings([], Date(2024, 5, 18), 7) == Ok([]);
    assert [] + [Greeting("Ivan", "20.05.2024")] == [Greeting("Ivan", "20.05.2024")];
  }

  /** The Monday birthday falls in the week from Saturday 2024-05-18 and keeps its day. */
  lemma IvanOnMonday()
    ensures NextOccurrence(Date(1990, 5, 20), Date(2024, 5, 18)) == Ok(Date(2024, 5, 20))
    ensures InWindow(Date(2024, 5, 20), Date(2024, 5, 18), 7)
    ensures Greet("ivan", Date(2024, 5, 20)) == Greeting("Ivan", "20.05.2024")
  {
    var monday := Date(2024, 5, 20);
    assert Weekday(monday) == 0;
    MondayText();
    NamesCapitalized();
    assert AdjustForWeekend(monday) == monday;
  }

  /**
   * On Saturday 2024-05-18 with a seven-day window, a birthday on Monday
   * 20 May is greeted on that day, and one on Sunday 19 May moves to it.
   */
  lemma SundayBirthdayMovesToMonday()
    ensures UpcomingBirthdays([User("ivan", Date(1990, 5, 20)), User("petro", Date(1985, 5, 19))], Date(2024, 5, 18), 7)
            == Ok([Greeting("Ivan", "20.05.2024"), Greeting("Petro", "20.05.2024")])
  {
    var today, sunday := Date(2024, 5, 18), Date(2024, 5, 19);
    assert Weekday(sunday) == 6;
    assert AdjustForWeekend(sunday) == Date(2024, 5, 20);
    assert NextOccurrence(Date(1985, 5, 19), today) == Ok(sunday);
    assert InWindow(sunday, today, 7);
    MondayText();
    NamesCapitalized();
    var users := [User("ivan", Date(1990, 5, 20)), User("petro", Date(1985, 5, 19))];
    assert Greet("petro", sunday) == Greeting("Petro", "20.05.2024");
    assert users[..1] == [User("ivan", Date(1990, 5, 20))];
    MondayBirthdayStays();
    assert [Greeting("Ivan", "20.05.2024")] + [Greeting("Petro", "20.05.2024")] ==
           [Greeting("Ivan", "20.05.2024"), Greeting("Petro", "20.05.2024")];
  }

  /** With nobody in the book there is nobody to greet. */
  lemma NobodyToGreet(today: Date, days: int)
    requires IsPyDate(today)
    ensures UpcomingBirthdays([], today, days) == Err(NoUpcomingBirthdays)
  {
  }
}
