# Address book assistant: a verified Dafny model

This project models the in-memory address book of `Task_1.py`. Contacts have a
name, an ordered list of ten-digit phone numbers and an optional birthday. The
book files each contact under its name, finds contacts by name ignoring case,
and lists whose birthday comes up within a number of days. A congratulation
that falls on a weekend moves to the next Monday.

Modules, one per component:

- `Results` (`results.dfy`): `Option`, `Result`, `Outcome` and the `Error`
  kinds that stand for the exceptions the code raises.
- `Calendar` (`calendar.dfy`): the proleptic Gregorian dates of Python's
  `datetime.date`. A date is a (year, month, day) triple. Its day ordinal uses
  the closed form for days before a year and a month table with the leap day,
  so day 1 is 0001-01-01, a Monday. The module also has `<` on dates,
  `date + timedelta`, `weekday()` and `replace(year=…)` with its failures.
  Years run from 1 to 9999.
- `Text` (`text.dfy`): ASCII digits, zero padding, `lower()`, `capitalize()`
  and `split('.')`.
- `Fields` (`fields.dfy`): the `Phone` check, the
  `strptime(value, '%d.%m.%Y')` parse behind `Birthday`, and
  `strftime("%d.%m.%Y")` (`date_to_string`).
- `Contacts` (`record.dfy`): the `Record` class. Its `phones` field is a
  `seq<string>` that the methods reassign in place.
- `Birthdays` (`birthdays.dfy`): `find_next_weekday`, `adjust_for_weekend`,
  the source's per-contact candidate date, the reference "next occurrence" of
  a birthday, and the greeting loop as a method.
- `BirthdayProperties` (`birthday_properties.dfy`): what the greeting list
  promises.
- `Book` (`address_book.dfy`): the `AddressBook` class. It holds the dict's
  key order as a sequence and its contents as a map.

Behaviour kept as the code has it:

- `strptime` accepts more than `DD.MM.YYYY`. The day may be one digit, two
  digits, or a space and a digit. The month may be one or two digits. The year
  must be exactly four digits. The date must exist, and year 0 is refused.
- `edit_phone` appends the new number and then removes the first copy of the
  old one, so the edited number moves to the end.
- `get_upcoming_birthdays` reads the birthday of every record before doing
  anything else. One record without a birthday fails the whole call
  (`MissingBirthday`); such records are not skipped.
- `date.replace` fails for a 29 February birthday when the target year is
  not a leap year. It also fails for a year past 9999. Both fail the call
  (`DateOutOfRange`).
- The source keeps a stale candidate: a birthday that has passed stays the
  candidate when next year's date is beyond the window.
  `CandidateAgreesWithNextOccurrence` proves that it still selects exactly
  the contacts whose next birthday is in the window.
- `add_record` does not stop two keys that differ only in case. `find`
  returns the first of them in insertion order.

`datetime.today()` is replaced by a `today` parameter. `days` may be any
integer; as in `get_upcoming_birthdays(self, days=7)`, it defaults to 7, the
only value the command handler passes.

## Model

| member | source | states |
|---|---|---|
| `Calendar.Weekday` | Task_1.py:77 | `weekday()` is in 0..6 and is computed from the day ordinal |
| `Calendar.AddDays` | Task_1.py:85 | `date + timedelta(days=n)` yields a calendar date whose ordinal is exactly `n` more |
| `Calendar.NextDay` | Task_1.py:85 | the next day is a calendar date strictly after the given one |
| `Calendar.NextDayOrdinal` | Task_1.py:85 | the next day's ordinal is one more, across month and year ends |
| `Calendar.Replace` | Task_1.py:102-104 | `replace(year=y)` succeeds exactly when `y` is in 1..9999 and the date is not 29 February of a common year; it keeps month and day |
| `Calendar.BeforeIsOrdinalLess` | Task_1.py:103 | `<` on dates holds exactly when the first ordinal is smaller; dates are equal exactly when their ordinals are |
| `Calendar.OrdinalIncreases` | Task_1.py:103 | a date before another has a smaller ordinal |
| `Calendar.PyDateIsUpToMaxDate` | Task_1.py:85 | a calendar date is representable exactly when its ordinal is at most that of 9999-12-31 |
| `Calendar.MaxDateIsFriday` | Task_1.py:76-85 | 9999-12-31 is a Friday |
| `Calendar.DaysInMonth` | Task_1.py:30 | a month has 28 to 31 days, 29 only in February of a leap year |
| `Calendar.Ordinal` | Task_1.py:77 | `toordinal()` is positive and at most 365 in year 1; `NextDayOrdinal` and `BeforeIsOrdinalLess` make it consecutive and ordered like the dates |
| `Calendar.DaysBetween` | Task_1.py:105-108 | `(a - b).days` is negative exactly when `a` is before `b`, zero exactly when the dates are equal, and positive exactly when `b` is before `a` |
| `Calendar.Before` | Task_1.py:103 | a date before another is a different date in no later year, and a date in an earlier year is always before |
| `Calendar.BeforeIsTotal` | Task_1.py:103 | `<` on dates is asymmetric, and of two different dates one is before the other |
| `Text.Pad2` | Task_1.py:88 | `%d`/`%m` output is two digits whose value is the number |
| `Text.Pad4` | Task_1.py:88 | `%Y` output is four digits whose value is the year |
| `Text.SplitAtDot` | Task_1.py:30 | a dot-free field followed by a dot splits off as the first field |
| `Text.JoinSplit` | Task_1.py:30 | joining the pieces of `split('.')` with dots gives the text back |
| `Text.Lower` | Task_1.py:73 | `lower()` keeps the length, turns each upper-case ASCII letter into its lower-case partner, keeps every other character and leaves no upper-case letter |
| `Text.LowerIdempotent` | Task_1.py:73 | lower-casing twice is lower-casing once |
| `Text.Capitalize` | Task_1.py:112 | `capitalize()` keeps the length, leaves the first character not lower-case and no later one upper-case, and changes only letter case (the result equals the input after `lower()`) |
| `Fields.CheckPhone` | Task_1.py:17-20 | a phone passes exactly when it is ten ASCII digits; otherwise `InvalidPhoneFormat` |
| `Fields.ParseBirthday` | Task_1.py:27-32 | a successful parse is a date with year 1..9999; every failure is `InvalidDateFormat`; `ParseBirthdaySpellings` says which texts give which date |
| `Fields.ParseBirthdaySpellings` | Task_1.py:27-32 | a text parses to `d` exactly when `d` is a real date with year 1..9999 and the text is `day.month.year` with the day as two digits or, for 1..9, one digit or a space and one digit, the month as two digits or, for 1..9, one digit, and the year as four digits |
| `Fields.ParseGivesSpelling` | Task_1.py:30 | every accepted text is such a spelling of the date it gives, so a two-digit year or a missing field is refused |
| `Fields.SpellingParses` | Task_1.py:30 | every such spelling of a representable date is accepted as that date |
| `Fields.FormatDate` | Task_1.py:87-88 | `strftime("%d.%m.%Y")` is zero-padded `DD.MM.YYYY` text whose two-digit fields are the day and the month and whose four-digit field is the year; `ParseFormatRoundTrip` reads it back to the date |
| `Fields.ParseFormatRoundTrip` | Task_1.py:87-88 | parsing the `DD.MM.YYYY` text of any representable date gives the date back |
| `Fields.FormatParseRoundTrip` | Task_1.py:30 | zero-padded `DD.MM.YYYY` text that parses is formatted back to the same text |
| `Fields.ParseZeroPadded` | Task_1.py:29-32 | `DD.MM.YYYY` text parses exactly when its numbers name a real date with year 1..9999 (so 29 February only in leap years), and then to that date; otherwise `InvalidDateFormat` |
| `Fields.ParseAcceptsSingleDigitFields` | Task_1.py:30 | `D.M.YYYY` with one-digit day and month is accepted as that date |
| `Fields.ParseAcceptsSpacePaddedDay` | Task_1.py:30 | a one-digit day after a space, as in ` 5.03.2001`, is accepted as that date |
| `Contacts.IndexOf` | Task_1.py:57-60 | the result is the first position holding the value, and None exactly when the value is absent |
| `Contacts.RemoveFirst` | Task_1.py:48 | `list.remove` on values: an absent value leaves the list as it is; a present one makes it one shorter and removes exactly one copy from its multiset |
| `Contacts.RemoveFirstDropsOne` | Task_1.py:47-48 | removing a present phone drops exactly one copy (length and multiset) at its first position and keeps the rest in order |
| `Contacts.AppendThenRemove` | Task_1.py:50-53 | appending the new phone and then removing the old one equals removing first and appending last, so the length is kept |
| `Contacts.Record.constructor` | Task_1.py:36-39 | a new record has the given name, no phones and no birthday |
| `Contacts.Record.AddPhone` | Task_1.py:41-42 | a valid phone is appended, duplicates allowed; an invalid one fails with `InvalidPhoneFormat` and changes nothing |
| `Contacts.Record.AddBirthday` | Task_1.py:44-45 | text that parses sets or overwrites the birthday; otherwise `InvalidDateFormat` and the birthday is unchanged |
| `Contacts.Record.FindPhone` | Task_1.py:57-60 | returns the position of the first phone equal to the value, or None exactly when none is |
| `Contacts.Record.RemovePhone` | Task_1.py:47-48 | removes the first copy of a present phone; an absent one fails with `PhoneNotFound` and changes nothing |
| `Contacts.Record.EditPhone` | Task_1.py:50-55 | absent old phone: `PhoneNotFound`; invalid new phone: `InvalidPhoneFormat`; both change nothing; otherwise the new phone is appended and the first old one removed |
| `Birthdays.DaysAhead` | Task_1.py:82-84 | the step is 1 to 7 days and reaches the first later day with the target weekday |
| `Birthdays.WeekdayAfter` | Task_1.py:85 | adding `n` days moves the weekday `n` places round the week |
| `Birthdays.FindNextWeekday` | Task_1.py:81-85 | the result falls on the target weekday, 1 to 7 days later, with no earlier such day; it fails exactly when that day is past 9999-12-31 |
| `Birthdays.WeekendHasNextMonday` | Task_1.py:76-78 | the Monday after any representable Saturday or Sunday is representable |
| `Birthdays.AdjustForWeekend` | Task_1.py:76-79 | the result is never a weekend day; weekdays are unchanged; Saturday moves 2 days and Sunday 1 |
| `Birthdays.NextOccurrence` | Task_1.py:101-106 | the birthday's month and day on or after today, in this year or, only when this year's date has passed, the next; it fails exactly in the 29 February and year-9999 cases |
| `Birthdays.Candidate` | Task_1.py:102-106 | the source's candidate is a representable date when the replacements succeed |
| `Birthdays.CandidateAgreesWithNextOccurrence` | Task_1.py:102-108 | the source's candidate fails exactly when the next occurrence does, is in the window exactly when the next occurrence is, and is then that occurrence |
| `Birthdays.PassedDateOutsideWindow` | Task_1.py:103-108 | a date before today is never in the window, so a stale candidate is filtered out |
| `Birthdays.Greet` | Task_1.py:110-112 | the greeting's name equals the contact's name after `lower()`; `GreetInWindow` says what its date text reads back as |
| `Birthdays.Greetings` | Task_1.py:101-112 | at most one greeting per user, and the only failure is `DateOutOfRange`; the lemmas of `BirthdayProperties` say which users are greeted and on which date |
| `Birthdays.UpcomingBirthdays` | Task_1.py:101-116 | a success holds between one greeting and one per user; a failure is `DateOutOfRange` or `NoUpcomingBirthdays`; with no users it is `NoUpcomingBirthdays` |
| `Birthdays.CollectGreetings` | Task_1.py:101-116 | the loop returns the greetings of the users whose next birthday is in the window, in order, or fails as the specification does |
| `Birthdays.GreetingsFailFromPrefix` | Task_1.py:101-104 | a failure at one user is the failure of the whole loop |
| `BirthdayProperties.GreetInWindow` | Task_1.py:108-112 | a greeting's date reads back as a weekday between today and `days + 2` days later |
| `BirthdayProperties.GreetingsWithinWindow` | Task_1.py:108-112 | every congratulation date reads back as a weekday between today and `days + 2` days later |
| `BirthdayProperties.GreetingsFailOnlyOnReplace` | Task_1.py:102-104 | the greetings fail exactly when some user's next birthday cannot be formed, and then with `DateOutOfRange` |
| `BirthdayProperties.StillGreeted` | Task_1.py:112 | appending greetings keeps the earlier ones |
| `BirthdayProperties.UsersInWindowAreGreeted` | Task_1.py:101-112 | every user whose next birthday is in the window gets a greeting |
| `BirthdayProperties.GreetedUsersAreInWindow` | Task_1.py:101-112 | every greeting belongs to a user whose next birthday is in the window, and there are at most as many greetings as users |
| `BirthdayProperties.MondayBirthdayStays` | Task_1.py:101-112 | from Saturday 2024-05-18, a birthday on Monday 20 May is greeted on `20.05.2024` |
| `BirthdayProperties.SundayBirthdayMovesToMonday` | Task_1.py:90-116 | from Saturday 2024-05-18 with a 7-day window, Monday and Sunday birthdays are both greeted on `20.05.2024`, in insertion order |
| `BirthdayProperties.NobodyToGreet` | Task_1.py:113-116 | with no contacts the result is the `NoUpcomingBirthdays` failure |
| `Book.FirstMatch` | Task_1.py:71-74 | the first key, in insertion order, equal to the name after lower-casing both, and None exactly when no key is |
| `Book.InsertKey` | Task_1.py:69 | dict key order after `d[k] = v`: existing keys keep their positions, `k` is added last only when absent, and the key set gains exactly `k` |
| `Book.FindIgnoresCase` | Task_1.py:73 | names equal after lower-casing find the same entry |
| `Book.InsertedKeyIsFound` | Task_1.py:68-74 | after inserting a name with no other case variant stored, every case variant of it finds that name |
| `Book.Users` | Task_1.py:95-99 | the user list has each record's name and birthday in key order, and fails with `MissingBirthday` exactly when some record has no birthday |
| `Book.UsersFailFromPrefix` | Task_1.py:95-99 | a record without a birthday anywhere fails the whole list |
| `Book.AddressBook.constructor` | Task_1.py:66 | a new book is empty |
| `Book.AddressBook.AddRecord` | Task_1.py:68-69 | the record is stored under its exact name; only an entry with that same key is replaced, and a new key goes last |
| `Book.AddressBook.Find` | Task_1.py:71-74 | returns the record under the first key matching ignoring case, or null when none does |
| `Book.AddressBook.GetUpcomingBirthdays` | Task_1.py:90-116 | fails with `MissingBirthday` if any record has no birthday; otherwise gives exactly the greetings specified for the users in key order |

## Left out

- The command loop, `input()`/`print()`, `parse_input`, the command handlers and the `input_error` decorator (Task_1.py:122-236) are interactive I/O and message text. Exceptions are `Error` values instead.
- `datetime.today()` (Task_1.py:93) reads the clock; `today` is a parameter.
- The `__str__` renderers (Task_1.py:8-9, 62-63, 119-120) and `Phone.__repr__` (Task_1.py:22-23) only format text and are not modelled.
- The discarded call at Task_1.py:109 has no effect and is not modelled.
- The exact exception messages are not modelled; only the kind of failure is.
- `str.isdigit`, `str.lower`, `str.capitalize` and the regex `\d` are modelled for ASCII text only. Python also accepts other Unicode digits and case mappings.
- `Fields.FormatDate`: `%Y` is modelled as four zero-padded digits. Some C libraries print years below 1000 with fewer digits.
- `Birthdays.FindNextWeekday`: the weekday argument is restricted to 0..6. The only caller passes 0.
- `Calendar.AddDays`: only adds a non-negative number of days. The source only adds 1 to 7.
- `Contacts.Record.FindPhone`: returns the position of the found `Phone` object rather than the object itself. The first phone with that value is that object.
- `Book.AddressBook.AddRecord`: the book's invariant requires every stored record to be valid. A record changed through its own methods after it is filed stays valid, but the model does not re-prove the book invariant after such a change.
- `Birthdays.Greet`: its own contract covers only the name. What the date text reads back as is stated by `BirthdayProperties.GreetInWindow`, which keeps the parse out of every proof that mentions a greeting.
