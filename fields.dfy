/**
 * The validated fields of a contact (Task_1.py, classes Phone and Birthday)
 * and the `DD.MM.YYYY` text form of a date.
 */
module Fields {
  import opened Results
  import opened Text
  import opened Calendar

  /** A phone number a record may hold: exactly ten ASCII digits. */
  predicate IsValidPhone(v: string) {
    |v| == 10 && forall i :: 0 <= i < |v| ==> IsDigit(v[i])
  }

  /** `Phone(value)`: refuses text that is not all digits or not ten characters long. */
  function CheckPhone(v: string): (r: Outcome)
    ensures r.Pass? <==> IsValidPhone(v)
    ensures r.Fail? ==> r.error == InvalidPhoneFormat
  {
    if !IsDigits(v) || |v| != 10 then Fail(InvalidPhoneFormat) else Pass
  }

  // ---------------------------------------------------------------------------
  // `datetime.strptime(value, '%d.%m.%Y').date()`

  /** The `%d` field: two digits "01".."31", one digit "1".."9", or a space and "1".."9". */
  function DayField(t: string): (r: Option<int>)
    ensures r.Some? ==> 1 <= r.value <= 31
  {
    if |t| == 1 && '1' <= t[0] <= '9' then Some(DigitValue(t[0]))
    else if |t| == 2 && t[0] == ' ' && '1' <= t[1] <= '9' then Some(DigitValue(t[1]))
    else if |t| == 2 && IsDigit(t[0]) && IsDigit(t[1]) && 1 <= 10 * DigitValue(t[0]) + DigitValue(t[1]) <= 31 then
      Some(10 * DigitValue(t[0]) + DigitValue(t[1]))
    else None
  }

  /** The `%m` field: two digits "01".."12" or one digit "1".."9". */
  function MonthField(t: string): (r: Option<int>)
    ensures r.Some? ==> 1 <= r.value <= 12
  {
    if |t| == 1 && '1' <= t[0] <= '9' then Some(DigitValue(t[0]))
    else if |t| == 2 && IsDigit(t[0]) && IsDigit(t[1]) && 1 <= 10 * DigitValue(t[0]) + DigitValue(t[1]) <= 12 then
      Some(10 * DigitValue(t[0]) + DigitValue(t[1]))
    else None
  }

  /** The `%Y` field: exactly four digits. */
  function YearField(t: string): (r: Option<int>)
    ensures r.Some? ==> 0 <= r.value <= 9999
  {
    if |t| == 4 && IsDigit(t[0]) && IsDigit(t[1]) && IsDigit(t[2]) && IsDigit(t[3]) then Some(Value4(t))
    else None
  }

  /**
   * `Birthday(value)`: the three dot-separated fields must match `%d`, `%m`
   * and `%Y` with nothing left over, and must name a date `datetime.date`
   * accepts (year 0 and days past the end of the month are refused).
   */
  function ParseBirthday(s: string): (r: Result<Date>)
    ensures r.Ok? ==> IsPyDate(r.value)
    ensures r.Err? ==> r.error == InvalidDateFormat
  {
    var parts := SplitDots(s);
    if |parts| != 3 then Err(InvalidDateFormat)
    else
      match (DayField(parts[0]), MonthField(parts[1]), YearField(parts[2]))
      case (Some(d), Some(m), Some(y)) =>
        if IsPyDate(Date(y, m, d)) then Ok(Date(y, m, d)) else Err(InvalidDateFormat)
      case _ => Err(InvalidDateFormat)
  }

  /** Text in the canonical `DD.MM.YYYY` shape: zero-padded digit fields and two dots. */
  predicate IsZeroPadded(s: string) {
    |s| == 10 && s[2] == '.' && s[5] == '.' &&
    forall i :: 0 <= i < 10 && i != 2 && i != 5 ==> IsDigit(s[i])
  }

  /**
   * `date.strftime("%d.%m.%Y")` (AddressBook.date_to_string): zero-padded
   * `DD.MM.YYYY` text whose three numbers are the day, the month and the year.
   */
  function FormatDate(d: Date): (s: string)
    requires IsPyDate(d)
    ensures IsZeroPadded(s)
    ensures TwoDigitValue(s[..2]) == d.day && TwoDigitValue(s[3..5]) == d.month && Value4(s[6..]) == d.year
  {
    Pad2(d.day) + "." + Pad2(d.month) + "." + Pad4(d.year)
  }

  /** Every date the address book can hold is read back from its `DD.MM.YYYY` text. */
  lemma ParseFormatRoundTrip(d: Date)
    requires IsPyDate(d)
    ensures ParseBirthday(FormatDate(d)) == Ok(d)
  {
    var dd, mm, yyyy := Pad2(d.day), Pad2(d.month), Pad4(d.year);
    assert FormatDate(d) == dd + "." + (mm + "." + yyyy);
    SplitAtDot(dd, mm + "." + yyyy);
    SplitAtDot(mm, yyyy);
    SplitNoDot(yyyy);
    assert SplitDots(FormatDate(d)) == [dd, mm, yyyy];
  }

  /** Zero-padded `DD.MM.YYYY` text that parses is given back unchanged by `FormatDate`. */
  lemma FormatParseRoundTrip(s: string)
    requires IsZeroPadded(s) && ParseBirthday(s).Ok?
    ensures FormatDate(ParseBirthday(s).value) == s
  {
    var dd, mm, yyyy := s[..2], s[3..5], s[6..];
    assert s == dd + "." + (mm + "." + yyyy);
    SplitAtDot(dd, mm + "." + yyyy);
    SplitAtDot(mm, yyyy);
    SplitNoDot(yyyy);
    assert SplitDots(s) == [dd, mm, yyyy];
    var d := ParseBirthday(s).value;
    SameTwoDigits(Pad2(d.day), dd);
    SameTwoDigits(Pad2(d.month), mm);
    Value4Injective(Pad4(d.year), yyyy);
  }

  lemma SameTwoDigits(s: string, t: string)
    requires |s| == 2 && IsDigit(s[0]) && IsDigit(s[1])
    requires |t| == 2 && IsDigit(t[0]) && IsDigit(t[1])
    requires 10 * DigitValue(s[0]) + DigitValue(s[1]) == 10 * DigitValue(t[0]) + DigitValue(t[1])
    ensures s == t
  {
    assert DigitValue(s[0]) == DigitValue(t[0]);
  }

  /** The day and month written with two digits. */
  function TwoDigitValue(t: string): int
    requires |t| == 2 && IsDigit(t[0]) && IsDigit(t[1])
  {
    10 * DigitValue(t[0]) + DigitValue(t[1])
  }

  /**
   * `DD.MM.YYYY` text parses exactly when its three numbers name a date
   * `datetime.date` accepts, and then to that date.
   */
  lemma ParseZeroPadded(s: string)
    requires IsZeroPadded(s)
    ensures var d := Date(Value4(s[6..]), TwoDigitValue(s[3..5]), TwoDigitValue(s[..2]));
            ParseBirthday(s) == if IsPyDate(d) then Ok(d) else Err(InvalidDateFormat)
  {
    var dd, mm, yyyy := s[..2], s[3..5], s[6..];
    assert s == dd + "." + (mm + "." + yyyy);
    SplitAtDot(dd, mm + "." + yyyy);
    SplitAtDot(mm, yyyy);
    SplitNoDot(yyyy);
    assert SplitDots(s) == [dd, mm, yyyy];
  }

  /** `%d` and `%m` also take a single digit, so the parse is more lenient than `DD.MM.YYYY`. */
  lemma ParseAcceptsSingleDigitFields(d: char, m: char, yyyy: string)
    requires '1' <= d <= '9' && '1' <= m <= '9'
    requires |yyyy| == 4 && forall i :: 0 <= i < 4 ==> IsDigit(yyyy[i])
    requires IsPyDate(Date(Value4(yyyy), DigitValue(m), DigitValue(d)))
    ensures ParseBirthday([d] + "." + [m] + "." + yyyy) == Ok(Date(Value4(yyyy), DigitValue(m), DigitValue(d)))
  {
    assert [d] + "." + [m] + "." + yyyy == [d] + "." + ([m] + "." + yyyy);
    SplitAtDot([d], [m] + "." + yyyy);
    SplitAtDot([m], yyyy);
    SplitNoDot(yyyy);
    assert SplitDots([d] + "." + [m] + "." + yyyy) == [[d], [m], yyyy];
  }

  /** `%d` also takes a one-digit day written after a space. */
  lemma ParseAcceptsSpacePaddedDay(d: char, mm: string, yyyy: string)
    requires '1' <= d <= '9'
    requires |mm| == 2 && IsDigit(mm[0]) && IsDigit(mm[1])
    requires |yyyy| == 4 && forall i :: 0 <= i < 4 ==> IsDigit(yyyy[i])
    requires IsPyDate(Date(Value4(yyyy), TwoDigitValue(mm), DigitValue(d)))
    ensures ParseBirthday([' ', d] + "." + mm + "." + yyyy) == Ok(Date(Value4(yyyy), TwoDigitValue(mm), DigitValue(d)))
  {
    assert [' ', d] + "." + mm + "." + yyyy == [' ', d] + "." + (mm + "." + yyyy);
    SplitAtDot([' ', d], mm + "." + yyyy);
    SplitAtDot(mm, yyyy);
    SplitNoDot(yyyy);
    assert SplitDots([' ', d] + "." + mm + "." + yyyy) == [[' ', d], mm, yyyy];
  }

  // ---------------------------------------------------------------------------
  // Which texts `strptime(value, '%d.%m.%Y')` reads as which date

  /** The texts `%d` reads as day `n`: two digits, and for 1..9 also one digit or a space and one digit. */
  function DaySpellings(n: int): (r: set<string>)
    requires 1 <= n <= 31
    ensures Pad2(n) in r
  {
    if n <= 9 then {Pad2(n), [DigitChar(n)], [' ', DigitChar(n)]} else {Pad2(n)}
  }

  /** The texts `%m` reads as month `n`: two digits, and for 1..9 also one digit. */
  function MonthSpellings(n: int): (r: set<string>)
    requires 1 <= n <= 12
    ensures Pad2(n) in r
  {
    if n <= 9 then {Pad2(n), [DigitChar(n)]} else {Pad2(n)}
  }

  /** `s` is `day.month.year` with fields spelled as `%d`, `%m` and `%Y` accept for `d`. */
  ghost predicate SpellsDate(s: string, d: Date)
    requires IsPyDate(d)
  {
    exists a, b :: a in DaySpellings(d.day) && b in MonthSpellings(d.month) &&
      s == a + "." + b + "." + Pad4(d.year)
  }

  lemma DayFieldReads(t: string, n: int)
    requires 1 <= n <= 31
    ensures DayField(t) == Some(n) <==> t in DaySpellings(n)
  {
    if DayField(t) == Some(n) && |t| == 2 && IsDigit(t[0]) {
      SameTwoDigits(t, Pad2(n));
    }
    if |t| == 1 && DayField(t) == Some(n) {
      assert t == [DigitChar(n)];
    }
    if |t| == 2 && t[0] == ' ' && DayField(t) == Some(n) {
      assert t == [' ', DigitChar(n)];
    }
  }

  lemma MonthFieldReads(t: string, n: int)
    requires 1 <= n <= 12
    ensures MonthField(t) == Some(n) <==> t in MonthSpellings(n)
  {
    if MonthField(t) == Some(n) && |t| == 2 {
      SameTwoDigits(t, Pad2(n));
    }
    if |t| == 1 && MonthField(t) == Some(n) {
      assert t == [DigitChar(n)];
    }
  }

  lemma YearFieldReads(t: string, y: int)
    requires 1 <= y <= 9999
    ensures YearField(t) == Some(y) <==> t == Pad4(y)
  {
    if YearField(t) == Some(y) {
      Value4Injective(t, Pad4(y));
    }
  }

  /** A text `strptime` reads as `d` is a `%d.%m.%Y` spelling of `d`. */
  lemma ParseGivesSpelling(s: string, d: Date)
    requires ParseBirthday(s) == Ok(d)
    ensures IsPyDate(d) && SpellsDate(s, d)
  {
    var parts := SplitDots(s);
    JoinSplit(s);
    assert |parts| == 3;
    assert parts[1..][1..] == [parts[2]];
    assert JoinDots(parts[1..]) == parts[1] + "." + parts[2];
    DayFieldReads(parts[0], d.day);
    MonthFieldReads(parts[1], d.month);
    YearFieldReads(parts[2], d.year);
    assert s == parts[0] + "." + parts[1] + "." + Pad4(d.year);
  }

  lemma NoDot(t: string)
    requires |t| <= 2 && forall i :: 0 <= i < |t| ==> IsDigit(t[i]) || t[i] == ' '
    ensures forall i :: 0 <= i < |t| ==> t[i] != '.'
  {
  }

  /** Every `%d.%m.%Y` spelling of a date `datetime.date` accepts is read as that date. */
  lemma SpellingParses(s: string, d: Date)
    requires IsPyDate(d) && SpellsDate(s, d)
    ensures ParseBirthday(s) == Ok(d)
  {
    var a, b :| a in DaySpellings(d.day) && b in MonthSpellings(d.month) &&
      s == a + "." + b + "." + Pad4(d.year);
    var yyyy := Pad4(d.year);
    assert s == a + "." + (b + "." + yyyy);
    NoDot(a);
    NoDot(b);
    SplitAtDot(a, b + "." + yyyy);
    SplitAtDot(b, yyyy);
    SplitNoDot(yyyy);
    assert SplitDots(s) == [a, b, yyyy];
    DayFieldReads(a, d.day);
    MonthFieldReads(b, d.month);
    YearFieldReads(yyyy, d.year);
  }

  /**
   * The parse accepts exactly the `%d.%m.%Y` spellings of a date `datetime.date`
   * accepts, and gives that date: one- or two-digit day (or a space and one
   * digit), one- or two-digit month, four-digit year.
   */
  lemma ParseBirthdaySpellings(s: string, d: Date)
    ensures ParseBirthday(s) == Ok(d) <==> IsPyDate(d) && SpellsDate(s, d)
  {
    if ParseBirthday(s) == Ok(d) {
      ParseGivesSpelling(s, d);
    }
    if IsPyDate(d) && SpellsDate(s, d) {
      SpellingParses(s, d);
    }
  }
}
