/**
 * The check-up dates of the current program: leap years, the validity of
 * a day/month/year triple (years 1900 to 2100), and the date prompt's
 * parse-and-normalise step, which turns "D/M/YYYY" into "DD/MM/YYYY".
 * Also the (Year, Month, Day) order both programs mean by "newer".
 */
module Dates {
  import opened Wrappers
  import opened Text

  /** Gregorian leap years. Go's `%` truncates, but a zero remainder is sign-independent. */
  predicate IsLeapYear(year: int)
  {
    (year % 4 == 0 && year % 100 != 0) || year % 400 == 0
  }

  /** The month table of the program, with February raised to 29 in leap years. */
  function MonthTable(year: int): (t: seq<int>)
    ensures |t| == 12
  {
    var daysInMonth := [31, 28, 31, 30, 31, 30, 31, 31, 30, 31, 30, 31];
    if IsLeapYear(year) then daysInMonth[1 := 29] else daysInMonth
  }

  /** Length of a month by the calendar rule, independent of the program's table. */
  function CalendarDays(month: int, year: int): int
  {
    if month == 2 then (if IsLeapYear(year) then 29 else 28)
    else if month == 4 || month == 6 || month == 9 || month == 11 then 30
    else 31
  }

  predicate IsValidDate(day: int, month: int, year: int)
  {
    if year < 1900 || year > 2100 then false
    else if month < 1 || month > 12 then false
    else 1 <= day <= MonthTable(year)[month - 1]
  }

  /** The table lookup agrees with the calendar rule: valid means year, month and day all in range. */
  lemma IsValidDateIff(day: int, month: int, year: int)
    ensures IsValidDate(day, month, year) <==>
      1900 <= year <= 2100 && 1 <= month <= 12 && 1 <= day <= CalendarDays(month, year)
  {
  }

  /** The cases the program's test suite checks. */
  lemma IsValidDateExamples()
    ensures IsLeapYear(2000) && IsLeapYear(2020) && IsLeapYear(2024)
    ensures !IsLeapYear(1900) && !IsLeapYear(2021) && !IsLeapYear(2100)
    ensures IsValidDate(15, 6, 2023) && IsValidDate(29, 2, 2020) && IsValidDate(31, 12, 2100)
    ensures !IsValidDate(29, 2, 2021) && !IsValidDate(31, 4, 2023) && !IsValidDate(1, 1, 1899)
    ensures !IsValidDate(0, 1, 2023) && !IsValidDate(1, 13, 2023) && !IsValidDate(1, 1, 2101)
  {
  }

  // ---------------------------------------------------------------------
  // Formatting and parsing: fmt.Sprintf("%02d/%02d/%04d", day, month, year)

  function FormatDate(day: nat, month: nat, year: nat): string
  {
    ZeroPad(day, 2) + "/" + ZeroPad(month, 2) + "/" + ZeroPad(year, 4)
  }

  /**
   * One pass of the date prompt: trim, split on '/', require three parts
   * that each parse as an integer, require a valid date, and reprint it
   * zero-padded. None stands for "ask again".
   */
  function ParseDate(line: string): (r: Option<string>)
    ensures r.Some? ==> exists d: nat, m: nat, y: nat :: IsValidDate(d, m, y) && r.value == FormatDate(d, m, y)
  {
    var parts := Split(TrimSpace(line), '/');
    if |parts| != 3 then None
    else
      var day, month, year := Atoi(parts[0]), Atoi(parts[1]), Atoi(parts[2]);
      if day.Some? && month.Some? && year.Some? && IsValidDate(day.value, month.value, year.value) then
        var d: nat, m: nat, y: nat := day.value, month.value, year.value;
        Some(FormatDate(d, m, y))
      else None
  }

  lemma PadLengths(day: nat, month: nat, year: nat)
    requires IsValidDate(day, month, year)
    ensures |ZeroPad(day, 2)| == 2 && |ZeroPad(month, 2)| == 2 && |ZeroPad(year, 4)| == 4
  {
    assert Pow10(2) == 100 && Pow10(4) == 10000;
    ZeroPadLength(day, 2);
    ZeroPadLength(month, 2);
    ZeroPadLength(year, 4);
  }

  /** Three digit fields joined by slashes. */
  lemma JoinedShape(dd: string, mm: string, yyyy: string)
    requires |dd| == 2 && |mm| == 2 && |yyyy| == 4
    requires AllDigits(dd) && AllDigits(mm) && AllDigits(yyyy)
    ensures var s := dd + "/" + mm + "/" + yyyy;
      |s| == 10 && s[2] == '/' && s[5] == '/' &&
      (forall i :: 0 <= i < 10 && i != 2 && i != 5 ==> IsDigit(s[i])) &&
      s[0..2] == dd && s[3..5] == mm && s[6..10] == yyyy
  {
    var s := dd + "/" + mm + "/" + yyyy;
    forall i | 0 <= i < 10 && i != 2 && i != 5 ensures IsDigit(s[i]) {
      if i < 2 {
        assert s[i] == dd[i];
      } else if i < 5 {
        assert s[i] == mm[i - 3];
      } else {
        assert s[i] == yyyy[i - 6];
      }
    }
  }

  /** Three slash-free fields joined by slashes split back into those fields. */
  lemma SplitJoined(dd: string, mm: string, yyyy: string)
    requires '/' !in dd && '/' !in mm && '/' !in yyyy
    ensures Split(dd + "/" + mm + "/" + yyyy, '/') == [dd, mm, yyyy]
  {
    assert dd + "/" + mm + "/" + yyyy == dd + ['/'] + (mm + ['/'] + yyyy);
    SplitCons(dd, '/', mm + ['/'] + yyyy);
    SplitCons(mm, '/', yyyy);
    SplitNone(yyyy, '/');
  }

  lemma DigitsHaveNoSlash(s: string)
    requires AllDigits(s)
    ensures '/' !in s
  {
    forall i | 0 <= i < |s| ensures s[i] != '/' {
      assert IsDigit(s[i]);
    }
  }

  /** An accepted date is ten characters, "DD/MM/YYYY", with slashes at 2 and 5 and digits elsewhere. */
  lemma FormatDateShape(day: nat, month: nat, year: nat)
    requires IsValidDate(day, month, year)
    ensures var s := FormatDate(day, month, year);
      |s| == 10 && s[2] == '/' && s[5] == '/' &&
      (forall i :: 0 <= i < 10 && i != 2 && i != 5 ==> IsDigit(s[i])) &&
      s[0..2] == ZeroPad(day, 2) && s[3..5] == ZeroPad(month, 2) && s[6..10] == ZeroPad(year, 4)
  {
    PadLengths(day, month, year);
    JoinedShape(ZeroPad(day, 2), ZeroPad(month, 2), ZeroPad(year, 4));
  }

  /** The fields of a formatted date read back as the numbers that made it. */
  lemma FormatDateFields(day: nat, month: nat, year: nat)
    requires IsValidDate(day, month, year)
    ensures var s := FormatDate(day, month, year);
      Atoi(s[0..2]) == Some(day) && Atoi(s[3..5]) == Some(month) && Atoi(s[6..10]) == Some(year)
  {
    FormatDateShape(day, month, year);
    AtoiZeroPad(day, 2);
    AtoiZeroPad(month, 2);
    AtoiZeroPad(year, 4);
  }

  /** What the prompt does to a trimmed line with three readable fields. */
  lemma ParseDateAccepts(s: string, parts: seq<string>, day: nat, month: nat, year: nat)
    requires TrimSpace(s) == s && Split(s, '/') == parts && |parts| == 3
    requires Atoi(parts[0]) == Some(day) && Atoi(parts[1]) == Some(month) && Atoi(parts[2]) == Some(year)
    requires IsValidDate(day, month, year)
    ensures ParseDate(s) == Some(FormatDate(day, month, year))
  {
  }

  /** A formatted date has no outer white space and splits into its three padded fields. */
  lemma FormattedSplits(day: nat, month: nat, year: nat)
    requires IsValidDate(day, month, year)
    ensures var s := FormatDate(day, month, year);
      TrimSpace(s) == s && Split(s, '/') == [ZeroPad(day, 2), ZeroPad(month, 2), ZeroPad(year, 4)]
  {
    FormattedTrimmed(day, month, year);
    DigitFieldsSplit(ZeroPad(day, 2), ZeroPad(month, 2), ZeroPad(year, 4));
  }

  lemma FormattedTrimmed(day: nat, month: nat, year: nat)
    requires IsValidDate(day, month, year)
    ensures TrimSpace(FormatDate(day, month, year)) == FormatDate(day, month, year)
  {
    var s := FormatDate(day, month, year);
    FormatDateShape(day, month, year);
    assert IsDigit(s[0]) && IsDigit(s[9]);
    TrimSpaceNoop(s);
  }

  lemma DigitFieldsSplit(dd: string, mm: string, yyyy: string)
    requires AllDigits(dd) && AllDigits(mm) && AllDigits(yyyy)
    ensures Split(dd + "/" + mm + "/" + yyyy, '/') == [dd, mm, yyyy]
  {
    DigitsHaveNoSlash(dd);
    DigitsHaveNoSlash(mm);
    DigitsHaveNoSlash(yyyy);
    SplitJoined(dd, mm, yyyy);
  }

  /** The prompt accepts its own output unchanged: normalising is idempotent. */
  lemma ParseFormatted(day: nat, month: nat, year: nat)
    requires IsValidDate(day, month, year)
    ensures ParseDate(FormatDate(day, month, year)) == Some(FormatDate(day, month, year))
  {
    assert day <= 31 && month <= 12 && year <= 2100 by {
      IsValidDateIff(day, month, year);
    }
    FormattedSplits(day, month, year);
    AtoiZeroPad(day, 2);
    AtoiZeroPad(month, 2);
    AtoiZeroPad(year, 4);
    ParseDateAccepts(FormatDate(day, month, year), [ZeroPad(day, 2), ZeroPad(month, 2), ZeroPad(year, 4)], day, month, year);
  }

  // ---------------------------------------------------------------------
  // Chronological order

  /** (y1, m1, d1) is strictly later than (y2, m2, d2). */
  predicate Later(y1: int, m1: int, d1: int, y2: int, m2: int, d2: int)
  {
    y1 > y2 || (y1 == y2 && m1 > m2) || (y1 == y2 && m1 == m2 && d1 > d2)
  }

  /** The three fields of a "DD/MM/YYYY" string as (year, month, day); zero where unreadable. */
  function DateKey(s: string): (int, int, int)
  {
    if |s| != 10 then (0, 0, 0)
    else
      var day, month, year := Atoi(s[0..2]), Atoi(s[3..5]), Atoi(s[6..10]);
      (if year.Some? then year.value else 0,
       if month.Some? then month.value else 0,
       if day.Some? then day.value else 0)
  }

  /** Strictly newer by calendar date. */
  predicate ChronoNewer(a: string, b: string)
  {
    var (y1, m1, d1) := DateKey(a);
    var (y2, m2, d2) := DateKey(b);
    Later(y1, m1, d1, y2, m2, d2)
  }

  /** On dates the prompt produced, ChronoNewer is exactly "later in the calendar". */
  lemma ChronoNewerFormatted(d1: nat, m1: nat, y1: nat, d2: nat, m2: nat, y2: nat)
    requires IsValidDate(d1, m1, y1) && IsValidDate(d2, m2, y2)
    ensures ChronoNewer(FormatDate(d1, m1, y1), FormatDate(d2, m2, y2)) <==> Later(y1, m1, d1, y2, m2, d2)
  {
    FormatDateShape(d1, m1, y1);
    FormatDateShape(d2, m2, y2);
    FormatDateFields(d1, m1, y1);
    FormatDateFields(d2, m2, y2);
  }

  /**
   * Comparing "DD/MM/YYYY" strings character by character is not
   * chronological: 15/06/2023 sorts after 01/07/2023 although it is the
   * earlier date.
   */
  lemma StringOrderIsNotChronological()
    ensures IsValidDate(15, 6, 2023) && IsValidDate(1, 7, 2023)
    ensures FormatDate(15, 6, 2023) == "15/06/2023" && FormatDate(1, 7, 2023) == "01/07/2023"
    ensures Less("01/07/2023", "15/06/2023")
    ensures Later(2023, 7, 1, 2023, 6, 15)
  {
    FormatExamples();
  }

  /** Two dates as the prompt prints them. */
  lemma FormatExamples()
    ensures FormatDate(15, 6, 2023) == "15/06/2023" && FormatDate(1, 7, 2023) == "01/07/2023"
  {
    DecimalExamples();
    assert Zeros(1) == "0";
    assert ZeroPad(6, 2) == "06" && ZeroPad(1, 2) == "01" && ZeroPad(7, 2) == "07";
    assert ZeroPad(15, 2) == "15" && ZeroPad(2023, 4) == "2023";
  }

  lemma DecimalExamples()
    ensures Decimal(1) == "1" && Decimal(6) == "6" && Decimal(7) == "7"
    ensures Decimal(15) == "15" && Decimal(2023) == "2023"
  {
    assert Decimal(2) == "2";
    assert Decimal(20) == "20";
    assert Decimal(202) == "202";
  }
}
