/** The due-date check: a date is accepted when `Date.UTC` does not roll it over.

Days are counted as in section 21.4.1 of ECMA-262; `MakeDay` and `DateUTC` follow sections 21.4.1 and
21.4.3.4. The independent notion is the calendar: month lengths and the Gregorian leap-year rule. The main
result is that the check accepts exactly the calendar's dates, except that it refuses every year 0 to 99.
 */
module DueDate {
  import opened CliText
  import opened CliArgs

  // ----- the calendar -----

  predicate IsLeapYear(y: int) {
    (y % 4 == 0 && y % 100 != 0) || y % 400 == 0
  }

  function DaysInMonth(y: int, month: int): int
    requires 1 <= month <= 12
  {
    match month
    case 2 => if IsLeapYear(y) then 29 else 28
    case 4 => 30
    case 6 => 30
    case 9 => 30
    case 11 => 30
    case _ => 31
  }

  /** The proleptic Gregorian calendar. */
  predicate IsRealDate(y: int, month: int, day: int) {
    1 <= month <= 12 && 1 <= day <= DaysInMonth(y, month)
  }

  // ----- days of ECMA-262 -----

  /** Day number of 1 January of year `y`, with 1 January 1970 as day 0. Dafny's division floors here. */
  function DayFromYear(y: int): int {
    365 * (y - 1970) + (y - 1969) / 4 - (y - 1901) / 100 + (y - 1601) / 400
  }

  function DaysInYear(y: int): int {
    if IsLeapYear(y) then 366 else 365
  }

  datatype Fields = Fields(year: int, month: int, date: int)

  /** Days of the year before month `m`, which is counted from 0 as ECMA-262 does. */
  function DaysBefore(y: int, m: int): int
    requires 0 <= m <= 12
  {
    if m == 0 then 0 else DaysBefore(y, m - 1) + DaysInMonth(y, m)
  }

  /** The day number of a calendar position. */
  function DayOf(y: int, m: int, day: int): int
    requires 0 <= m <= 11
  {
    DayFromYear(y) + DaysBefore(y, m) + (day - 1)
  }

  /** A quotient grows by one exactly at a multiple. */
  lemma QuotientStep(n: int, d: int)
    requires d == 4 || d == 100 || d == 400
    ensures n / d - (n - 1) / d == if n % d == 0 then 1 else 0
  {
  }

  lemma Multiple(y: int, d: int, k: int)
    requires (d == 4 && k == 492) || (d == 100 && k == 19) || (d == 400 && k == 4)
    ensures (y - k * d) % d == y % d
  {
    if d == 4 {
      assert (y - 1968) % 4 == y % 4;
    } else if d == 100 {
      assert (y - 1900) % 100 == y % 100;
    } else {
      assert (y - 1600) % 400 == y % 400;
    }
  }

  lemma Nested(y: int)
    ensures y % 400 == 0 ==> y % 100 == 0
    ensures y % 100 == 0 ==> y % 4 == 0
  {
    if y % 400 == 0 {
      assert y == 400 * (y / 400);
      MultiplesNest(y / 400);
    }
    if y % 100 == 0 {
      assert y == 100 * (y / 100);
      MultiplesNest(y / 100);
    }
  }

  lemma MultiplesNest(q: int)
    ensures (400 * q) % 100 == 0 && (100 * q) % 4 == 0
  {
  }

  lemma LeapDays(y: int, fours: int, hundreds: int, fourHundreds: int)
    requires fours == if y % 4 == 0 then 1 else 0
    requires hundreds == if y % 100 == 0 then 1 else 0
    requires fourHundreds == if y % 400 == 0 then 1 else 0
    ensures fours - hundreds + fourHundreds == if IsLeapYear(y) then 1 else 0
  {
    Nested(y);
  }

  /** The leap-day terms of `DayFromYear` count the leap years. */
  lemma NextYear(y: int)
    ensures DayFromYear(y + 1) == DayFromYear(y) + DaysInYear(y)
  {
    QuotientStep(y - 1968, 4);
    Multiple(y, 4, 492);
    QuotientStep(y - 1900, 100);
    Multiple(y, 100, 19);
    QuotientStep(y - 1600, 400);
    Multiple(y, 400, 4);
    LeapDays(y, (y - 1968) / 4 - (y - 1969) / 4, (y - 1900) / 100 - (y - 1901) / 100,
             (y - 1600) / 400 - (y - 1601) / 400);
  }

  lemma YearLength(y: int)
    ensures DayFromYear(y + 1) == DayFromYear(y) + DaysInYear(y)
    ensures DaysBefore(y, 12) == DaysInYear(y)
  {
    NextYear(y);
    assert DaysBefore(y, 1) == 31;
    assert DaysBefore(y, 2) == 31 + DaysInMonth(y, 2);
    assert DaysBefore(y, 4) == DaysBefore(y, 2) + 61;
    assert DaysBefore(y, 6) == DaysBefore(y, 4) + 61;
    assert DaysBefore(y, 8) == DaysBefore(y, 6) + 62;
    assert DaysBefore(y, 10) == DaysBefore(y, 8) + 61;
    assert DaysBefore(y, 12) == DaysBefore(y, 10) + 61;
  }

  /** `YearFromTime`: the largest year that does not start after the day. */
  predicate InYear(day: int, y: int) {
    DayFromYear(y) <= day < DayFromYear(y + 1)
  }

  function YearFrom(day: int, guess: int): (y: int)
    ensures InYear(day, y)
    decreases if day < DayFromYear(guess) then DayFromYear(guess) - day
              else if day >= DayFromYear(guess + 1) then day - DayFromYear(guess + 1) + 1 else 0
  {
    if day < DayFromYear(guess) then YearLength(guess - 1); YearFrom(day, guess - 1)
    else if day >= DayFromYear(guess + 1) then YearLength(guess + 1); YearFrom(day, guess + 1)
    else guess
  }

  /** The month of the year that holds day `d` of the year, both counted from 0. */
  function MonthFrom(y: int, d: int, m: int): (month: int)
    requires 0 <= m <= 11 && DaysBefore(y, m) <= d < DaysInYear(y)
    ensures 0 <= month <= 11 && DaysBefore(y, month) <= d < DaysBefore(y, month + 1)
    decreases 12 - m
  {
    if d < DaysBefore(y, m + 1) then m
    else YearLength(y); MonthFrom(y, d, m + 1)
  }

  /** `getUTCFullYear`, `getUTCMonth` and `getUTCDate` of a day. */
  function FieldsOf(day: int): Fields {
    var y := YearFrom(day, 1970);
    YearLength(y);
    var d := day - DayFromYear(y);
    var m := MonthFrom(y, d, 0);
    Fields(y, m, d - DaysBefore(y, m) + 1)
  }

  /** `MakeDay`, with the month carried into the year; the day may be any number. */
  function MakeDay(year: int, month: int, date: int): int {
    DayOf(year + month / 12, month % 12, 1) + date - 1
  }

  const MAX_DAYS := 100_000_000

  /** `new Date(Date.UTC(year, month, day))`, by its day; `None` is an invalid date, outside the range of
      `TimeClip`. */
  function DateUTC(year: int, month: int, date: int): Option<int> {
    var day := MakeDay(if 0 <= year <= 99 then 1900 + year else year, month, date);
    if -MAX_DAYS <= day <= MAX_DAYS then Some(day) else None
  }

  /** The comparison that decides whether the parts survived; an invalid date has no equal part. */
  predicate SurvivesRollover(year: int, month: int, day: int) {
    match DateUTC(year, month - 1, day)
    case None => false
    case Some(date) => FieldsOf(date) == Fields(year, month - 1, day)
  }

  // ----- day numbers and calendar dates correspond one to one -----

  lemma {:induction false} YearsAreOrdered(y: int, z: int)
    requires y <= z
    ensures DayFromYear(y) <= DayFromYear(z)
    decreases z - y
  {
    if y < z {
      YearLength(y);
      YearsAreOrdered(y + 1, z);
    }
  }

  lemma YearIsUnique(day: int, y: int, z: int)
    requires InYear(day, y) && InYear(day, z)
    ensures y == z
  {
    if y < z {
      YearsAreOrdered(y + 1, z);
    } else if z < y {
      YearsAreOrdered(z + 1, y);
    }
  }

  lemma {:induction false} MonthsAreOrdered(y: int, m: int, n: int)
    requires 0 <= m <= n <= 12
    ensures DaysBefore(y, m) <= DaysBefore(y, n)
    decreases n - m
  {
    if m < n {
      MonthsAreOrdered(y, m + 1, n);
    }
  }

  /** The fields of any day are a real date, and they lead back to the day. */
  lemma FieldsAreReal(day: int)
    ensures var f := FieldsOf(day);
            0 <= f.month <= 11 && IsRealDate(f.year, f.month + 1, f.date) && DayOf(f.year, f.month, f.date) == day
  {
  }

  /** A real date is the fields of its own day. */
  lemma FieldsOfRealDate(y: int, month: int, day: int)
    requires IsRealDate(y, month, day)
    ensures FieldsOf(DayOf(y, month - 1, day)) == Fields(y, month - 1, day)
  {
    var t := DayOf(y, month - 1, day);
    YearLength(y);
    MonthsAreOrdered(y, 0, month - 1);
    MonthsAreOrdered(y, month, 12);
    assert DaysBefore(y, month) == DaysBefore(y, month - 1) + DaysInMonth(y, month);
    var f := FieldsOf(t);
    YearIsUnique(t, y, f.year);
    if f.month < month - 1 {
      MonthsAreOrdered(y, f.month + 1, month - 1);
    } else if f.month > month - 1 {
      MonthsAreOrdered(y, month, f.month);
    }
  }

  /** `MakeDay` counts from the day that ECMA-262 asks it to find. */
  lemma MakeDayIsFound(year: int, month: int, date: int)
    ensures FieldsOf(MakeDay(year, month, date) - (date - 1)) == Fields(year + month / 12, month % 12, 1)
  {
    FieldsOfRealDate(year + month / 12, month % 12 + 1, 1);
  }

  // ----- main results -----

  /** For all integers: the check accepts exactly the real dates outside years 0 to 99 that a `Date` can
      hold. */
  lemma RolloverCheckIsExact(year: int, month: int, day: int)
    ensures SurvivesRollover(year, month, day) <==>
              && !(0 <= year <= 99)
              && IsRealDate(year, month, day)
              && -MAX_DAYS <= DayOf(year, month - 1, day) <= MAX_DAYS
  {
    if !IsRealDate(year, month, day) {
      UnrealDate(year, month, day);
    } else if 0 <= year <= 99 {
      ShiftedYear(year, month, day);
    } else {
      RealDate(year, month, day);
    }
  }

  lemma RealDate(year: int, month: int, day: int)
    requires !(0 <= year <= 99) && IsRealDate(year, month, day)
    ensures SurvivesRollover(year, month, day) <==> -MAX_DAYS <= DayOf(year, month - 1, day) <= MAX_DAYS
  {
    FieldsOfRealDate(year, month, day);
    MakeDayInYear(year, month - 1, day);
  }

  lemma MakeDayInYear(year: int, month: int, day: int)
    requires 0 <= month <= 11
    ensures MakeDay(year, month, day) == DayOf(year, month, day)
  {
    assert month / 12 == 0 && month % 12 == month;
  }

  /** Reading a day back always gives a real date, so anything else is rolled over. */
  lemma UnrealDate(year: int, month: int, day: int)
    requires !IsRealDate(year, month, day)
    ensures !SurvivesRollover(year, month, day)
  {
    var date := DateUTC(year, month - 1, day);
    if date.Some? {
      FieldsAreReal(date.value);
    }
  }

  /** Years 0 to 99 are read as 1900 to 1999, so the year never comes back. */
  lemma ShiftedYear(year: int, month: int, day: int)
    requires 0 <= year <= 99 && IsRealDate(year, month, day)
    ensures !SurvivesRollover(year, month, day)
  {
    var t := MakeDay(1900 + year, month - 1, day);
    MakeDayInYear(1900 + year, month - 1, day);
    MonthsAreOrdered(1900 + year, 0, month - 1);
    assert t >= DayFromYear(1900 + year);
    YearsAreOrdered(year + 1, 1900 + year);
  }

  // ----- the flag -----

  predicate IsDigit(c: char) {
    '0' <= c <= '9'
  }

  /** `/^\d{4}-\d{2}-\d{2}$/` */
  predicate HasDateFormat(s: string) {
    |s| == 10 && s[4] == '-' && s[7] == '-' && forall i | 0 <= i < 10 && i != 4 && i != 7 :: IsDigit(s[i])
  }

  function Digit(c: char): nat
    requires IsDigit(c)
  {
    c as int - '0' as int
  }

  function Number(digits: string): nat
    requires forall i | 0 <= i < |digits| :: IsDigit(digits[i])
  {
    if digits == [] then 0
    else 10 * Number(digits[..|digits| - 1]) + Digit(digits[|digits| - 1])
  }

  lemma DateParts(s: string)
    requires HasDateFormat(s)
    ensures Split(s, '-') == [s[..4], s[5..7], s[8..]]
  {
    assert s == s[..4] + ['-'] + s[5..];
    assert s[5..] == s[5..7] + ['-'] + s[8..];
    SplitFirst(s[..4], '-', s[5..]);
    SplitFirst(s[5..7], '-', s[8..]);
    IndexInFront(s[8..], '-', "");
  }

  datatype DueDateResult = Accepted(value: string) | Missing | WrongFormat | NotADate

  function GetDueDateFlag(flags: Flags, name: string): DueDateResult {
    if !(name in flags && flags[name].Text? && flags[name].text != "") then Missing
    else
      var value := flags[name].text;
      if !HasDateFormat(value) then WrongFormat
      else
        DateParts(value);
        var parts := Split(value, '-');
        if SurvivesRollover(Number(parts[0]), Number(parts[1]), Number(parts[2])) then Accepted(value) else NotADate
  }

  /** A well-formed flag is accepted exactly when it is a real date of year 100 or later. */
  lemma DueDateIsExact(flags: Flags, name: string, value: string)
    requires name in flags && flags[name] == Text(value) && HasDateFormat(value)
    ensures var year, month, day := Number(value[..4]), Number(value[5..7]), Number(value[8..]);
            && GetDueDateFlag(flags, name)
               == if year >= 100 && IsRealDate(year, month, day) then Accepted(value) else NotADate
  {
    var year, month, day := Number(value[..4]), Number(value[5..7]), Number(value[8..]);
    DateParts(value);
    RolloverCheckIsExact(year, month, day);
    FourDigits(value[..4]);
    if IsRealDate(year, month, day) {
      YearLength(year);
      MonthsAreOrdered(year, 0, month - 1);
      MonthsAreOrdered(year, month, 12);
      YearsAreOrdered(0, year);
      YearsAreOrdered(year + 1, 10000);
      assert DaysBefore(year, month) == DaysBefore(year, month - 1) + DaysInMonth(year, month);
    }
  }

  function DigitAt(s: string, i: nat): int
    requires i < |s|
  {
    s[i] as int - '0' as int
  }

  /** Ten characters, digits but for `-` at 4 and 7. */
  predicate LooksLikeDate(s: string) {
    && |s| == 10 && s[4] == '-' && s[7] == '-'
    && forall i | i in {0, 1, 2, 3, 5, 6, 8, 9} :: '0' <= s[i] <= '9'
  }

  lemma FormatIsShape(s: string)
    ensures HasDateFormat(s) <==> LooksLikeDate(s)
  {
    if LooksLikeDate(s) {
      forall i | 0 <= i < 10 && i != 4 && i != 7 ensures IsDigit(s[i]) {
        assert i in {0, 1, 2, 3, 5, 6, 8, 9};
      }
    }
  }

  lemma TwoDigits(s: string)
    requires |s| == 2 && IsDigit(s[0]) && IsDigit(s[1])
    ensures Number(s) == 10 * DigitAt(s, 0) + DigitAt(s, 1)
  {
    assert s[..1][..0] == [];
    assert Number(s[..0]) == 0 && Number(s[..1]) == DigitAt(s, 0);
  }

  lemma YearDigits(s: string)
    requires |s| == 4 && forall i | 0 <= i < 4 :: IsDigit(s[i])
    ensures Number(s) == 1000 * DigitAt(s, 0) + 100 * DigitAt(s, 1) + 10 * DigitAt(s, 2) + DigitAt(s, 3)
  {
    var front := s[..3];
    TwoDigits(s[..2]);
    assert front[..2] == s[..2] && Number(front) == 10 * Number(s[..2]) + DigitAt(s, 2);
    assert s[..|s| - 1] == front;
  }

  /** The days of a month by the calendar: every fourth year is a leap year, but of the hundreds only every
      fourth. */
  lemma RealDateMeans(year: int, month: int, day: int)
    ensures IsRealDate(year, month, day) <==>
              && 1 <= month <= 12 && 1 <= day
              && day <= if month == 4 || month == 6 || month == 9 || month == 11 then 30
                        else if month != 2 then 31
                        else if year % 400 == 0 || (year % 4 == 0 && year % 100 != 0) then 29 else 28
  {
  }

  /** What comes of a due-date flag, whatever the flags are. It is accepted exactly when it is ten characters,
      digits but for `-` at 4 and 7, that are a real date of year 100 or later; it is missing exactly when the
      flag is absent, bare or empty; its format is wrong exactly when it is anything else that does not have
      that shape; and otherwise it is not a date. */
  lemma DueDateFlagExactly(flags: Flags, name: string)
    ensures var result := GetDueDateFlag(flags, name);
            && (result.Missing? <==> name !in flags || flags[name] == Present || flags[name] == Text(""))
            && (result.WrongFormat? <==>
                  name in flags && flags[name].Text? && flags[name].text != "" && !LooksLikeDate(flags[name].text))
            && (result.Accepted? <==>
                  && name in flags && flags[name].Text?
                  && LooksLikeDate(flags[name].text) && IsDateFrom100(flags[name].text))
            && (result.Accepted? ==> flags[name] == Text(result.value))
  {
    if name in flags && flags[name].Text? && flags[name].text != "" {
      var v := flags[name].text;
      FormatIsShape(v);
      if HasDateFormat(v) {
        FormattedDate(flags, name, v);
      }
    }
  }

  lemma FormattedDate(flags: Flags, name: string, v: string)
    requires name in flags && flags[name] == Text(v) && HasDateFormat(v)
    ensures GetDueDateFlag(flags, name) == if IsDateFrom100(v) then Accepted(v) else NotADate
  {
    DueDateIsExact(flags, name, v);
    ReadsDigits(v);
  }

  /** The digits at the places of year, month and day are a real date of year 100 or later. */
  predicate IsDateFrom100(v: string)
    requires |v| == 10
  {
    var year := 1000 * DigitAt(v, 0) + 100 * DigitAt(v, 1) + 10 * DigitAt(v, 2) + DigitAt(v, 3);
    var month, day := 10 * DigitAt(v, 5) + DigitAt(v, 6), 10 * DigitAt(v, 8) + DigitAt(v, 9);
    year >= 100 && IsRealDate(year, month, day)
  }

  lemma ReadsDigits(v: string)
    requires HasDateFormat(v)
    ensures Number(v[..4]) == 1000 * DigitAt(v, 0) + 100 * DigitAt(v, 1) + 10 * DigitAt(v, 2) + DigitAt(v, 3)
    ensures Number(v[5..7]) == 10 * DigitAt(v, 5) + DigitAt(v, 6)
    ensures Number(v[8..]) == 10 * DigitAt(v, 8) + DigitAt(v, 9)
  {
    YearDigits(v[..4]);
    TwoDigits(v[5..7]);
    TwoDigits(v[8..]);
  }

  lemma FourDigits(s: string)
    requires |s| == 4 && forall i | 0 <= i < |s| :: IsDigit(s[i])
    ensures 0 <= Number(s) <= 9999
  {
    assert Number(s[..0]) == 0;
    assert s[..1][..0] == s[..0] && s[..2][..1] == s[..1] && s[..3][..2] == s[..2] && s[..4] == s;
    assert Number(s[..1]) <= 9;
    assert Number(s[..2]) <= 99;
    assert Number(s[..3]) <= 999;
  }
}
