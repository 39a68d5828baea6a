/** The two day-number conversions, checked against the plain Gregorian calendar: months have
    their usual lengths, a leap year is a multiple of 4 that is not a multiple of 100 unless it
    is one of 400 (RFC 3339, Appendix C), and each day has one successor. */
module Calendar {
  import opened MachineInt

  datatype Date = Date(year: int, month: int, day: int)

  // ---------- the program's functions ----------

  /** Days since 1970-01-01 to a date. Years are counted from March inside. */
  function CivilFromDays(days: int): Date {
    var z := days + 719_468;
    CivilOfEraDay(Era(z), z - Era(z) * 146_097)
  }

  /** The 400-year era a day falls in, counted from 0000-03-01. */
  function Era(z: int): int {
    TruncDiv(if z >= 0 then z else z - 146_096, 146_097)
  }

  function CivilOfEraDay(era: int, doe: int): Date {
    var yoe := YearOfEraFormula(doe);
    MarchDate(yoe + era * 400, doe - (365 * yoe + TruncDiv(yoe, 4) - TruncDiv(yoe, 100)))
  }

  function YearOfEraFormula(doe: int): int {
    TruncDiv(doe - TruncDiv(doe, 1460) + TruncDiv(doe, 36_524) - TruncDiv(doe, 146_096), 365)
  }

  /** Day `doy` of the year that starts in March of year `y`. */
  function MarchDate(y: int, doy: int): Date {
    var mp := TruncDiv(5 * doy + 2, 153);
    var d := doy - TruncDiv(153 * mp + 2, 5) + 1;
    var m := if mp < 10 then mp + 3 else mp - 9;
    Date(if m <= 2 then y + 1 else y, m, d)
  }

  /** A date to days since 1970-01-01. The day is not checked against the month's length. */
  function DaysFromCivil(year: int, month: int, day: int): int {
    var y := if month <= 2 then year - 1 else year;
    var era := TruncDiv(if y >= 0 then y else y - 399, 400);
    var yoe := y - era * 400;
    var doy := TruncDiv(153 * (if month > 2 then month - 3 else month + 9) + 2, 5) + day - 1;
    var doe := yoe * 365 + TruncDiv(yoe, 4) - TruncDiv(yoe, 100) + doy;
    era * 146_097 + doe - 719_468
  }

  // ---------- the reference calendar ----------

  predicate IsLeap(year: int) {
    year % 4 == 0 && (year % 100 != 0 || year % 400 == 0)
  }

  function DaysInMonth(year: int, month: int): int {
    if month == 2 then (if IsLeap(year) then 29 else 28)
    else if month == 4 || month == 6 || month == 9 || month == 11 then 30
    else 31
  }

  predicate ValidDate(date: Date) {
    1 <= date.month <= 12 && 1 <= date.day <= DaysInMonth(date.year, date.month)
  }

  function NextDate(date: Date): Date {
    if date.day < DaysInMonth(date.year, date.month) then date.(day := date.day + 1)
    else if date.month < 12 then Date(date.year, date.month + 1, 1)
    else Date(date.year + 1, 1, 1)
  }

  predicate Before(a: Date, b: Date) {
    || a.year < b.year
    || (a.year == b.year && a.month < b.month)
    || (a.year == b.year && a.month == b.month && a.day < b.day)
  }

  // ---------- years that start in March ----------

  /** First day of the `yoe`-th year of a 400-year era. */
  function YearStart(yoe: int): int {
    365 * yoe + yoe / 4 - yoe / 100
  }

  /** Days in that year; February is its last month and belongs to the next civil year. */
  function YearLength(yoe: int): int {
    if IsLeap(yoe + 1) then 366 else 365
  }

  /** First day of the `mp`-th month counted from March. */
  function MonthStart(mp: int): int {
    (153 * mp + 2) / 5
  }

  /** Which era and which day of it: for negative numbers too, the truncating division with
      its correction rounds down. */
  lemma EraIsFloor(z: int, size: int)
    requires size == 146_097 || size == 400
    ensures TruncDiv(if z >= 0 then z else z - (size - 1), size) == z / size
  {
  }

  /** The year-of-era formula is exact: the day falls inside the year it names. */
  lemma YearOfEra(doe: int) returns (yoe: int)
    requires 0 <= doe < 146_097
    ensures yoe == (doe - doe / 1460 + doe / 36_524 - doe / 146_096) / 365
    ensures 0 <= yoe < 400
    ensures YearStart(yoe) <= doe < YearStart(yoe) + YearLength(yoe)
  {
    var c := Min(doe / 36_524, 3);
    var inCentury := doe - 36_524 * c;
    var q := inCentury / 1461;
    var inCycle := inCentury - 1461 * q;
    var a := Min(inCycle / 365, 3);
    var d := inCycle - 365 * a;
    yoe := 100 * c + 4 * q + a;
    var extra := 24 * c + q + 365 * a + d;
    assert doe == 1460 * (25 * c + q) + extra;
    assert doe / 1460 == 25 * c + q + (if extra >= 1460 then 1 else 0);
    assert yoe / 4 == 25 * c + q && yoe / 100 == c;
    LeapInEra(c, q, a);
  }

  lemma LeapInEra(c: int, q: int, a: int)
    requires 0 <= c <= 3 && 0 <= q <= 24 && 0 <= a <= 3
    ensures IsLeap(100 * c + 4 * q + a + 1) <==> a == 3 && (q != 24 || c == 3)
  {
  }

  /** The date of day `doy` of year `yoe` of an era. */
  function FromParts(era: int, yoe: int, doy: int): Date {
    var mp := (5 * doy + 2) / 153;
    var m := if mp < 10 then mp + 3 else mp - 9;
    Date(era * 400 + yoe + (if m <= 2 then 1 else 0), m, doy - MonthStart(mp) + 1)
  }

  predicate InEra(yoe: int, doy: int) {
    0 <= yoe < 400 && 0 <= doy < YearLength(yoe)
  }

  lemma EraBounds(z: int)
    ensures 0 <= z - Era(z) * 146_097 < 146_097
  {
  }

  lemma PartsOfDay(days: int) returns (era: int, doe: int, yoe: int)
    ensures era == Era(days + 719_468) && doe == days + 719_468 - era * 146_097
    ensures yoe == (doe - doe / 1460 + doe / 36_524 - doe / 146_096) / 365
    ensures 0 <= doe < 146_097 && InEra(yoe, doe - YearStart(yoe))
  {
    EraBounds(days + 719_468);
    era := Era(days + 719_468);
    doe := days + 719_468 - era * 146_097;
    yoe := YearOfEra(doe);
  }

  lemma CivilParts(days: int) returns (era: int, yoe: int, doy: int)
    ensures InEra(yoe, doy)
    ensures days + 719_468 == era * 146_097 + YearStart(yoe) + doy
    ensures CivilFromDays(days) == FromParts(era, yoe, doy)
  {
    var doe;
    era, doe, yoe := PartsOfDay(days);
    doy := doe - YearStart(yoe);
    EraDayParts(era, doe, yoe);
  }

  lemma EraDayParts(era: int, doe: int, yoe: int)
    requires 0 <= doe < 146_097
    requires yoe == (doe - doe / 1460 + doe / 36_524 - doe / 146_096) / 365
    requires InEra(yoe, doe - YearStart(yoe))
    ensures CivilOfEraDay(era, doe) == FromParts(era, yoe, doe - YearStart(yoe))
  {
    assert YearOfEraFormula(doe) == yoe by {
      RoundingDown(doe);
    }
    assert 365 * yoe + TruncDiv(yoe, 4) - TruncDiv(yoe, 100) == YearStart(yoe);
    MarchDateParts(era, yoe, doe - YearStart(yoe));
  }

  /** Every truncating division of the year formula has a non-negative operand. */
  lemma RoundingDown(doe: int)
    requires 0 <= doe < 146_097
    ensures YearOfEraFormula(doe) == (doe - doe / 1460 + doe / 36_524 - doe / 146_096) / 365
  {
  }

  lemma MarchDateParts(era: int, yoe: int, doy: int)
    requires 0 <= doy < 366
    ensures MarchDate(yoe + era * 400, doy) == FromParts(era, yoe, doy)
  {
  }

  /** A day number has only one (era, year, day of year). */
  lemma PartsUnique(era: int, yoe: int, doy: int, era': int, yoe': int, doy': int)
    requires InEra(yoe, doy) && InEra(yoe', doy')
    requires era * 146_097 + YearStart(yoe) + doy == era' * 146_097 + YearStart(yoe') + doy'
    ensures era == era' && yoe == yoe' && doy == doy'
  {
    YearFitsEra(yoe, doy);
    YearFitsEra(yoe', doy');
    assert era == era';
    if yoe < yoe' {
      YearsInOrder(yoe, yoe');
    } else if yoe' < yoe {
      YearsInOrder(yoe', yoe);
    }
  }

  lemma YearFitsEra(yoe: int, doy: int)
    requires InEra(yoe, doy)
    ensures 0 <= YearStart(yoe) + doy < 146_097
  {
  }

  lemma YearsInOrder(yoe: int, yoe': int)
    requires 0 <= yoe < yoe' < 400
    ensures YearStart(yoe) + YearLength(yoe) <= YearStart(yoe')
  {
    NextYearStart(yoe);
  }

  lemma NextYearStart(yoe: int)
    requires 0 <= yoe < 399
    ensures YearStart(yoe + 1) == YearStart(yoe) + YearLength(yoe)
  {
  }

  lemma LeapRepeats(era: int, yoe: int)
    ensures IsLeap(era * 400 + yoe) <==> IsLeap(yoe)
  {
    Shift4(100 * era, yoe);
    Shift100(4 * era, yoe);
    Shift400(era, yoe);
  }

  lemma Shift4(q: int, x: int)
    ensures (q * 4 + x) % 4 == x % 4
  {
  }

  lemma Shift100(q: int, x: int)
    ensures (q * 100 + x) % 100 == x % 100
  {
  }

  lemma Shift400(q: int, x: int)
    ensures (q * 400 + x) % 400 == x % 400
  {
  }

  /** The month formula is exact: the day of the year falls inside the month it names. */
  lemma MonthOfYear(doy: int)
    requires 0 <= doy < 366
    ensures var mp := (5 * doy + 2) / 153;
      0 <= mp <= 11 && MonthStart(mp) <= doy < MonthStart(mp + 1)
  {
  }

  /** The month table of the calendar, read off the March-based formula. */
  lemma MonthLengths(era: int, yoe: int, mp: int)
    requires 0 <= yoe < 400 && 0 <= mp <= 11
    ensures var m := if mp < 10 then mp + 3 else mp - 9;
      DaysInMonth(era * 400 + yoe + (if m <= 2 then 1 else 0), m)
        == (if mp < 11 then MonthStart(mp + 1) else YearLength(yoe)) - MonthStart(mp)
  {
    LeapRepeats(era, yoe + 1);
    assert era * 400 + (yoe + 1) == era * 400 + yoe + 1;
  }

  // ---------- the conversions are the calendar ----------

  lemma CivilIsValid(days: int)
    ensures ValidDate(CivilFromDays(days))
  {
    var era, yoe, doy := CivilParts(days);
    MonthOfYear(doy);
    MonthLengths(era, yoe, (5 * doy + 2) / 153);
  }

  lemma Epoch()
    ensures CivilFromDays(0) == Date(1970, 1, 1)
  {
  }

  /** One more day is the calendar's next date, on every day before and after the epoch. */
  lemma CivilSuccessor(days: int)
    ensures CivilFromDays(days + 1) == NextDate(CivilFromDays(days))
  {
    var era, yoe, doy := CivilParts(days);
    var era', yoe', doy' := CivilParts(days + 1);
    PartsSuccessor(era, yoe, doy, era', yoe', doy');
  }

  lemma PartsSuccessor(era: int, yoe: int, doy: int, era': int, yoe': int, doy': int)
    requires InEra(yoe, doy) && InEra(yoe', doy')
    requires era' * 146_097 + YearStart(yoe') + doy' == era * 146_097 + YearStart(yoe) + doy + 1
    ensures FromParts(era', yoe', doy') == NextDate(FromParts(era, yoe, doy))
  {
    if doy + 1 < YearLength(yoe) {
      PartsUnique(era', yoe', doy', era, yoe, doy + 1);
      SuccessorInYear(era, yoe, doy);
    } else {
      LastDayOfYear(era, yoe, doy);
      if yoe < 399 {
        NextYearStart(yoe);
        PartsUnique(era', yoe', doy', era, yoe + 1, 0);
      } else {
        assert IsLeap(400);
        PartsUnique(era', yoe', doy', era + 1, 0, 0);
      }
    }
  }

  lemma LastDayOfYear(era: int, yoe: int, doy: int)
    requires InEra(yoe, doy) && doy + 1 == YearLength(yoe)
    ensures NextDate(FromParts(era, yoe, doy)) == Date(era * 400 + yoe + 1, 3, 1)
  {
    MonthLengths(era, yoe, 11);
    assert (5 * doy + 2) / 153 == 11;
  }

  lemma SuccessorInYear(era: int, yoe: int, doy: int)
    requires InEra(yoe, doy) && InEra(yoe, doy + 1)
    ensures FromParts(era, yoe, doy + 1) == NextDate(FromParts(era, yoe, doy))
  {
    MonthOfYear(doy);
    MonthOfYear(doy + 1);
    var mp := (5 * doy + 2) / 153;
    MonthLengths(era, yoe, mp);
    if doy + 1 < MonthStart(mp + 1) {
      assert (5 * (doy + 1) + 2) / 153 == mp;
    } else {
      assert (5 * (doy + 1) + 2) / 153 == mp + 1;
    }
  }

  /** Where a valid date sits in its era. */
  lemma DateParts(date: Date) returns (era: int, yoe: int, doy: int)
    requires ValidDate(date)
    ensures InEra(yoe, doy)
    ensures date == FromParts(era, yoe, doy)
    ensures DaysFromCivil(date.year, date.month, date.day)
         == era * 146_097 + YearStart(yoe) + doy - 719_468
  {
    var y := if date.month <= 2 then date.year - 1 else date.year;
    EraIsFloor(y, 400);
    era := y / 400;
    yoe := y - era * 400;
    var mp := if date.month > 2 then date.month - 3 else date.month + 9;
    doy := MonthStart(mp) + date.day - 1;
    MonthLengths(era, yoe, mp);
    assert (5 * doy + 2) / 153 == mp;
  }

  /** Day number to date and back, for every day. */
  lemma DaysOfCivil(days: int)
    ensures var date := CivilFromDays(days);
      DaysFromCivil(date.year, date.month, date.day) == days
  {
    var era, yoe, doy := CivilParts(days);
    CivilIsValid(days);
    var era', yoe', doy' := DateParts(CivilFromDays(days));
    PartsOfDate(era, yoe, doy, era', yoe', doy');
  }

  lemma PartsOfDate(era: int, yoe: int, doy: int, era': int, yoe': int, doy': int)
    requires InEra(yoe, doy) && InEra(yoe', doy')
    requires FromParts(era, yoe, doy) == FromParts(era', yoe', doy')
    ensures era == era' && yoe == yoe' && doy == doy'
  {
  }

  /** Date to day number and back, for every valid date of every year. */
  lemma CivilOfDays(date: Date)
    requires ValidDate(date)
    ensures CivilFromDays(DaysFromCivil(date.year, date.month, date.day)) == date
  {
    var era, yoe, doy := DateParts(date);
    var era', yoe', doy' := CivilParts(DaysFromCivil(date.year, date.month, date.day));
    PartsUnique(era, yoe, doy, era', yoe', doy');
  }

  lemma NextIsLater(date: Date)
    requires ValidDate(date)
    ensures ValidDate(NextDate(date))
    ensures DaysFromCivil(NextDate(date).year, NextDate(date).month, NextDate(date).day)
         == DaysFromCivil(date.year, date.month, date.day) + 1
  {
    var days := DaysFromCivil(date.year, date.month, date.day);
    CivilOfDays(date);
    CivilSuccessor(days);
    CivilIsValid(days + 1);
    DaysOfCivil(days + 1);
  }

  /** Day numbers keep the order of dates, in both directions. */
  lemma DaysInOrder(a: Date, b: Date)
    requires ValidDate(a) && ValidDate(b)
    ensures Before(a, b)
       <==> DaysFromCivil(a.year, a.month, a.day) < DaysFromCivil(b.year, b.month, b.day)
  {
    if Before(a, b) {
      BeforeGivesLess(a, b);
    } else if Before(b, a) {
      BeforeGivesLess(b, a);
    } else {
      assert a == b;
    }
  }

  lemma BeforeGivesLess(a: Date, b: Date)
    requires ValidDate(a) && ValidDate(b) && Before(a, b)
    ensures DaysFromCivil(a.year, a.month, a.day) < DaysFromCivil(b.year, b.month, b.day)
  {
    var era, yoe, doy := DateParts(a);
    var era', yoe', doy' := DateParts(b);
    PartsFollowDates(era, yoe, doy, era', yoe', doy');
    YearFitsEra(yoe, doy);
    YearFitsEra(yoe', doy');
    if era == era' && yoe < yoe' {
      YearsInOrder(yoe, yoe');
    }
  }

  lemma PartsFollowDates(era: int, yoe: int, doy: int, era': int, yoe': int, doy': int)
    requires InEra(yoe, doy) && InEra(yoe', doy')
    requires Before(FromParts(era, yoe, doy), FromParts(era', yoe', doy'))
    ensures era < era' || (era == era' && (yoe < yoe' || (yoe == yoe' && doy < doy')))
  {
  }
}
