/** RFC 3339 text (section 5.6, the `Z` form only) to Unix seconds and back, and the freshness
    judgement that rests on it. */
module Timestamp {
  import opened Wrappers
  import opened MachineInt
  import opened Text
  import opened Calendar

  // ---------- printing ----------

  datatype Fields = Fields(year: string, month: string, day: string,
                           hour: string, minute: string, second: string)

  function Join(f: Fields): string {
    f.year + "-" + f.month + "-" + f.day + "T" + f.hour + ":" + f.minute + ":" + f.second + "Z"
  }

  datatype Stamp = Stamp(date: Date, hour: int, minute: int, second: int)

  function StampOfUnix(secs: int): Stamp {
    var daySecs := secs % 86_400;
    Stamp(CivilFromDays(secs / 86_400), daySecs / 3600, (daySecs % 3600) / 60, daySecs % 60)
  }

  function PrintFields(s: Stamp): Fields {
    Fields(Padded(s.date.year, 4), Padded(s.date.month, 2), Padded(s.date.day, 2),
           Padded(s.hour, 2), Padded(s.minute, 2), Padded(s.second, 2))
  }

  function Rfc3339FromUnix(secs: int): string {
    Join(PrintFields(StampOfUnix(secs)))
  }

  // ---------- parsing ----------

  function SplitFields(input: string): (r: Option<Fields>)
    ensures r.Some? ==> input == Join(r.value)
  {
    match StripSuffix(input, "Z")
    case None => None
    case Some(body) =>
      match SplitOnce(body, 'T')
      case None => None
      case Some((date, time)) =>
        match (SplitDelimited(date, '-'), SplitDelimited(time, ':'))
        case (Some((year, month, day)), Some((hour, minute, second))) =>
          Some(Fields(year, month, day, hour, minute, second))
        case _ => None
  }

  /** Three parts around the first two occurrences of a delimiter. */
  function SplitDelimited(s: string, c: char): (r: Option<(string, string, string)>)
    ensures r.Some? ==> s == r.value.0 + [c] + r.value.1 + [c] + r.value.2
  {
    match SplitOnce(s, c)
    case None => None
    case Some((first, rest)) =>
      match SplitOnce(rest, c)
      case None => None
      case Some((second, third)) => Some((first, second, third))
  }

  function ParseStamp(input: string): (r: Option<Stamp>) {
    match SplitFields(input)
    case None => None
    case Some(f) =>
      match (ParseI64(f.year), ParseI64(f.month), ParseI64(f.day))
      case (Some(year), Some(month), Some(day)) =>
        (match (ParseI64(f.hour), ParseI64(f.minute), ParseI64(f.second))
         case (Some(hour), Some(minute), Some(second)) =>
           var stamp := Stamp(Date(year, month, day), hour, minute, second);
           if InRange(stamp) then Some(stamp) else None
         case _ => None)
      case _ => None
  }

  /** The field ranges the parser checks: any day up to 31 passes, whatever the month. */
  predicate InRange(s: Stamp) {
    && 1 <= s.date.year <= 9999 && 1 <= s.date.month <= 12 && 1 <= s.date.day <= 31
    && 0 <= s.hour <= 23 && 0 <= s.minute <= 59 && 0 <= s.second <= 59
  }

  function UnixOfStamp(s: Stamp): int {
    DaysFromCivil(s.date.year, s.date.month, s.date.day) * 86_400
    + s.hour * 3600 + s.minute * 60 + s.second
  }

  function ParseRfc3339(input: string): (r: Option<int>) {
    match ParseStamp(input)
    case None => None
    case Some(stamp) => Some(UnixOfStamp(stamp))
  }

  // ---------- clock fields ----------

  lemma StampOfUnixInverse(secs: int)
    ensures UnixOfStamp(StampOfUnix(secs)) == secs
    ensures var s := StampOfUnix(secs);
      ValidDate(s.date) && 0 <= s.hour <= 23 && 0 <= s.minute <= 59 && 0 <= s.second <= 59
  {
    DaysOfCivil(secs / 86_400);
    CivilIsValid(secs / 86_400);
    ClockFields(secs % 86_400);
  }

  lemma ClockFields(daySecs: int)
    requires 0 <= daySecs < 86_400
    ensures (daySecs / 3600) * 3600 + ((daySecs % 3600) / 60) * 60 + daySecs % 60 == daySecs
    ensures 0 <= daySecs / 3600 <= 23 && 0 <= (daySecs % 3600) / 60 <= 59
  {
  }

  lemma UnixOfStampInverse(s: Stamp)
    requires InRange(s) && ValidDate(s.date)
    ensures StampOfUnix(UnixOfStamp(s)) == s
  {
    var days := DaysFromCivil(s.date.year, s.date.month, s.date.day);
    CivilOfDays(s.date);
    SplitSeconds(days, s.hour, s.minute, s.second);
  }

  lemma SplitSeconds(days: int, hour: int, minute: int, second: int)
    requires 0 <= hour <= 23 && 0 <= minute <= 59 && 0 <= second <= 59
    ensures var secs := days * 86_400 + hour * 3600 + minute * 60 + second;
      && secs / 86_400 == days && (secs % 86_400) / 3600 == hour
      && ((secs % 86_400) % 3600) / 60 == minute && (secs % 86_400) % 60 == second
  {
  }

  // ---------- splitting what was joined ----------

  predicate NoDelimiters(f: Fields) {
    && AllDigits(f.year) && AllDigits(f.month) && AllDigits(f.day)
    && AllDigits(f.hour) && AllDigits(f.minute) && AllDigits(f.second)
  }

  lemma SplitDelimitedAt(a: string, b: string, rest: string, c: char)
    requires c !in a && c !in b
    ensures SplitDelimited(a + [c] + b + [c] + rest, c) == Some((a, b, rest))
  {
    assert a + [c] + b + [c] + rest == a + [c] + (b + [c] + rest);
    SplitOnceAt(a, c, b + [c] + rest);
    SplitOnceAt(b, c, rest);
  }

  lemma SplitOuter(date: string, time: string)
    requires 'T' !in date
    ensures StripSuffix(date + "T" + time + "Z", "Z") == Some(date + "T" + time)
    ensures SplitOnce(date + "T" + time, 'T') == Some((date, time))
  {
    StripSuffixAt(date + "T" + time, "Z");
    SplitOnceAt(date, 'T', time);
  }

  lemma SplitJoined(f: Fields)
    requires NoDelimiters(f)
    ensures SplitFields(Join(f)) == Some(f)
  {
    var date := f.year + "-" + f.month + "-" + f.day;
    var time := f.hour + ":" + f.minute + ":" + f.second;
    assert Join(f) == date + "T" + time + "Z";
    SplitOuter(date, time);
    SplitDelimitedAt(f.year, f.month, f.day, '-');
    SplitDelimitedAt(f.hour, f.minute, f.second, ':');
  }

  /** A year before 1 prints with a leading minus sign, which the parser takes for the first
      delimiter: the year field comes out empty. */
  lemma NegativeYearUnreadable(year: string, f: Fields)
    requires f.year == "-" + year && NoDelimiters(f.(year := year))
    ensures ParseStamp(Join(f)).None?
  {
  }

  // ---------- print then parse ----------

  lemma ClockDigits(s: Stamp)
    requires 1 <= s.date.month && 1 <= s.date.day && 0 <= s.hour && 0 <= s.minute && 0 <= s.second
    ensures NoDelimiters(PrintFields(s).(year := ""))
  {
  }

  lemma PrintedFieldsParse(s: Stamp)
    requires 0 <= s.date.year && 1 <= s.date.month <= 12 && 1 <= s.date.day <= 31
    requires 0 <= s.hour <= 23 && 0 <= s.minute <= 59 && 0 <= s.second <= 59
    ensures NoDelimiters(PrintFields(s))
    ensures ParseStamp(Join(PrintFields(s))) == if InRange(s) then Some(s) else None
  {
    hide Padded, ParseI64, SplitFields, Join;
    PaddedParses(s.date.year, 4);
    PaddedParses(s.date.month, 2);
    PaddedParses(s.date.day, 2);
    PaddedParses(s.hour, 2);
    PaddedParses(s.minute, 2);
    PaddedParses(s.second, 2);
    SplitJoined(PrintFields(s));
  }

  lemma PrintedStampParses(s: Stamp)
    requires 1 <= s.date.month <= 12 && 1 <= s.date.day <= 31
    requires 0 <= s.hour <= 23 && 0 <= s.minute <= 59 && 0 <= s.second <= 59
    ensures ParseStamp(Join(PrintFields(s))) == if InRange(s) then Some(s) else None
  {
    if s.date.year >= 0 {
      PrintedFieldsParse(s);
    } else {
      ClockDigits(s);
      PaddedDigits(-s.date.year, 3);
      PaddedNegative(-s.date.year, 3);
      NegativeYearUnreadable(Padded(-s.date.year, 3), PrintFields(s));
    }
  }

  /** What the parser accepts of zero-padded fields: every combination in the plain ranges, with any
      day up to 31 in every month; a day the month does not have counts on into the next one. */
  lemma FieldsAccepted(s: Stamp)
    requires 0 <= s.date.year && 1 <= s.date.month <= 12 && 1 <= s.date.day <= 31
    requires 0 <= s.hour <= 23 && 0 <= s.minute <= 59 && 0 <= s.second <= 59
    ensures ParseRfc3339(Join(PrintFields(s)))
         == if 1 <= s.date.year <= 9999
            then Some((DaysFromCivil(s.date.year, s.date.month, 1) + s.date.day - 1) * 86_400
                      + s.hour * 3600 + s.minute * 60 + s.second)
            else None
  {
    hide Join, PrintFields, ParseStamp;
    PrintedFieldsParse(s);
  }

  /** Hours, minutes, seconds, months and days outside their ranges are refused. */
  lemma OutOfRangeRefused(input: string)
    ensures ParseStamp(input).Some? ==>
      var s := ParseStamp(input).value;
      && 1 <= s.date.year <= 9999 && 1 <= s.date.month <= 12 && 1 <= s.date.day <= 31
      && 0 <= s.hour <= 23 && 0 <= s.minute <= 59 && 0 <= s.second <= 59
  {
    hide SplitFields, ParseI64;
  }

  /** Every second prints to a text that reads back as that second, exactly when its year is
      1..9999; the text of any other second is refused. */
  lemma PrintThenParse(secs: int)
    ensures var year := StampOfUnix(secs).date.year;
      ParseRfc3339(Rfc3339FromUnix(secs)) == if 1 <= year <= 9999 then Some(secs) else None
  {
    StampOfUnixInverse(secs);
    PrintedStampParses(StampOfUnix(secs));
  }

  /** The seconds whose year is 1..9999 form one interval, which holds every moment from the
      epoch to the end of the year 9999. */
  lemma ReadableInterval(secs: int)
    ensures 1 <= StampOfUnix(secs).date.year <= 9999 <==> -62_135_596_800 <= secs <= 253_402_300_799
  {
    ReadableDays(secs / 86_400);
    assert -719_162 <= secs / 86_400 < 2_932_897 <==> -62_135_596_800 <= secs < 253_402_300_800;
  }

  lemma ReadableDays(days: int)
    ensures 1 <= CivilFromDays(days).year <= 9999 <==> -719_162 <= days < 2_932_897
  {
    var date := CivilFromDays(days);
    CivilIsValid(days);
    DaysOfCivil(days);
    DaysInOrder(date, Date(1, 1, 1));
    DaysInOrder(date, Date(10_000, 1, 1));
    YearBounds();
  }

  lemma YearBounds()
    ensures DaysFromCivil(1, 1, 1) == -719_162
    ensures DaysFromCivil(10_000, 1, 1) == 2_932_897
  {
  }

  // ---------- parse then print ----------

  /** `dddd-dd-ddTdd:dd:ddZ` */
  predicate Canonical(s: string) {
    && |s| == 20
    && s[4] == '-' && s[7] == '-' && s[10] == 'T' && s[13] == ':' && s[16] == ':' && s[19] == 'Z'
    && AllDigits(s[..4]) && AllDigits(s[5..7]) && AllDigits(s[8..10])
    && AllDigits(s[11..13]) && AllDigits(s[14..16]) && AllDigits(s[17..19])
  }

  function Slices(s: string): Fields
    requires |s| == 20
  {
    Fields(s[..4], s[5..7], s[8..10], s[11..13], s[14..16], s[17..19])
  }

  lemma CanonicalJoins(s: string)
    requires Canonical(s)
    ensures s == Join(Slices(s))
    ensures SplitFields(s) == Some(Slices(s))
  {
    var f := Slices(s);
    assert f.year + "-" + f.month + "-" == s[..8];
    assert s[..8] + f.day + "T" == s[..11];
    assert s[..11] + f.hour + ":" + f.minute + ":" == s[..17];
    assert s[..17] + f.second + "Z" == s;
    assert s == Join(f);
    SplitJoined(f);
  }

  lemma JoinIsCanonical(f: Fields)
    requires NoDelimiters(f)
    requires |f.year| == 4 && |f.month| == |f.day| == |f.hour| == |f.minute| == |f.second| == 2
    ensures Canonical(Join(f))
  {
  }

  lemma PrintedIsCanonical(s: Stamp)
    requires InRange(s)
    ensures Canonical(Join(PrintFields(s)))
  {
    assert Pow10(1) == 10 && Pow10(2) == 100 && Pow10(3) == 1000 && Pow10(4) == 10_000;
    PrintedFieldsParse(s);
    PaddedLength(s.date.year, 4);
    PaddedLength(s.date.month, 2);
    PaddedLength(s.date.day, 2);
    PaddedLength(s.hour, 2);
    PaddedLength(s.minute, 2);
    PaddedLength(s.second, 2);
    JoinIsCanonical(PrintFields(s));
  }

  lemma PaddedOfDigits(s: string, width: nat)
    requires AllDigits(s) && |s| == width && width > 0
    ensures Padded(DigitsValue(s), width) == s
  {
    DigitsBound(s);
    PaddedParses(DigitsValue(s), width);
    PaddedLength(DigitsValue(s), width);
    SameValueSameDigits(Padded(DigitsValue(s), width), s);
  }

  /** Which accepted texts print back unchanged: the zero-padded ones that name a real date.
      The parser takes more (unpadded fields, signs, 31 February). */
  lemma ParseThenPrint(input: string)
    ensures ParseStamp(input).Some? ==>
      var survives := Rfc3339FromUnix(ParseRfc3339(input).value) == input;
      survives <==> Canonical(input) && ValidDate(ParseStamp(input).value.date)
  {
    if ParseStamp(input).Some? {
      var stamp := ParseStamp(input).value;
      if Rfc3339FromUnix(UnixOfStamp(stamp)) == input {
        UnchangedIsCanonical(input);
      } else if Canonical(input) && ValidDate(stamp.date) {
        CanonicalIsUnchanged(input);
      }
    }
  }

  lemma UnchangedIsCanonical(input: string)
    requires ParseStamp(input).Some?
    requires Rfc3339FromUnix(ParseRfc3339(input).value) == input
    ensures Canonical(input) && ValidDate(ParseStamp(input).value.date)
  {
    var printed := StampOfUnix(ParseRfc3339(input).value);
    StampOfUnixInverse(ParseRfc3339(input).value);
    PrintedStampParses(printed);
    PrintedIsCanonical(printed);
  }

  lemma CanonicalIsUnchanged(input: string)
    requires ParseStamp(input).Some?
    requires Canonical(input) && ValidDate(ParseStamp(input).value.date)
    ensures Rfc3339FromUnix(ParseRfc3339(input).value) == input
  {
    var stamp := ParseStamp(input).value;
    CanonicalJoins(input);
    UnixOfStampInverse(stamp);
    PrintsSlices(Slices(input), stamp);
  }

  lemma PrintsSlices(f: Fields, s: Stamp)
    requires NoDelimiters(f)
    requires |f.year| == 4 && |f.month| == |f.day| == |f.hour| == |f.minute| == |f.second| == 2
    requires ParseI64(f.year) == Some(s.date.year) && ParseI64(f.month) == Some(s.date.month)
    requires ParseI64(f.day) == Some(s.date.day) && ParseI64(f.hour) == Some(s.hour)
    requires ParseI64(f.minute) == Some(s.minute) && ParseI64(f.second) == Some(s.second)
    ensures PrintFields(s) == f
  {
    DigitsParse(f.year);
    DigitsParse(f.month);
    DigitsParse(f.day);
    DigitsParse(f.hour);
    DigitsParse(f.minute);
    DigitsParse(f.second);
  }

  lemma DigitsParse(s: string)
    requires AllDigits(s) && s != [] && ParseI64(s).Some?
    ensures ParseI64(s) == Some(DigitsValue(s))
    ensures Padded(DigitsValue(s), |s|) == s
  {
    assert IsDigit(s[0]);
    PaddedOfDigits(s, |s|);
  }

  // ---------- freshness ----------

  datatype Freshness = Freshness(seconds: int, ageSecs: int, stale: bool)

  function AssessFreshness(lastUpdated: string, now: I64, thresholdSecs: nat): Freshness {
    match ParseRfc3339(lastUpdated)
    case None => Freshness(-1, 0, true)
    case Some(refreshed) =>
      var age := Max(Clamp(now - refreshed, I64_MIN, I64_MAX), 0);
      Freshness(age, age, age > thresholdSecs)
  }

  /** A status the controller stamps (at or after the epoch, before the year 10000) is judged
      by its exact age: stale when older than the threshold, and never when it lies in the
      future. Any clock reading and any threshold. */
  lemma StampedFreshness(stamp: int, now: I64, thresholdSecs: nat)
    requires 0 <= stamp <= 253_402_300_799
    ensures var f := AssessFreshness(Rfc3339FromUnix(stamp), now, thresholdSecs);
      && (f.stale <==> now - stamp > thresholdSecs)
      && (now <= stamp ==> !f.stale)
      && f.seconds == f.ageSecs == Max(0, now - stamp)
  {
    PrintThenParse(stamp);
    ReadableInterval(stamp);
  }

  /** For stamps before the epoch the subtraction may saturate, and then the judgement is off
      exactly when both the clock distance and the threshold lie beyond the 64-bit range. */
  lemma AnyReadableFreshness(stamp: int, now: I64, thresholdSecs: nat)
    requires -62_135_596_800 <= stamp <= 253_402_300_799
    ensures (AssessFreshness(Rfc3339FromUnix(stamp), now, thresholdSecs).stale <==> now - stamp > thresholdSecs)
       <==> !(I64_MAX <= thresholdSecs < now - stamp)
  {
    PrintThenParse(stamp);
    ReadableInterval(stamp);
  }

  /** A text the parser refuses is stale whatever the clock says. */
  lemma UnreadableIsStale(stamp: int, now: I64, thresholdSecs: nat)
    requires stamp < -62_135_596_800 || stamp > 253_402_300_799
    ensures AssessFreshness(Rfc3339FromUnix(stamp), now, thresholdSecs) == Freshness(-1, 0, true)
  {
    PrintThenParse(stamp);
    ReadableInterval(stamp);
  }
}
