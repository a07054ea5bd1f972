/** Day numbers, date checks and the reading of dates written as numbers (binlog/src/my_time.cpp). */
module Calendar {
  import opened Arith
  import opened Temporal

  const DAYS_IN_MONTH: seq<nat> := [31, 28, 31, 30, 31, 30, 31, 31, 30, 31, 30, 31, 0]

  const DAYS_AT_TIMESTART := 719528

  const FUZZY_DATE := 1
  const NO_ZERO_IN_DATE := 16
  const NO_ZERO_DATE := 32
  const INVALID_DATES := 64

  const WARN_TRUNCATED := 1
  const WARN_OUT_OF_RANGE := 2
  const WARN_ZERO_DATE := 8
  const WARN_ZERO_IN_DATE := 32

  const YY_PART_YEAR := 70
  const TIME_MAX_HOUR := 838

  /** `flags & flag` for a single-bit flag. */
  predicate Has(flags: nat, flag: nat)
    requires flag > 0
  {
    flags / flag % 2 == 1
  }

  function CalcDaysInYear(year: nat): nat {
    if year % 4 == 0 && (year % 100 != 0 || (year % 400 == 0 && year != 0)) then 366 else 365
  }

  function CalcDaynr(year: nat, month: nat, day: nat): int {
    if year == 0 && month == 0 then 0
    else
      var delsum := 365 * year + 31 * (month - 1) + day;
      var y := if month <= 2 then year - 1 else year;
      var full := if month <= 2 then delsum else delsum - (month * 4 + 23) / 10;
      full + CDiv(y, 4) - CDiv((CDiv(y, 100) + 1) * 3, 4)
  }

  // ---- the calendar, counted day by day ------------------------------------------------

  function MonthLength(year: nat, month: nat): nat
    requires 1 <= month <= 12
  {
    if month == 2 && CalcDaysInYear(year) == 366 then 29 else DAYS_IN_MONTH[month - 1]
  }

  predicate ValidDate(year: nat, month: nat, day: nat) {
    1 <= month <= 12 && 1 <= day <= MonthLength(year, month)
  }

  function DaysBeforeYear(year: nat): nat {
    if year == 0 then 0 else DaysBeforeYear(year - 1) + CalcDaysInYear(year - 1)
  }

  function DaysBeforeMonth(year: nat, month: nat): nat
    requires 1 <= month <= 13
  {
    if month == 1 then 0 else DaysBeforeMonth(year, month - 1) + MonthLength(year, month - 1)
  }

  /** The rank of a date: how many days there are up to and including it, from 1 January of year 0. */
  function Rank(year: nat, month: nat, day: nat): nat
    requires 1 <= month <= 12
  {
    DaysBeforeYear(year) + DaysBeforeMonth(year, month) + day
  }

  /** Leap days before year y, by the century formula. */
  function LeapTerm(y: int): int {
    CDiv(y, 4) - CDiv((CDiv(y, 100) + 1) * 3, 4)
  }

  lemma DivStep(y: nat, d: nat)
    requires y > 0 && d > 0
    ensures (y - 1) / d == if y % d == 0 then y / d - 1 else y / d
  {
    if y % d == 0 {
      DivModUnique(y - 1, d, y / d - 1, d - 1);
    } else {
      DivModUnique(y - 1, d, y / d, y % d - 1);
    }
  }

  lemma CenturyStep(c: nat)
    requires c > 0
    ensures (c + 1) * 3 / 4 - c * 3 / 4 == if c % 4 == 0 then 0 else 1
  {
    var k, r := c / 4, c % 4;
    if r == 0 {
      DivModUnique((c + 1) * 3, 4, 3 * k, 3);
      DivModUnique(c * 3, 4, 3 * k, 0);
    } else {
      DivModUnique((c + 1) * 3, 4, 3 * k + r, 3 - r);
      DivModUnique(c * 3, 4, 3 * k + r - 1, 4 - r);
    }
  }

  lemma LeapTermGrows(y: nat)
    ensures LeapTerm(y) - LeapTerm(y - 1) == CalcDaysInYear(y) - 365
  {
    if y > 0 {
      var c := y / 100;
      DivStep(y, 4);
      DivStep(y, 100);
      assert LeapTerm(y) == y / 4 - (c + 1) * 3 / 4;
      if y % 100 == 0 {
        CenturyStep(c);
        DivModUnique(y, 400, c / 4, c % 4 * 100);
        DivModUnique(y, 4, 25 * c, 0);
      }
    }
  }

  lemma {:induction false} YearsAddUp(year: nat)
    ensures DaysBeforeYear(year) == 365 * year + LeapTerm(year - 1)
  {
    if year > 0 {
      YearsAddUp(year - 1);
      LeapTermGrows(year - 1);
    }
  }

  lemma MonthsAddUp(year: nat, month: nat)
    requires 1 <= month <= 13
    ensures DaysBeforeMonth(year, month)
         == if month <= 2 then 31 * (month - 1)
            else 31 * (month - 1) - (month * 4 + 23) / 10 + (CalcDaysInYear(year) - 365)
  {
    if month > 1 {
      MonthsAddUp(year, month - 1);
    }
  }

  /** calc_daynr is the rank of the date in the calendar that calc_days_in_year and days_in_month define. */
  lemma DaynrIsRank(year: nat, month: nat, day: nat)
    requires ValidDate(year, month, day)
    ensures CalcDaynr(year, month, day) == Rank(year, month, day)
  {
    hide LeapTerm;
    YearsAddUp(year);
    MonthsAddUp(year, month);
    LeapTermGrows(year);
    DaynrByLeapTerm(year, month, day);
  }

  lemma DaynrByLeapTerm(year: nat, month: nat, day: nat)
    requires month > 0
    ensures CalcDaynr(year, month, day)
         == 365 * year + 31 * (month - 1) + day
            + if month <= 2 then LeapTerm(year - 1) else LeapTerm(year) - (month * 4 + 23) / 10
  {
  }

  /** The day after. */
  function NextDay(year: nat, month: nat, day: nat): (n: (nat, nat, nat))
    requires ValidDate(year, month, day)
    ensures ValidDate(n.0, n.1, n.2)
  {
    if day < MonthLength(year, month) then (year, month, day + 1)
    else if month < 12 then (year, month + 1, 1)
    else (year + 1, 1, 1)
  }

  lemma YearIsItsMonths(year: nat)
    ensures DaysBeforeMonth(year, 13) == CalcDaysInYear(year)
  {
    MonthsAddUp(year, 13);
  }

  lemma NextDayIsOneMore(year: nat, month: nat, day: nat)
    requires ValidDate(year, month, day)
    ensures var n := NextDay(year, month, day);
            CalcDaynr(n.0, n.1, n.2) == CalcDaynr(year, month, day) + 1
  {
    hide CalcDaynr;
    var n := NextDay(year, month, day);
    DaynrIsRank(year, month, day);
    DaynrIsRank(n.0, n.1, n.2);
    if month == 12 && day == MonthLength(year, month) {
      YearIsItsMonths(year);
      assert DaysBeforeMonth(year, 13) == DaysBeforeMonth(year, 12) + MonthLength(year, 12);
    }
  }

  /** Calendar order: by year, then month, then day. */
  predicate DateBefore(y1: nat, m1: nat, d1: nat, y2: nat, m2: nat, d2: nat) {
    y1 < y2 || (y1 == y2 && (m1 < m2 || (m1 == m2 && d1 < d2)))
  }

  lemma {:induction false} YearsGrow(y1: nat, y2: nat)
    requires y1 <= y2
    ensures DaysBeforeYear(y1) <= DaysBeforeYear(y2)
  {
    if y1 < y2 {
      YearsGrow(y1, y2 - 1);
    }
  }

  lemma {:induction false} MonthsGrow(year: nat, m1: nat, m2: nat)
    requires 1 <= m1 <= m2 <= 13
    ensures DaysBeforeMonth(year, m1) <= DaysBeforeMonth(year, m2)
  {
    if m1 < m2 {
      MonthsGrow(year, m1, m2 - 1);
    }
  }

  lemma RankGrows(y1: nat, m1: nat, d1: nat, y2: nat, m2: nat, d2: nat)
    requires ValidDate(y1, m1, d1) && ValidDate(y2, m2, d2)
    requires DateBefore(y1, m1, d1, y2, m2, d2)
    ensures Rank(y1, m1, d1) < Rank(y2, m2, d2)
  {
    assert DaysBeforeMonth(y1, m1 + 1) == DaysBeforeMonth(y1, m1) + MonthLength(y1, m1);
    if y1 < y2 {
      YearsGrow(y1 + 1, y2);
      MonthsGrow(y1, m1 + 1, 13);
      YearIsItsMonths(y1);
    } else if m1 < m2 {
      MonthsGrow(y1, m1 + 1, m2);
    }
  }

  /** Day numbers are ordered as dates are, and equal only for the same date. */
  lemma DaynrOrder(y1: nat, m1: nat, d1: nat, y2: nat, m2: nat, d2: nat)
    requires ValidDate(y1, m1, d1) && ValidDate(y2, m2, d2)
    ensures CalcDaynr(y1, m1, d1) < CalcDaynr(y2, m2, d2) <==> DateBefore(y1, m1, d1, y2, m2, d2)
    ensures CalcDaynr(y1, m1, d1) == CalcDaynr(y2, m2, d2) <==> (y1, m1, d1) == (y2, m2, d2)
  {
    hide CalcDaynr, Rank, ValidDate;
    DaynrIsRank(y1, m1, d1);
    DaynrIsRank(y2, m2, d2);
    if DateBefore(y1, m1, d1, y2, m2, d2) {
      RankGrows(y1, m1, d1, y2, m2, d2);
    } else if DateBefore(y2, m2, d2, y1, m1, d1) {
      RankGrows(y2, m2, d2, y1, m1, d1);
    }
  }

  /** Every positive number is the day number of a date, so with DaynrOrder of exactly one. */
  lemma {:induction false} EveryDayHasItsNumber(n: nat) returns (year: nat, month: nat, day: nat)
    requires n > 0
    ensures ValidDate(year, month, day) && CalcDaynr(year, month, day) == n
  {
    if n == 1 {
      year, month, day := 0, 1, 1;
    } else {
      var y, m, d := EveryDayHasItsNumber(n - 1);
      NextDayIsOneMore(y, m, d);
      var next := NextDay(y, m, d);
      year, month, day := next.0, next.1, next.2;
    }
  }

  /** The constant for 1970-01-01 is that day's number. */
  lemma EpochNumber()
    ensures Rank(1970, 1, 1) == DAYS_AT_TIMESTART
  {
    YearsAddUp(1970);
  }

  // ---- dates written as numbers ----------------------------------------------------------

  /** check_date: a warning code when the date is refused, 0 when it passes. */
  function CheckDate(t: TimeFields, notZeroDate: bool, flags: nat): nat
    requires t.month <= 12
  {
    if notZeroDate then
      if (Has(flags, NO_ZERO_IN_DATE) || !Has(flags, FUZZY_DATE)) && (t.month == 0 || t.day == 0) then
        WARN_ZERO_IN_DATE
      else if !Has(flags, INVALID_DATES) && t.month != 0 && t.day > DAYS_IN_MONTH[t.month - 1]
              && (t.month != 2 || CalcDaysInYear(t.year) != 366 || t.day != 29) then
        WARN_OUT_OF_RANGE
      else 0
    else if Has(flags, NO_ZERO_DATE) then WARN_ZERO_DATE
    else 0
  }

  predicate DatetimeOutOfRange(t: TimeFields) {
    || t.year > 9999 || t.month > 12 || t.day > 31
    || t.minute > 59 || t.second > 59 || t.secondPart > 999999
    || t.hour > (if t.timeType == TIME then TIME_MAX_HOUR else 23)
  }

  function ToUlonglongDatetime(t: TimeFields): nat {
    (t.year * 10000 + t.month * 100 + t.day) * 1000000 + (t.hour * 10000 + t.minute * 100 + t.second)
  }

  /** What number_to_datetime reports: the number it settled on, or -1, the structure and the warning. */
  datatype Reading = Reading(r: int, fields: TimeFields, wasCut: nat)

  function Blank(timeType: TimestampType): TimeFields {
    TimeFields(0, 0, 0, 0, 0, 0, 0, false, timeType)
  }

  /** The decimal digits of nr as YYYYMMDDhhmmss. */
  function Split(nr: nat, timeType: TimestampType): TimeFields {
    var date, time := nr / 1000000, nr % 1000000;
    TimeFields(date / 10000, date % 10000 / 100, date % 100, time / 10000, time % 10000 / 100, time % 100,
               0, false, timeType)
  }

  datatype Window = Refused(timeType: TimestampType) | TooBig | Full(nr: nat, timeType: TimestampType)

  /** Which century and which trailing zeros a short number stands for. */
  function Complete(nr: int, flags: nat): Window {
    if nr == 0 || nr >= 10000101000000 then
      if nr > 99999999999999 then TooBig else Full(nr, DATETIME)
    else if nr < 101 then Refused(DATE)
    else if nr <= 691231 then Full((nr + 20000000) * 1000000, DATE)
    else if nr < 700101 then Refused(DATE)
    else if nr <= 991231 then Full((nr + 19000000) * 1000000, DATE)
    else if nr < 10000101 && !Has(flags, FUZZY_DATE) then Refused(DATE)
    else if nr <= 99991231 then Full(nr * 1000000, DATE)
    else if nr < 101000000 then Refused(DATE)
    else if nr <= 691231235959 then Full(nr + 20000000000000, DATETIME)
    else if nr < 700101000000 then Refused(DATETIME)
    else if nr <= 991231235959 then Full(nr + 19000000000000, DATETIME)
    else Full(nr, DATETIME)
  }

  predicate Accepted(t: TimeFields, notZero: bool, flags: nat) {
    !DatetimeOutOfRange(t) && CheckDate(t, notZero, flags) == 0
  }

  function NumberToDatetime(nr: int, flags: nat): Reading {
    match Complete(nr, flags)
    case TooBig => Reading(-1, Blank(DATETIME), WARN_OUT_OF_RANGE)
    case Refused(kind) => Reading(-1, Blank(kind), WARN_TRUNCATED)
    case Full(full, kind) =>
      var t := Split(full, kind);
      if Accepted(t, full != 0, flags) then Reading(full, t, 0)
      else if full == 0 && Has(flags, NO_ZERO_DATE) then Reading(-1, t, WARN_ZERO_DATE)
      else Reading(-1, t, WARN_TRUNCATED)
  }

  /** Sets the whole structure, as memset and the assignment of the type do. */
  method Clear(timeRes: MysqlTime, timeType: TimestampType)
    modifies timeRes
    ensures timeRes.Fields() == Blank(timeType)
  {
    timeRes.year, timeRes.month, timeRes.day := 0, 0, 0;
    timeRes.hour, timeRes.minute, timeRes.second, timeRes.secondPart := 0, 0, 0, 0;
    timeRes.neg, timeRes.timeType := false, timeType;
  }

  /** The part after the label `ok`: the digits go to the fields and the fields are checked. */
  method FillAndCheck(nr: nat, timeRes: MysqlTime, flags: nat) returns (r: int, wasCut: nat)
    requires nr <= 99999999999999
    requires timeRes.Fields() == Blank(timeRes.timeType)
    modifies timeRes
    ensures var t := Split(nr, old(timeRes.timeType));
            && timeRes.Fields() == t
            && r == (if Accepted(t, nr != 0, flags) then nr else -1)
            && wasCut == (if Accepted(t, nr != 0, flags) then 0
                          else if nr == 0 && Has(flags, NO_ZERO_DATE) then WARN_ZERO_DATE
                          else WARN_TRUNCATED)
  {
    var part1 := nr / 1000000;
    var part2 := nr - part1 * 1000000;
    timeRes.year := part1 / 10000;
    part1 := part1 % 10000;
    timeRes.month := part1 / 100;
    timeRes.day := part1 % 100;
    timeRes.hour := part2 / 10000;
    part2 := part2 % 10000;
    timeRes.minute := part2 / 100;
    timeRes.second := part2 % 100;
    HundredsOfRemainder(nr / 1000000);
    HundredsOfRemainder(nr % 1000000);
    var t := timeRes.Fields();
    wasCut := 0;
    if !DatetimeOutOfRange(t) {
      wasCut := CheckDate(t, nr != 0, flags);
      if wasCut == 0 {
        return nr, wasCut;
      }
    }
    if nr == 0 && Has(flags, NO_ZERO_DATE) {
      return -1, wasCut;
    }
    return -1, WARN_TRUNCATED;
  }

  lemma HundredsOfRemainder(x: nat)
    ensures x % 10000 % 100 == x % 100
  {
  }

  method ReadNumber(nr0: int, timeRes: MysqlTime, flags: nat) returns (r: int, wasCut: nat)
    modifies timeRes
    ensures Reading(r, timeRes.Fields(), wasCut) == NumberToDatetime(nr0, flags)
  {
    hide Split, Accepted, DatetimeOutOfRange, CheckDate;
    var nr := nr0;
    Clear(timeRes, DATE);
    if nr == 0 || nr >= 10000101000000 {
      timeRes.timeType := DATETIME;
      if nr > 99999999999999 {
        return -1, WARN_OUT_OF_RANGE;
      }
    } else if nr < 101 {
      return -1, WARN_TRUNCATED;
    } else if nr <= (YY_PART_YEAR - 1) * 10000 + 1231 {
      nr := (nr + 20000000) * 1000000;
    } else if nr < YY_PART_YEAR * 10000 + 101 {
      return -1, WARN_TRUNCATED;
    } else if nr <= 991231 {
      nr := (nr + 19000000) * 1000000;
    } else if nr < 10000101 && !Has(flags, FUZZY_DATE) {
      return -1, WARN_TRUNCATED;
    } else if nr <= 99991231 {
      nr := nr * 1000000;
    } else if nr < 101000000 {
      return -1, WARN_TRUNCATED;
    } else {
      timeRes.timeType := DATETIME;
      if nr <= (YY_PART_YEAR - 1) * 10000000000 + 1231235959 {
        nr := nr + 20000000000000;
      } else if nr < YY_PART_YEAR * 10000000000 + 101000000 {
        return -1, WARN_TRUNCATED;
      } else if nr <= 991231235959 {
        nr := nr + 19000000000000;
      }
    }
    r, wasCut := FillAndCheck(nr, timeRes, flags);
  }

  /** The fields are the digits of the number. */
  lemma SplitJoins(nr: nat, kind: TimestampType)
    ensures ToUlonglongDatetime(Split(nr, kind)) == nr
  {
    var date, time := nr / 1000000, nr % 1000000;
    HundredsOfRemainder(date);
    HundredsOfRemainder(time);
  }

  predicate TwoDigits(t: TimeFields) {
    t.month < 100 && t.day < 100 && t.hour < 100 && t.minute < 100 && t.second < 100 && t.secondPart == 0 && !t.neg
  }

  lemma ThreeParts(a: nat, b: nat, c: nat)
    requires b < 100 && c < 100
    ensures var x := a * 10000 + b * 100 + c;
            x / 10000 == a && x % 10000 / 100 == b && x % 100 == c
  {
    var x := a * 10000 + b * 100 + c;
    DivModUnique(x, 10000, a, b * 100 + c);
    DivModUnique(b * 100 + c, 100, b, c);
    DivModUnique(x, 100, a * 100 + b, c);
  }

  lemma JoinSplits(t: TimeFields)
    requires TwoDigits(t)
    ensures Split(ToUlonglongDatetime(t), t.timeType) == t
  {
    var date := t.year * 10000 + t.month * 100 + t.day;
    var time := t.hour * 10000 + t.minute * 100 + t.second;
    DivModUnique(ToUlonglongDatetime(t), 1000000, date, time);
    ThreeParts(t.year, t.month, t.day);
    ThreeParts(t.hour, t.minute, t.second);
  }

  /** A reading is normal: its number says what its fields say, the fields pass the checks,
      and reading the number again gives the same number and fields. */
  lemma NumberIsNormal(nr: int, flags: nat)
    requires NumberToDatetime(nr, flags).r != -1
    ensures var first := NumberToDatetime(nr, flags);
            var again := NumberToDatetime(first.r, flags);
            && ToUlonglongDatetime(first.fields) == first.r
            && Accepted(first.fields, first.r != 0, flags)
            && first.wasCut == 0
            && again == Reading(first.r, first.fields.(timeType := DATETIME), 0)
  {
    hide Accepted, ToUlonglongDatetime;
    var full, kind := Complete(nr, flags).nr, Complete(nr, flags).timeType;
    SplitJoins(full, kind);
    CompleteTwice(nr, flags);
    TypeIsFree(full, kind, flags);
  }

  lemma TypeIsFree(full: nat, kind: TimestampType, flags: nat)
    requires kind == DATE || kind == DATETIME
    ensures Split(full, DATETIME) == Split(full, kind).(timeType := DATETIME)
    ensures Split(full, kind) == Split(full, DATETIME).(timeType := kind)
    ensures Accepted(Split(full, kind), full != 0, flags) <==> Accepted(Split(full, DATETIME), full != 0, flags)
  {
  }

  /** A completed number is already complete. */
  lemma CompleteTwice(nr: int, flags: nat)
    requires Complete(nr, flags).Full?
    ensures var c := Complete(nr, flags); Complete(c.nr, flags) == Full(c.nr, DATETIME)
  {
  }

  /** A date and time of day the checks let through under every flag. */
  predicate ValidDatetime(t: TimeFields) {
    && t.year <= 9999 && ValidDate(t.year, t.month, t.day)
    && t.hour <= 23 && t.minute <= 59 && t.second <= 59 && t.secondPart == 0 && !t.neg && t.timeType == DATETIME
  }

  lemma ValidIsAccepted(t: TimeFields, flags: nat)
    requires ValidDatetime(t)
    ensures Accepted(t, true, flags)
  {
  }

  /** The century a year below 100 is moved to. */
  function WindowedYear(year: nat): nat {
    if year < YY_PART_YEAR then year + 2000 else if year < 100 then year + 1900 else year
  }

  /** 29 February of year 0, which is no leap year, is the only day windowing could lose; it is not valid. */
  lemma WindowKeepsDate(year: nat, month: nat, day: nat)
    requires year < 100 && ValidDate(year, month, day)
    ensures ValidDate(WindowedYear(year), month, day)
  {
  }

  lemma DateDigits(t: TimeFields)
    requires ValidDatetime(t)
    ensures var nr := ToUlonglongDatetime(t);
            && t.year * 10000000000 + 101000000 <= nr <= t.year * 10000000000 + 1231235959
  {
  }

  /** Reading the number of a valid datetime gives the datetime back with years below 100 moved to
      1970..2069: so it is the identity exactly for years from 100 on. */
  lemma DatetimeReadsBack(t: TimeFields, flags: nat)
    requires ValidDatetime(t)
    ensures var got := NumberToDatetime(ToUlonglongDatetime(t), flags);
            && got.fields == t.(year := WindowedYear(t.year)) && got.wasCut == 0
            && got.r == ToUlonglongDatetime(got.fields)
            && (got.fields == t <==> t.year >= 100)
  {
    hide Split, Accepted, ToUlonglongDatetime, ValidDatetime;
    var moved := t.(year := WindowedYear(t.year));
    MovedIsValid(t);
    ValidIsAccepted(moved, flags);
    SplitsBack(moved);
    CompletesTo(t, flags);
  }

  lemma SplitsBack(t: TimeFields)
    requires ValidDatetime(t)
    ensures Split(ToUlonglongDatetime(t), DATETIME) == t
  {
    JoinSplits(t);
  }

  lemma MovedIsValid(t: TimeFields)
    requires ValidDatetime(t)
    ensures ValidDatetime(t.(year := WindowedYear(t.year)))
    ensures ToUlonglongDatetime(t.(year := WindowedYear(t.year)))
         == ToUlonglongDatetime(t) + (WindowedYear(t.year) - t.year) * 10000000000
    ensures ToUlonglongDatetime(t.(year := WindowedYear(t.year))) > 0
  {
    if t.year < 100 {
      WindowKeepsDate(t.year, t.month, t.day);
    }
  }

  lemma CompletesTo(t: TimeFields, flags: nat)
    requires ValidDatetime(t)
    ensures Complete(ToUlonglongDatetime(t), flags)
         == Full(ToUlonglongDatetime(t.(year := WindowedYear(t.year))), DATETIME)
  {
    hide ToUlonglongDatetime;
    DateDigits(t);
    MovedIsValid(t);
  }

  /** A date without a time of day, its year in two digits: read as a day of 1970..2069. */
  lemma TwoDigitDate(t: TimeFields, flags: nat)
    requires ValidDatetime(t) && 1970 <= t.year <= 2069 && t.hour == t.minute == t.second == 0
    ensures var got := NumberToDatetime((t.year % 100) * 10000 + t.month * 100 + t.day, flags);
            got == Reading(ToUlonglongDatetime(t), t.(timeType := DATE), 0)
  {
    hide Split, Accepted;
    ValidIsAccepted(t, flags);
    SplitsBack(t);
    var full := ToUlonglongDatetime(t);
    TypeIsFree(full, DATE, flags);
    CompletesDate(t, flags);
  }

  lemma CompletesDate(t: TimeFields, flags: nat)
    requires ValidDatetime(t) && 1970 <= t.year <= 2069 && t.hour == t.minute == t.second == 0
    ensures Complete((t.year % 100) * 10000 + t.month * 100 + t.day, flags) == Full(ToUlonglongDatetime(t), DATE)
  {
    if t.year >= 2000 {
      assert t.year % 100 == t.year - 2000;
    } else {
      assert t.year % 100 == t.year - 1900;
    }
  }

  /** A date in eight digits: read as that day at midnight, under every flag from year 1000 on, and below when dates
      with missing parts are let through. */
  lemma EightDigitDate(t: TimeFields, flags: nat)
    requires ValidDatetime(t) && t.hour == t.minute == t.second == 0
    requires t.year >= 1000 || (flags % 2 == 1 && t.year >= 100)
    ensures NumberToDatetime(t.year * 10000 + t.month * 100 + t.day, flags)
         == Reading(ToUlonglongDatetime(t), t.(timeType := DATE), 0)
  {
    hide Split, Accepted;
    ValidIsAccepted(t, flags);
    SplitsBack(t);
    TypeIsFree(ToUlonglongDatetime(t), DATE, flags);
    LongDateCompletes(t, flags);
  }

  lemma LongDateCompletes(t: TimeFields, flags: nat)
    requires ValidDatetime(t) && t.hour == t.minute == t.second == 0
    requires t.year >= 1000 || (flags % 2 == 1 && t.year >= 100)
    ensures Complete(t.year * 10000 + t.month * 100 + t.day, flags) == Full(ToUlonglongDatetime(t), DATE)
  {
  }

  /** What the checks let through: valid dates; days beyond the end of their month under flag 64; and a month or
      day of zero under flag 1 without flag 16. */
  lemma AcceptedMeans(t: TimeFields, flags: nat)
    ensures var zero, valid := flags % 2 == 1 && flags / 16 % 2 == 0, ValidDate(t.year, t.month, t.day);
            var beyond := flags / 64 % 2 == 1;
            Accepted(t, true, flags) <==>
              && t.year <= 9999 && t.month <= 12 && t.day <= 31
              && t.hour < (if t.timeType == TIME then 839 else 24)
              && t.minute < 60 && t.second < 60 && t.secondPart < 1000000
              && if t.month == 0 || t.day == 0 then zero else valid || beyond
  {
  }

  /** The numbers that stand for no date: those between the forms, and those with more than fourteen digits. */
  lemma NumbersBetween(nr: int, flags: nat)
    ensures nr < 0 || 0 < nr < 101 || 691231 < nr < 700101 || 99991231 < nr < 101000000
            || (991231 < nr < 10000101 && flags % 2 == 0)
            ==> NumberToDatetime(nr, flags) == Reading(-1, Blank(DATE), 1)
    ensures 691231235959 < nr < 700101000000 ==> NumberToDatetime(nr, flags) == Reading(-1, Blank(DATETIME), 1)
    ensures nr > 99999999999999 ==> NumberToDatetime(nr, flags) == Reading(-1, Blank(DATETIME), 2)
  {
  }

  /** The zero date passes unless flag 32 is set. */
  lemma ZeroNumber(flags: nat)
    ensures NumberToDatetime(0, flags)
         == if flags / 32 % 2 == 1 then Reading(-1, Blank(DATETIME), 8) else Reading(0, Blank(DATETIME), 0)
  {
  }

  /** Why a date with fields in range is refused: a zero date, a zero part, or a day its month does not have. */
  lemma WhyRefused(t: TimeFields, notZero: bool, flags: nat)
    requires t.month <= 12
    ensures CheckDate(t, notZero, flags)
         == if !notZero then (if flags / 32 % 2 == 1 then 8 else 0)
            else if (t.month == 0 || t.day == 0) && (flags / 16 % 2 == 1 || flags % 2 == 0) then 32
            else if t.month > 0 && t.day > 0 && !ValidDate(t.year, t.month, t.day) && flags / 64 % 2 == 0 then 2
            else 0
  {
  }

  /** From thirteen digits on, and behind the last form of twelve, a number stands for itself. */
  lemma AsItStands(nr: nat, flags: nat)
    requires 991231235959 < nr <= 99999999999999
    ensures var got := NumberToDatetime(nr, flags);
            && ToUlonglongDatetime(got.fields) == nr && got.fields.timeType == DATETIME
            && (got.r == -1 || got.r == nr)
  {
    SplitJoins(nr, DATETIME);
  }

  /** Every number that is refused is reported as truncated, but for the zero date and numbers that are too long. */
  lemma RefusedAsTruncated(nr: int, flags: nat)
    requires nr != 0 && nr <= 99999999999999 && NumberToDatetime(nr, flags).r == -1
    ensures NumberToDatetime(nr, flags).wasCut == 1
  {
    hide Split, Accepted;
  }

  /** Dates without a month: the day number of the zero date is zero, and month zero is December of the year before. */
  lemma MonthZero(year: nat, day: nat)
    ensures CalcDaynr(0, 0, day) == 0
    ensures CalcDaynr(year + 1, 0, day) == CalcDaynr(year, 12, day)
  {
  }
}
