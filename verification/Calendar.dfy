/** Calendar arithmetic of the clock: days to civil dates, civil dates to Julian day numbers. */
module Calendar {
  import opened Wrappers

  datatype Date = Date(year: nat, month: nat, day: nat)

  // ---------------------------------------------------------------- the Gregorian calendar

  predicate Leap(y: nat) { y % 4 == 0 && (y % 100 != 0 || y % 400 == 0) }

  function MonthLength(y: nat, m: nat): nat {
    if m == 2 then (if Leap(y) then 29 else 28)
    else if m == 4 || m == 6 || m == 9 || m == 11 then 30
    else 31
  }

  predicate Valid(d: Date) { 1 <= d.month <= 12 && 1 <= d.day <= MonthLength(d.year, d.month) }

  /** The day after. */
  function Next(d: Date): Date {
    if d.day < MonthLength(d.year, d.month) then Date(d.year, d.month, d.day + 1)
    else if d.month < 12 then Date(d.year, d.month + 1, 1)
    else Date(d.year + 1, 1, 1)
  }

  /** The date n days after 1970-01-01, one day at a time. */
  function DateOf(n: nat): Date {
    if n == 0 then Date(1970, 1, 1) else Next(DateOf(n - 1))
  }

  // ---------------------------------------------------------------- the code

  /** C division truncates toward zero. */
  function TruncDiv(a: int, b: int): int
    requires b > 0
  {
    if a >= 0 then a / b else -(-a / b)
  }

  function GetJdn(days: nat, months: nat, years: nat): int {
    TruncDiv(1461 * (years + 4800 + TruncDiv(months - 14, 12)), 4) +
    TruncDiv(367 * (months - 2 - 12 * TruncDiv(months - 14, 12)), 12) -
    TruncDiv(3 * TruncDiv(years + 4900 + TruncDiv(months - 14, 12), 100), 4) + days - 32075
  }

  /** The year of the 400-year era, for a day of the era; years start on the first of March. */
  function YearOfEra(doe: nat): int {
    (doe - doe / 1460 + doe / 36524 - doe / 146096) / 365
  }

  /** The first day of year yoe of an era. */
  function YearStart(yoe: int): int { 365 * yoe + yoe / 4 - yoe / 100 }

  /** The first day of month mp of a year that starts in March. */
  function MonthStart(mp: int): int { (153 * mp + 2) / 5 }

  // ---------------------------------------------------------------- a date as a day number

  /** Years from March, and months from March. */
  function MarchYear(d: Date): int { if d.month <= 2 then d.year - 1 else d.year }

  function MarchMonth(d: Date): int { if d.month <= 2 then d.month + 9 else d.month - 3 }

  /** The day within the 400-year era. */
  function DayOfEra(d: Date): int { YearStart(MarchYear(d) % 400) + MonthStart(MarchMonth(d)) + d.day - 1 }

  /** Days since 0000-03-01. */
  function DayNumber(d: Date): int { MarchYear(d) / 400 * 146097 + DayOfEra(d) }

  lemma EraRest(y: int, e: int, r: int)
    requires y == 400 * e + r && 0 <= r < 400
    ensures y / 400 == e && y % 400 == r && y % 100 == r % 100 && y % 4 == r % 4
  {
    assert y == 100 * (4 * e + r / 100) + r % 100;
    assert y == 4 * (100 * e + r / 4) + r % 4;
  }

  lemma YearLength(r: int)
    requires 0 <= r < 399
    ensures YearStart(r + 1) - YearStart(r) == 365 + if (r + 1) % 4 == 0 && (r + 1) % 100 != 0 then 1 else 0
  {
    var q, i := r / 4, r % 4;
    var c, j := r / 100, r % 100;
    assert (r + 1) / 4 == if i == 3 then q + 1 else q;
    assert (r + 1) / 100 == if j == 99 then c + 1 else c;
  }

  /** A year that starts in March is as long as the February at its end makes it. */
  lemma YearStep(y: int)
    requires y >= -1
    ensures (y + 1) / 400 * 146097 + YearStart((y + 1) % 400) ==
            y / 400 * 146097 + YearStart(y % 400) + 337 + MonthLength(y + 1, 2)
  {
    var e, r := y / 400, y % 400;
    if r == 399 {
      EraRest(y + 1, e + 1, 0);
      assert YearStart(399) == 145731 && YearStart(0) == 0;
    } else {
      EraRest(y + 1, e, r + 1);
      YearLength(r);
    }
  }

  lemma MonthStep(y: nat, m: nat)
    requires 1 <= m <= 12 && m != 2
    ensures var mp := if m < 2 then m + 9 else m - 3; MonthStart(mp + 1) == MonthStart(mp) + MonthLength(y, m)
  {
  }

  /** Day numbers count days. */
  lemma NextDay(d: Date)
    requires Valid(d)
    ensures Valid(Next(d)) && DayNumber(Next(d)) == DayNumber(d) + 1
  {
    hide YearStart, MonthStart;
    if d.day == MonthLength(d.year, d.month) {
      if d.month == 2 {
        YearStep(d.year - 1);
        assert MonthStart(0) == 0 && MonthStart(11) == 337 by { FirstAndLast(); }
      } else {
        MonthStep(d.year, d.month);
      }
    }
  }

  lemma FirstAndLast()
    ensures MonthStart(0) == 0 && MonthStart(11) == 337
  {
  }

  /** Months before the given one, in the Julian day formula. */
  lemma JdnMonths(mp: int)
    requires 0 <= mp < 12
    ensures 367 * (mp + 1) / 12 == MonthStart(mp) + 30
  {
  }

  lemma JdnYears(y: int)
    requires y >= -1
    ensures 1461 * (y + 4800) / 4 - 3 * ((y + 4900) / 100) / 4 == y / 400 * 146097 + YearStart(y % 400) + 1753164
  {
    var e, r := y / 400, y % 400;
    JdnLeapDays(y, e, r);
    JdnCenturies(y, e, r);
  }

  lemma JdnLeapDays(y: int, e: int, r: int)
    requires y == 400 * e + r && 0 <= r < 400
    ensures 1461 * (y + 4800) / 4 == 365 * (y + 4800) + 100 * e + 1200 + r / 4
  {
    assert 1461 * (y + 4800) == 4 * (365 * (y + 4800) + 100 * e + 1200 + r / 4) + r % 4;
  }

  lemma JdnCenturies(y: int, e: int, r: int)
    requires y == 400 * e + r && 0 <= r < 400
    ensures 3 * ((y + 4900) / 100) / 4 == 3 * e + 36 + r / 100
  {
    var c := r / 100;
    assert y + 4900 == 100 * (4 * e + 49 + c) + r % 100;
    assert 3 * (4 * e + 49 + c) == 4 * (3 * e + 36 + c) + (3 - c);
  }

  /** The Julian day formula counts days too. */
  lemma JdnIs(d: Date)
    requires Valid(d)
    ensures GetJdn(d.day, d.month, d.year) == DayNumber(d) + 1721120
  {
    hide YearStart, MonthStart;
    var y, mp := MarchYear(d), MarchMonth(d);
    JdnMonths(mp);
    JdnYears(y);
    assert TruncDiv(d.month - 14, 12) == if d.month <= 2 then -1 else 0;
  }

  /** The Julian day of the next day is the next Julian day. */
  lemma JdnCountsDays(d: Date)
    requires Valid(d)
    ensures GetJdn(Next(d).day, Next(d).month, Next(d).year) == GetJdn(d.day, d.month, d.year) + 1
  {
    NextDay(d);
    JdnIs(d);
    JdnIs(Next(d));
  }

  // ---------------------------------------------------------------- from days to dates

  /** The day within a year that starts in March. */
  function DayOfYear(d: Date): int { MonthStart(MarchMonth(d)) + d.day - 1 }

  lemma DayOfYearRange(d: Date)
    requires Valid(d)
    ensures 0 <= DayOfYear(d) < 337 + MonthLength(MarchYear(d) + 1, 2)
    ensures (5 * DayOfYear(d) + 2) / 153 == MarchMonth(d)
  {
  }

  /** The year is found from the day of the era. */
  lemma YearFound(y: int, doy: int)
    requires 0 <= y < 400 && 0 <= doy <= 365 && (doy == 365 ==> (y + 1) % 4 == 0 && ((y + 1) % 100 != 0 || y == 399))
    ensures 0 <= YearStart(y) + doy < 146097 && YearOfEra(YearStart(y) + doy) == y
  {
    var c, q, i := y / 100, y % 100 / 4, y % 4;
    var doe := YearStart(y) + doy;
    assert y == 100 * c + 4 * q + i && y / 4 == 25 * c + q && 0 <= c < 4 && 0 <= q < 25 && 0 <= i < 4;
    FourYearCycles(c, q, i, doy);
    Centuries(c, q, i, doy);
  }

  lemma FourYearCycles(c: int, q: int, i: int, doy: int)
    requires 0 <= c < 4 && 0 <= q < 25 && 0 <= i < 4 && 0 <= doy <= 365
    ensures var doe := 36524 * c + 1461 * q + 365 * i + doy;
            doe / 1460 == 25 * c + q + if 24 * c + q + 365 * i + doy >= 1460 then 1 else 0
  {
  }

  lemma Centuries(c: int, q: int, i: int, doy: int)
    requires 0 <= c < 4 && 0 <= q < 25 && 0 <= i < 4 && 0 <= doy <= 365
    requires doy == 365 ==> i == 3 && (q < 24 || c == 3)
    ensures var doe := 36524 * c + 1461 * q + 365 * i + doy;
            0 <= doe < 146097 && doe / 36524 - doe / 146096 == c
  {
  }

  lemma MarchYearLeap(d: Date)
    requires Valid(d)
    ensures var y := MarchYear(d) % 400;
            DayOfYear(d) == 365 ==> (y + 1) % 4 == 0 && ((y + 1) % 100 != 0 || y == 399)
  {
    DayOfYearRange(d);
    hide DayOfYear;
    var y, e, r := MarchYear(d), MarchYear(d) / 400, MarchYear(d) % 400;
    if r < 399 { EraRest(y + 1, e, r + 1); }
  }

  /** The steps of the civil-from-days algorithm find year, month and day of a date from its day number. */
  lemma CivilSteps(d: Date, z: int)
    requires Valid(d) && DayNumber(d) == z
    ensures z / 146097 == MarchYear(d) / 400 && z % 146097 == DayOfEra(d) && 0 <= DayOfEra(d) < 146097
    ensures YearOfEra(DayOfEra(d)) == MarchYear(d) % 400
    ensures DayOfEra(d) - YearStart(MarchYear(d) % 400) == DayOfYear(d)
    ensures (5 * DayOfYear(d) + 2) / 153 == MarchMonth(d)
    ensures DayOfYear(d) - MonthStart(MarchMonth(d)) + 1 == d.day
  {
    hide YearStart, YearOfEra;
    DayOfYearRange(d);
    MarchYearLeap(d);
    YearFound(MarchYear(d) % 400, DayOfYear(d));
  }

  /** Different dates have different day numbers. */
  lemma DayNumberUnique(c: Date, d: Date)
    requires Valid(c) && Valid(d) && DayNumber(c) == DayNumber(d)
    ensures c == d
  {
    hide YearStart, YearOfEra, MonthStart;
    CivilSteps(c, DayNumber(c));
    CivilSteps(d, DayNumber(d));
    assert MarchYear(c) == MarchYear(d) && MarchMonth(c) == MarchMonth(d);
  }

  /** Stepping day by day passes every date at its day number. */
  lemma {:induction false} DateOfDay(n: nat)
    ensures Valid(DateOf(n)) && DayNumber(DateOf(n)) == n + 719468
  {
    if n > 0 {
      DateOfDay(n - 1);
      NextDay(DateOf(n - 1));
    }
  }

  /** The two algorithms are inverse to each other: the Julian day formula takes the n-th date back to n. */
  lemma JdnOfDateOf(n: nat)
    ensures GetJdn(DateOf(n).day, DateOf(n).month, DateOf(n).year) == n + GetJdn(1, 1, 1970)
  {
    DateOfDay(n);
    JdnIs(DateOf(n));
    JdnIs(Date(1970, 1, 1));
    EpochDay();
  }

  /** The ranges that the comments of the algorithm give for its intermediate values hold for every day. */
  lemma Ranges(n: nat)
    ensures var doe := (n + 719468) % 146097;
            var yoe := YearOfEra(doe);
            var doy := doe - YearStart(yoe);
            var mp := (5 * doy + 2) / 153;
            && 0 <= doe <= 146096 && 0 <= yoe <= 399 && 0 <= doy <= 365 && 0 <= mp <= 11
            && 1 <= doy - MonthStart(mp) + 1 <= 31 && 1 <= (if mp < 10 then mp + 3 else mp - 9) <= 12
  {
    DateOfDay(n);
    CivilSteps(DateOf(n), n + 719468);
    DayOfYearRange(DateOf(n));
  }

  lemma DayNumberLinear(d: Date)
    requires Valid(d)
    ensures var y := MarchYear(d); DayNumber(d) == 365 * y + y / 4 - y / 100 + y / 400 + DayOfYear(d)
  {
    var y := MarchYear(d);
    var e, r := y / 400, y % 400;
    assert y / 4 == 100 * e + r / 4 && y / 100 == 4 * e + r / 100;
  }

  lemma EpochDay()
    ensures DayNumber(Date(1970, 1, 1)) == 719468
  {
    assert 1969 / 400 == 4 && 1969 % 400 == 369;
    assert YearStart(369) == 134774 && MonthStart(10) == 306;
  }

  /** Day numbers grow with the year. */
  lemma DayNumberBounds(d: Date)
    requires Valid(d)
    ensures DayNumber(d) >= 719468 <==> d.year >= 1970
    ensures 365 * d.year - 366 <= DayNumber(d) <= 366 * d.year + 366
  {
    DayNumberLinear(d);
    DayOfYearRange(d);
    hide DayNumber, Valid;
    YearTotal(MarchYear(d), d.year);
  }

  lemma YearTotal(m: int, y: nat)
    requires m == y || m == y - 1
    ensures var t := 365 * m + m / 4 - m / 100 + m / 400;
            && (m < 1969 ==> t <= 718797) && (m == 1969 ==> t == 719162) && (m > 1969 ==> t >= 719527)
            && 365 * y - 366 <= t <= 366 * y
  {
  }

  /** The dates from 1970 on are the ones that stepping reaches. */
  lemma EpochSplits(d: Date)
    requires Valid(d)
    ensures DayNumber(d) >= 719468 <==> d.year >= 1970
    ensures d.year >= 1970 ==> DateOf(DayNumber(d) - 719468) == d
  {
    DayNumberBounds(d);
    if d.year >= 1970 {
      hide DayNumber;
      DateOfDay(DayNumber(d) - 719468);
      DayNumberUnique(d, DateOf(DayNumber(d) - 719468));
    }
  }

  // ---------------------------------------------------------------- milliseconds to clock fields

  /** What ms_to_iso8601 prints. */
  datatype Stamp = Stamp(date: Date, hour: nat, minute: nat, second: nat, milli: nat)

  /** Conversion to uint32_t. */
  function U32(x: int): nat { x % 0x1_0000_0000 }

  lemma U32Fits(x: int)
    ensures 0 <= x < 0x1_0000_0000 ==> U32(x) == x
  {
  }

  /** Adding -9 on unsigned words. */
  lemma MonthFits(mp: nat)
    requires mp < 12
    ensures U32(mp + if mp < 10 then 3 else 0xffff_fff7) == if mp < 10 then mp + 3 else mp - 9
  {
  }

  /** The days, and the time of day, of a millisecond count. */
  predicate Splits(ms: nat, days: nat, t: Stamp) {
    t.hour < 24 && t.minute < 60 && t.second < 60 && t.milli < 1000 &&
    ms == (((days * 24 + t.hour) * 60 + t.minute) * 60 + t.second) * 1000 + t.milli
  }

  /** CivilSteps for the date that stepping reaches, and its ranges. */
  lemma CivilGoal(n: nat)
    ensures var z := n + 719468;
            var d := DateOf(n);
            && z / 146097 == MarchYear(d) / 400 && z % 146097 == DayOfEra(d)
            && YearOfEra(DayOfEra(d)) == MarchYear(d) % 400
            && DayOfEra(d) - YearStart(MarchYear(d) % 400) == DayOfYear(d) && 0 <= DayOfYear(d) <= 365
            && (5 * DayOfYear(d) + 2) / 153 == MarchMonth(d)
            && DayOfYear(d) - MonthStart(MarchMonth(d)) + 1 == d.day <= 31 && 1 <= d.month <= 12
  {
    DateOfDay(n);
    CivilSteps(DateOf(n), n + 719468);
    DayOfYearRange(DateOf(n));
  }

  lemma EraSplits(days: nat)
    requires days <= 213504701803
    ensures days - days / 146097 * 146097 == days % 146097 && days / 146097 < 1500000
  {
  }

  /** The civil date of a day count, with the fixed widths of the code: the date that day-by-day stepping reaches. */
  method CivilFromDays(n: nat) returns (d: Date)
    requires n <= 0xffff_ffff_ffff_ffff / 86400000
    ensures d == DateOf(n)
  {
    hide DateOf, DayNumber, DayOfEra, DayOfYear, YearStart, YearOfEra, MonthStart, U32, Valid, MonthLength;
    ghost var goal := DateOf(n);
    CivilGoal(n);
    var days := n + 719468;
    var era := days / 146097;
    EraSplits(days);
    U32Fits(days - era * 146097);
    var doe := U32(days - era * 146097);
    assert doe == DayOfEra(goal);
    U32Fits(YearOfEra(doe));
    var yoe := U32(YearOfEra(doe));
    assert yoe == MarchYear(goal) % 400 && era == MarchYear(goal) / 400 && era < 1500000;
    U32Fits(yoe + era * 400);
    var y := U32(yoe + era * 400);
    assert y == MarchYear(goal);
    U32Fits(doe - YearStart(yoe));
    var doy := U32(doe - YearStart(yoe));
    assert doy == DayOfYear(goal) <= 365;
    U32Fits(5 * doy + 2);
    var mp := U32(5 * doy + 2) / 153;
    assert mp == MarchMonth(goal);
    U32Fits(doy - MonthStart(mp) + 1);
    var day := U32(doy - MonthStart(mp) + 1);
    MonthFits(mp);
    var mon := U32(mp + if mp < 10 then 3 else 0xffff_fff7);
    U32Fits(y + 1);
    y := U32(y + if mon <= 2 then 1 else 0);
    d := Date(y, mon, day);
  }

  lemma TimeSplits(ms: nat)
    ensures var s := ms / 1000;
            var days := s / 60 / 60 / 24;
            && days == ms / 86400000
            && ms == (((days * 24 + s / 60 / 60 % 24) * 60 + s / 60 % 60) * 60 + s % 60) * 1000 + ms % 1000
  {
    var s, m := ms / 1000, ms / 1000 / 60;
    var h, d := m / 60, m / 60 / 24;
    assert ms == 86400000 * d + 3600000 * (h % 24) + 60000 * (m % 60) + 1000 * (s % 60) + ms % 1000;
  }

  method MsToFields(msEpoch: nat) returns (t: Stamp)
    requires msEpoch <= 0xffff_ffff_ffff_ffff
    ensures t.date == DateOf(msEpoch / 86400000) && Splits(msEpoch, msEpoch / 86400000, t)
  {
    hide U32;
    TimeSplits(msEpoch);
    U32Fits(msEpoch % 1000);
    var ms := U32(msEpoch % 1000);
    var secs := msEpoch / 1000;
    U32Fits(secs % 60);
    var sec := U32(secs % 60);
    secs := secs / 60;
    U32Fits(secs % 60);
    var min := U32(secs % 60);
    secs := secs / 60;
    U32Fits(secs % 24);
    var hr := U32(secs % 24);
    secs := secs / 24;
    var d := CivilFromDays(secs);
    t := Stamp(d, hr, min, sec, ms);
  }

  // ---------------------------------------------------------------- clock fields to seconds

  predicate IsInt(x: int) { -0x8000_0000 <= x < 0x8000_0000 }

  /** Every step of the Julian day formula, in the order of the code, is an int for all register values. */
  lemma JdnFitsInt(days: nat, months: nat, years: nat)
    requires days < 256 && months < 256 && years < 0x1_0000
    ensures var t := TruncDiv(months - 14, 12);
            var x, y, z := 1461 * (years + 4800 + t), 367 * (months - 2 - 12 * t), TruncDiv(years + 4900 + t, 100);
            var sum := TruncDiv(x, 4) + TruncDiv(y, 12);
            var rest := sum - TruncDiv(3 * z, 4);
            && IsInt(months - 14) && IsInt(t) && IsInt(12 * t) && IsInt(months - 2 - 12 * t)
            && IsInt(years + 4800 + t) && IsInt(x) && IsInt(y) && IsInt(years + 4900 + t) && IsInt(z) && IsInt(3 * z)
            && IsInt(sum) && IsInt(rest) && IsInt(rest + days)
            && rest + days - 32075 == GetJdn(days, months, years) && 0 <= rest + days - 32075 < 0x8000_0000
  {
    var t := TruncDiv(months - 14, 12);
    assert -1 <= t <= 20;
    TruncBounds(1461 * (years + 4800 + t), 4);
    TruncBounds(367 * (months - 2 - 12 * t), 12);
    TruncBounds(years + 4900 + t, 100);
    TruncBounds(3 * TruncDiv(years + 4900 + t, 100), 4);
    hide TruncDiv;
  }

  lemma TruncBounds(a: int, b: int)
    requires b > 0
    ensures if a >= 0 then 0 <= a - b * TruncDiv(a, b) < b else -b < a - b * TruncDiv(a, b) <= 0
  {
  }

  /** Seconds since 1970, on 64-bit unsigned words. */
  function GetUnixEpoch(seconds: nat, minutes: nat, hours: nat, days: nat, months: nat, years: nat): nat {
    var current := GetJdn(days, months, years) % U64;
    var jdn1970 := GetJdn(1, 1, 1970) % U64;
    var diff := (current - jdn1970) % U64;
    (diff * 86400 + hours * 3600 + minutes * 60 + seconds) % U64
  }

  /** The seconds before or after 1970 of a date and time; negative before 1970. */
  function SecondsOf(t: Stamp): int {
    (DayNumber(t.date) - 719468) * 86400 + t.hour * 3600 + t.minute * 60 + t.second
  }

  /** A date and time as the clock registers hold it. */
  predicate ClockTime(t: Stamp) {
    Valid(t.date) && t.date.year < 0x1_0000 && t.hour < 24 && t.minute < 60 && t.second < 60 && t.milli == 0
  }

  lemma EpochIs(t: Stamp)
    requires ClockTime(t)
    ensures GetUnixEpoch(t.second, t.minute, t.hour, t.date.day, t.date.month, t.date.year) == SecondsOf(t) % U64
    ensures -0x10_0000_0000 < SecondsOf(t) < 0x1000_0000_0000
    ensures SecondsOf(t) >= 0 <==> t.date.year >= 1970
  {
    hide GetUnixEpoch, GetJdn, DayNumber, Valid;
    var d := t.date;
    ClockDay(t);
    EpochOf(t.hour * 3600 + t.minute * 60 + t.second, t.second, t.minute, t.hour, d.day, d.month, d.year);
  }

  lemma ClockDay(t: Stamp)
    requires ClockTime(t)
    ensures GetJdn(t.date.day, t.date.month, t.date.year) - 2440588 == DayNumber(t.date) - 719468
    ensures DayNumber(t.date) >= 719468 <==> t.date.year >= 1970
    ensures -366 <= DayNumber(t.date) <= 24000000
    ensures t.date.day < 256 && t.date.month < 256
  {
    JdnIs(t.date);
    DayNumberBounds(t.date);
  }

  lemma Jdn1970()
    ensures GetJdn(1, 1, 1970) == 2440588
  {
    JdnIs(Date(1970, 1, 1));
    EpochDay();
  }

  /** The seconds, whether or not the date exists. */
  lemma EpochOf(time: nat, seconds: nat, minutes: nat, hours: nat, days: nat, months: nat, years: nat)
    requires time == hours * 3600 + minutes * 60 + seconds && time < 86400
    requires days < 256 && months < 256 && years < 0x1_0000
    ensures GetUnixEpoch(seconds, minutes, hours, days, months, years) ==
            ((GetJdn(days, months, years) - 2440588) * 86400 + time) % U64
  {
    hide GetJdn;
    JdnFitsInt(days, months, years);
    Jdn1970();
    WrapsOut(GetJdn(days, months, years), 2440588, time);
  }

  /** The Julian day formula goes on linearly past the end of a month. */
  lemma EarlyYears(days: nat, months: nat, years: nat)
    requires 1 <= days <= 31 && 1 <= months <= 12 && years < 1000
    ensures -0xB_0000 < GetJdn(days, months, years) - 2440588 < 0
  {
    JdnIs(Date(years, months, 1));
    DayNumberBounds(Date(years, months, 1));
    hide DayNumber;
    assert GetJdn(days, months, years) == GetJdn(1, months, years) + days - 1;
  }

  /** Unsigned wrap-around does not matter until the end. */
  lemma WrapsOut(a: int, b: int, s: nat)
    requires 0 <= a < 0x8000_0000 && 0 <= b < 0x8000_0000 && s < 86400
    ensures var diff := (a % U64 - b % U64) % U64;
            (diff * 86400 + s) % U64 == ((a - b) * 86400 + s) % U64
  {
    FitsWord(a);
    FitsWord(b);
    if a < b {
      AddWords(a - b, 1);
      FitsWord(a - b + U64);
      AddWords((a - b) * 86400 + s, 86400);
    } else {
      FitsWord(a - b);
    }
  }

  /** The registers' date and time through seconds and back: the same for every date from 1970 on, and for none
      before. */
  method FormattedFields(t: Stamp) returns (r: Stamp)
    requires ClockTime(t)
    ensures r == t <==> t.date.year >= 1970
  {
    var secs := GetUnixEpoch(t.second, t.minute, t.hour, t.date.day, t.date.month, t.date.year);
    r := MsToFields(secs * 1000 % U64);
    EpochIs(t);
    FieldsReturn(t, r, secs * 1000 % U64);
  }

  lemma FieldsReturn(t: Stamp, r: Stamp, ms: nat)
    requires ClockTime(t) && ms == SecondsOf(t) % U64 * 1000 % U64
    requires r.date == DateOf(ms / 86400000) && Splits(ms, ms / 86400000, r)
    ensures r == t <==> t.date.year >= 1970
  {
    EpochIs(t);
    EpochSplits(t.date);
    hide GetUnixEpoch, DayNumber;
    if t.date.year >= 1970 {
      FitsWord(SecondsOf(t));
      FitsWord(SecondsOf(t) * 1000);
      AfterEpoch(DayNumber(t.date) - 719468, t, ms);
    } else {
      BeforeEpoch(SecondsOf(t), ms);
      DateOfDay(ms / 86400000);
      DayNumberBounds(r.date);
    }
  }

  lemma AfterEpoch(days: nat, t: Stamp, ms: nat)
    requires t.hour < 24 && t.minute < 60 && t.second < 60 && t.milli == 0
    requires ms == (days * 86400 + t.hour * 3600 + t.minute * 60 + t.second) * 1000
    ensures ms / 86400000 == days && forall r: Stamp | Splits(ms, days, r) && r.date == t.date :: r == t
  {
  }

  lemma BeforeEpoch(secs: int, ms: nat)
    requires -0x10_0000_0000 < secs < 0 && ms == secs % U64 * 1000 % U64
    ensures ms / 86400000 > 0x1_0000_0000
  {
    AddWords(secs, 1);
    FitsWord(secs + U64);
    AddWords(secs * 1000, 1000);
    AddWords(secs * 1000, 1);
    FitsWord(secs * 1000 + U64);
  }
}
