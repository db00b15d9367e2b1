/**
 * Julian dates of the satellite module: an instant is a number of days since
 * the POSIX epoch and the milliseconds into that day, both `uint32_t`, with
 * the time system it was given in.  Times (`ns3::Time`) are signed numbers
 * of nanoseconds.  The IERS tables (leap seconds and Earth orientation
 * parameters) are an input.
 */
module JulianDates {
  import opened Outcomes
  import opened MachineInts

  datatype TimeSystem = UTC | UT1 | TAI | TT | GPST | POSIX

  const POSIX_YEAR: int := 1970
  const MIN_YEAR: int := 1992
  const MAX_YEAR: int := 2099
  const POSIX_1992: int := 8035
  const HOUR_TO_MS: int := 3600000
  const DAY_TO_MS: int := 86400000
  const TT_TO_TAI_MS: int := 32184
  const TAI_TO_GPS_MS: int := 19000
  const NS_PER_MS: int := 1000000
  const NS_PER_DAY: int := 86400000000000
  const POSIX_EPOCH: real := 2440587.5
  /** `static_cast<uint32_t>(PosixEpoch - 1721013.5)`: the POSIX epoch in the day count of the date formula. */
  const EPOCH_OFFSET_DAYS: int := 719574

  /** The fields of a JulianDate. */
  datatype JD = JD(days: int, msDay: int, scale: TimeSystem)

  /** Both fields fit their `uint32_t` and the milliseconds are within one day. */
  predicate Normal(x: JD)
  {
    IsU32(x.days) && 0 <= x.msDay < DAY_TO_MS
  }

  /** The instant as milliseconds since the POSIX epoch. */
  function TotalMs(x: JD): int
  {
    x.days * DAY_TO_MS + x.msDay
  }

  /** `Time::GetMilliSeconds`: nanoseconds to milliseconds, truncated toward zero. */
  function GetMilliSeconds(t: int): int
  {
    TruncDiv(t, NS_PER_MS)
  }

  /** `static_cast<uint32_t>(t.GetDays())` of a non-negative time. */
  function WholeDays(t: int): int
    requires t >= 0
  {
    U32(t / NS_PER_DAY)
  }

  /** JulianDate::operator+ for a non-negative time. */
  function AddNonNegative(x: JD, t: int): (r: JD)
    requires t >= 0
    ensures IsU32(r.days) && 0 <= r.msDay < DAY_TO_MS && r.scale == x.scale
  {
    var tMs := GetMilliSeconds(t) % DAY_TO_MS;
    var ms := U32(tMs + x.msDay);
    var days := U32(WholeDays(t) + x.days + ms / DAY_TO_MS);
    JD(days, ms % DAY_TO_MS, x.scale)
  }

  /** JulianDate::operator- for a non-negative time: a borrow of one day when the milliseconds do not suffice. */
  function SubNonNegative(x: JD, t: int): (r: JD)
    requires t >= 0
    ensures IsU32(r.days) && r.scale == x.scale
    ensures 0 <= x.msDay < DAY_TO_MS ==> 0 <= r.msDay < DAY_TO_MS
  {
    var tDays := WholeDays(t);
    var tMs := GetMilliSeconds(t) % DAY_TO_MS;
    if tMs > x.msDay then JD(U32(x.days - U32(tDays + 1)), DAY_TO_MS - (tMs - x.msDay), x.scale)
    else JD(U32(x.days - tDays), x.msDay - tMs, x.scale)
  }

  /** JulianDate::operator+: a negative time subtracts its whole milliseconds. */
  function Add(x: JD, t: int): JD
  {
    if t < 0 then SubNonNegative(x, -GetMilliSeconds(t) * NS_PER_MS) else AddNonNegative(x, t)
  }

  /** JulianDate::operator- (Time): a negative time adds its whole milliseconds. */
  function Sub(x: JD, t: int): JD
  {
    if t < 0 then AddNonNegative(x, -GetMilliSeconds(t) * NS_PER_MS) else SubNonNegative(x, t)
  }

  /** A negative time given to operator+ is subtracted; one given to operator- is added. */
  lemma NegativeTimesSwapOperators(x: JD, t: int)
    requires t < 0
    ensures Add(x, t) == Sub(x, -GetMilliSeconds(t) * NS_PER_MS)
    ensures Sub(x, t) == Add(x, -GetMilliSeconds(t) * NS_PER_MS)
  {
  }

  /** JulianDate::operator- (JulianDate): the difference in nanoseconds. */
  function Diff(a: JD, b: JD): int
  {
    (a.days * NS_PER_DAY + a.msDay * NS_PER_MS) - (b.days * NS_PER_DAY + b.msDay * NS_PER_MS)
  }

  lemma DaysOfTime(t: int)
    requires t >= 0
    ensures t / NS_PER_DAY == GetMilliSeconds(t) / DAY_TO_MS
    ensures GetMilliSeconds(t) == (t / NS_PER_DAY) * DAY_TO_MS + GetMilliSeconds(t) % DAY_TO_MS
  {
    var ms := t / NS_PER_MS;
    var q := ms / DAY_TO_MS;
    var r := ms % DAY_TO_MS;
    assert t == ms * NS_PER_MS + t % NS_PER_MS;
    assert ms == q * DAY_TO_MS + r;
    assert t == q * NS_PER_DAY + (r * NS_PER_MS + t % NS_PER_MS);
    assert 0 <= r * NS_PER_MS + t % NS_PER_MS < NS_PER_DAY;
  }

  /** Adding a time moves the instant by its whole milliseconds, as long as the day count does not wrap. */
  lemma {:induction false} AddNonNegativeTotal(x: JD, t: int)
    requires Normal(x) && t >= 0
    requires TotalMs(x) + GetMilliSeconds(t) < TWO_32 * DAY_TO_MS
    ensures Normal(AddNonNegative(x, t)) && AddNonNegative(x, t).scale == x.scale
    ensures TotalMs(AddNonNegative(x, t)) == TotalMs(x) + GetMilliSeconds(t)
  {
    DaysOfTime(t);
    var tMs := GetMilliSeconds(t) % DAY_TO_MS;
    var ms := tMs + x.msDay;
    assert IsU32(ms);
    assert IsU32(t / NS_PER_DAY);
    assert ms == (ms / DAY_TO_MS) * DAY_TO_MS + ms % DAY_TO_MS;
    var days := t / NS_PER_DAY + x.days + ms / DAY_TO_MS;
    assert days * DAY_TO_MS + ms % DAY_TO_MS == TotalMs(x) + GetMilliSeconds(t);
    assert IsU32(days);
  }

  /** Subtracting a time moves the instant back by its whole milliseconds, as long as it stays after the epoch. */
  lemma {:induction false} SubNonNegativeTotal(x: JD, t: int)
    requires Normal(x) && t >= 0
    requires GetMilliSeconds(t) <= TotalMs(x)
    ensures Normal(SubNonNegative(x, t)) && SubNonNegative(x, t).scale == x.scale
    ensures TotalMs(SubNonNegative(x, t)) == TotalMs(x) - GetMilliSeconds(t)
  {
    DaysOfTime(t);
    var tDays := t / NS_PER_DAY;
    assert tDays <= x.days;
    assert IsU32(tDays);
    var tMs := GetMilliSeconds(t) % DAY_TO_MS;
    if tMs > x.msDay {
      assert tDays + 1 <= x.days;
      assert IsU32(tDays + 1);
    }
  }

  /** Milliseconds of a time, whatever its sign, as `MilliSeconds (-t.GetMilliSeconds ())` turns them back into a time. */
  lemma NegatedMilliSeconds(t: int)
    requires t < 0
    ensures -GetMilliSeconds(t) * NS_PER_MS >= 0
    ensures GetMilliSeconds(-GetMilliSeconds(t) * NS_PER_MS) == -GetMilliSeconds(t)
  {
  }

  /** operator+ moves the instant by the time's milliseconds, truncated toward zero, in either direction. */
  lemma AddTotal(x: JD, t: int)
    requires Normal(x)
    requires 0 <= TotalMs(x) + GetMilliSeconds(t) < TWO_32 * DAY_TO_MS
    ensures Normal(Add(x, t)) && Add(x, t).scale == x.scale
    ensures TotalMs(Add(x, t)) == TotalMs(x) + GetMilliSeconds(t)
  {
    if t < 0 {
      NegatedMilliSeconds(t);
      SubNonNegativeTotal(x, -GetMilliSeconds(t) * NS_PER_MS);
    } else {
      AddNonNegativeTotal(x, t);
    }
  }

  /** operator- moves the instant back by the time's milliseconds, truncated toward zero, in either direction. */
  lemma SubTotal(x: JD, t: int)
    requires Normal(x)
    requires 0 <= TotalMs(x) - GetMilliSeconds(t) < TWO_32 * DAY_TO_MS
    ensures Normal(Sub(x, t)) && Sub(x, t).scale == x.scale
    ensures TotalMs(Sub(x, t)) == TotalMs(x) - GetMilliSeconds(t)
  {
    if t < 0 {
      NegatedMilliSeconds(t);
      AddNonNegativeTotal(x, -GetMilliSeconds(t) * NS_PER_MS);
    } else {
      SubNonNegativeTotal(x, t);
    }
  }

  /** A normal date is determined by its milliseconds since the epoch. */
  lemma TotalMsInjective(a: JD, b: JD)
    requires Normal(a) && Normal(b) && TotalMs(a) == TotalMs(b)
    ensures a.days == b.days && a.msDay == b.msDay
  {
  }

  /** Adding and then subtracting the same time gives back the date. */
  lemma SubAfterAdd(x: JD, t: int)
    requires Normal(x)
    requires 0 <= TotalMs(x) + GetMilliSeconds(t) < TWO_32 * DAY_TO_MS
    ensures Sub(Add(x, t), t) == x
  {
    AddTotal(x, t);
    SubTotal(Add(x, t), t);
    TotalMsInjective(Sub(Add(x, t), t), x);
  }

  /** Subtracting and then adding the same time gives back the date. */
  lemma AddAfterSub(x: JD, t: int)
    requires Normal(x)
    requires 0 <= TotalMs(x) - GetMilliSeconds(t) < TWO_32 * DAY_TO_MS
    ensures Add(Sub(x, t), t) == x
  {
    SubTotal(x, t);
    AddTotal(Sub(x, t), t);
    TotalMsInjective(Add(Sub(x, t), t), x);
  }

  /** The difference of two dates is their distance in milliseconds, as nanoseconds. */
  lemma DiffOfAdd(x: JD, t: int)
    requires Normal(x)
    requires 0 <= TotalMs(x) + GetMilliSeconds(t) < TWO_32 * DAY_TO_MS
    ensures Diff(Add(x, t), x) == GetMilliSeconds(t) * NS_PER_MS
  {
    AddTotal(x, t);
    var y := Add(x, t);
    assert Diff(y, x) == (TotalMs(y) - TotalMs(x)) * NS_PER_MS;
  }

  // ------------------------------------------------------------------ comparisons

  predicate Less(a: JD, b: JD)
  {
    if a.days != b.days then a.days < b.days else a.msDay < b.msDay
  }

  predicate LessOrEqual(a: JD, b: JD)
  {
    if a.days != b.days then a.days < b.days else a.msDay <= b.msDay
  }

  predicate Greater(a: JD, b: JD)
  {
    if a.days != b.days then a.days > b.days else a.msDay > b.msDay
  }

  predicate GreaterOrEqual(a: JD, b: JD)
  {
    if a.days != b.days then a.days > b.days else a.msDay >= b.msDay
  }

  predicate Equal(a: JD, b: JD)
  {
    if a.days != b.days then false else a.msDay == b.msDay
  }

  predicate NotEqual(a: JD, b: JD)
  {
    if a.days != b.days then true else a.msDay != b.msDay
  }

  /** On normal dates the comparison operators order the instants in time; the time system is ignored. */
  lemma ComparisonsOrderInstants(a: JD, b: JD)
    requires Normal(a) && Normal(b)
    ensures Less(a, b) <==> TotalMs(a) < TotalMs(b)
    ensures LessOrEqual(a, b) <==> TotalMs(a) <= TotalMs(b)
    ensures Greater(a, b) <==> TotalMs(a) > TotalMs(b)
    ensures GreaterOrEqual(a, b) <==> TotalMs(a) >= TotalMs(b)
    ensures Equal(a, b) <==> TotalMs(a) == TotalMs(b)
    ensures NotEqual(a, b) <==> TotalMs(a) != TotalMs(b)
  {
    if a.days < b.days {
      assert TotalMs(a) < (a.days + 1) * DAY_TO_MS <= TotalMs(b);
    } else if a.days > b.days {
      assert TotalMs(b) < (b.days + 1) * DAY_TO_MS <= TotalMs(a);
    }
  }

  /** Exactly one of <, == and > holds, and <=, >=, != are their unions, for any two dates. */
  lemma ComparisonsAreConsistent(a: JD, b: JD)
    ensures (if Less(a, b) then 1 else 0) + (if Equal(a, b) then 1 else 0) + (if Greater(a, b) then 1 else 0) == 1
    ensures LessOrEqual(a, b) <==> Less(a, b) || Equal(a, b)
    ensures GreaterOrEqual(a, b) <==> Greater(a, b) || Equal(a, b)
    ensures NotEqual(a, b) <==> !Equal(a, b)
    ensures Less(a, b) <==> Greater(b, a)
  {
  }

  // ------------------------------------------------------------------ leap years

  /** JulianDate::IsLeapYear: the two low bits of the unsigned year are zero, that is, four divides it. */
  predicate IsLeapYear(year: int)
  {
    year % 4 == 0
  }

  /** The Gregorian rule: divisible by 4, and by 400 when divisible by 100. */
  predicate GregorianLeapYear(year: int)
  {
    year % 4 == 0 && (year % 100 != 0 || year % 400 == 0)
  }

  /** Within the years the class supports, the bit test agrees with the Gregorian rule. */
  lemma IsLeapYearIsGregorian(year: int)
    requires MIN_YEAR <= year <= MAX_YEAR
    ensures IsLeapYear(year) <==> GregorianLeapYear(year)
  {
  }

  // ------------------------------------------------------------------ IERS data

  /** One day of Earth orientation parameters; DUT1 is taken in whole milliseconds. */
  datatype EopParameters = EopParameters(xp: real, yp: real, dut1Ms: int, lod: real)

  /**
   * The IERS tables: the POSIX days of the leap seconds, the TAI - UTC
   * difference before the first of them, and one EOP entry per day from
   * 1 January 1992 on.
   */
  datatype IersData = IersData(baseLeapSeconds: nat, leapSeconds: seq<int>, eopValues: seq<EopParameters>)

  predicate Sorted(v: seq<int>)
  {
    forall i, j :: 0 <= i < j < |v| ==> v[i] <= v[j]
  }

  /** `std::lower_bound`: the first position whose entry is not below `x`. */
  function LowerBound(v: seq<int>, x: int): (r: nat)
    ensures r <= |v|
    ensures forall i :: 0 <= i < r ==> v[i] < x
    ensures r < |v| ==> v[r] >= x
  {
    if |v| == 0 || v[0] >= x then 0 else 1 + LowerBound(v[1..], x)
  }

  /** On a sorted table the lower bound splits it into the entries below `x` and the rest. */
  lemma LowerBoundPartitions(v: seq<int>, x: int)
    requires Sorted(v)
    ensures forall i :: LowerBound(v, x) <= i < |v| ==> v[i] >= x
  {
  }

  lemma LowerBoundMonotone(v: seq<int>, x: int, y: int)
    requires Sorted(v) && x <= y
    ensures LowerBound(v, x) <= LowerBound(v, y)
  {
  }

  /** JulianDate::TaiMinusUtc in milliseconds: one second per leap second introduced before the day. */
  function TaiMinusUtc(daysInPosix: int, iers: IersData): int
  {
    (LowerBound(iers.leapSeconds, daysInPosix) + iers.baseLeapSeconds) * 1000
  }

  /** TAI - UTC never decreases, and is whole seconds no smaller than the base. */
  lemma TaiMinusUtcMonotone(d1: int, d2: int, iers: IersData)
    requires Sorted(iers.leapSeconds) && d1 <= d2
    ensures TaiMinusUtc(d1, iers) <= TaiMinusUtc(d2, iers)
    ensures TaiMinusUtc(d1, iers) % 1000 == 0 && TaiMinusUtc(d1, iers) >= iers.baseLeapSeconds * 1000
  {
    LowerBoundMonotone(iers.leapSeconds, d1, d2);
  }

  /** The EOP table position of a day: `daysInPosix - Posix1992` in uint32. */
  function EopIndex(daysInPosix: int): int
  {
    U32(daysInPosix - POSIX_1992)
  }

  /** JulianDate::Dut1 in milliseconds: the table value of the day, 0 without one. */
  function Dut1(daysInPosix: int, iers: IersData): int
  {
    var pos := EopIndex(daysInPosix);
    if pos < |iers.eopValues| then iers.eopValues[pos].dut1Ms else 0
  }

  /** JulianDate::GetPolarMotion: the table's (xp, yp) of the day, (0, 0) without one. */
  function GetPolarMotion(x: JD, iers: IersData): (real, real)
  {
    var pos := EopIndex(x.days);
    if pos < |iers.eopValues| then (iers.eopValues[pos].xp, iers.eopValues[pos].yp) else (0.0, 0.0)
  }

  /**
   * The table is read for the days it covers from 1 January 1992 on; before
   * 1992 the uint32 index wraps past the table and the defaults apply.
   */
  lemma EopLookupCoversTableDays(x: JD, iers: IersData)
    requires IsU32(x.days) && |iers.eopValues| <= TWO_32 - POSIX_1992
    ensures (POSIX_1992 <= x.days < POSIX_1992 + |iers.eopValues|) ==>
              Dut1(x.days, iers) == iers.eopValues[x.days - POSIX_1992].dut1Ms
              && GetPolarMotion(x, iers) == (iers.eopValues[x.days - POSIX_1992].xp, iers.eopValues[x.days - POSIX_1992].yp)
    ensures !(POSIX_1992 <= x.days < POSIX_1992 + |iers.eopValues|) ==>
              Dut1(x.days, iers) == 0 && GetPolarMotion(x, iers) == (0.0, 0.0)
  {
    if x.days < POSIX_1992 {
      assert EopIndex(x.days) == x.days - POSIX_1992 + TWO_32;
    }
  }

  // ------------------------------------------------------------------ time-system offsets

  /** JulianDate::OffsetFromUtc in milliseconds: what to add to UTC to reach `ts`. */
  function OffsetFromUtc(daysInPosix: int, ts: TimeSystem, iers: IersData): int
  {
    match ts
    case UT1 => Dut1(daysInPosix, iers)
    case TAI => TaiMinusUtc(daysInPosix, iers)
    case TT => TT_TO_TAI_MS + TaiMinusUtc(daysInPosix, iers)
    case GPST => TaiMinusUtc(daysInPosix, iers) - TAI_TO_GPS_MS
    case _ => 0
  }

  /**
   * JulianDate::OffsetToUtc in milliseconds: what to add to a date given in
   * `ts` to reach UTC.  Early in a day the leap seconds of the previous day
   * apply, because the UTC instant still falls on it.
   */
  function OffsetToUtc(daysInPosix: int, msDay: int, ts: TimeSystem, iers: IersData): int
  {
    if ts == UTC || ts == POSIX then 0
    else
      var taiUtc0 := TaiMinusUtc(daysInPosix, iers);
      var base := if ts == TT then TT_TO_TAI_MS else 0;
      var taiUtc := if msDay < base + taiUtc0 then TaiMinusUtc(U32(daysInPosix - 1), iers) else taiUtc0;
      var offset := match ts
        case UT1 => Dut1(daysInPosix, iers)
        case TAI => taiUtc
        case TT => TT_TO_TAI_MS + taiUtc
        case _ => taiUtc - TAI_TO_GPS_MS;
      -offset
  }

  /**
   * Converting to UTC undoes converting from UTC, except in the first moments
   * of a day, where the previous day's leap seconds are used instead.
   */
  lemma OffsetToUtcUndoesOffsetFromUtc(daysInPosix: int, msDay: int, ts: TimeSystem, iers: IersData)
    requires ts == UT1 || msDay >= (if ts == TT then TT_TO_TAI_MS else 0) + TaiMinusUtc(daysInPosix, iers)
    ensures OffsetToUtc(daysInPosix, msDay, ts, iers) == -OffsetFromUtc(daysInPosix, ts, iers)
  {
  }

  /** Within the first moments of a TAI, TT or GPS day the previous day's TAI - UTC is used. */
  lemma OffsetToUtcEarlyInDay(daysInPosix: int, msDay: int, ts: TimeSystem, iers: IersData)
    requires ts == TAI || ts == TT || ts == GPST
    requires msDay < (if ts == TT then TT_TO_TAI_MS else 0) + TaiMinusUtc(daysInPosix, iers)
    ensures OffsetToUtc(daysInPosix, msDay, ts, iers) == -OffsetFromUtc(U32(daysInPosix - 1), ts, iers)
  {
  }

  // ------------------------------------------------------------------ Gregorian dates

  /** A broken-down date and time of day (DateTime without its time system). */
  datatype DateTime = DateTime(year: int, month: int, day: int, hours: int, minutes: int, seconds: int, millisecs: int)

  /** The `month_days` table of GregorianDate, for a year that is not a leap year. */
  const MONTH_DAYS: seq<int> := [31, 28, 31, 30, 31, 30, 31, 31, 30, 31, 30, 31]

  /** The days of month `m` (1 to 12). */
  function MonthLength(m: int, leap: bool): (n: int)
    requires 1 <= m <= 12
    ensures 28 <= n <= 31
  {
    assert MONTH_DAYS[m - 1] in MONTH_DAYS;
    if m == 2 && leap then 29 else MONTH_DAYS[m - 1]
  }

  const CUMULATIVE_DAYS: seq<int> := [0, 31, 59, 90, 120, 151, 181, 212, 243, 273, 304, 334, 365]

  /** The days of the year before the first of month `m`; month 13 gives the length of the year. */
  function DaysBeforeMonth(m: int, leap: bool): int
    requires 1 <= m <= 13
  {
    CUMULATIVE_DAYS[m - 1] + (if leap && m > 2 then 1 else 0)
  }

  function YearLength(leap: bool): int
  {
    DaysBeforeMonth(13, leap)
  }

  lemma DaysBeforeNextMonth(m: int, leap: bool)
    requires 1 <= m <= 12
    ensures DaysBeforeMonth(m + 1, leap) == DaysBeforeMonth(m, leap) + MonthLength(m, leap)
  {
  }

  /** Days from 1 January 1992 to 1 January of `year`: one leap year in every four, starting with 1992. */
  function DaysBeforeYear(year: int): int
    requires year >= MIN_YEAR
  {
    365 * (year - MIN_YEAR) + (year - MIN_YEAR + 3) / 4
  }

  /** The year GregorianDate computes from the days since 1992: `d / 365.25`, truncated. */
  function YearOf(d: int): int
    requires d >= 0
  {
    4 * d / 1461 + MIN_YEAR
  }

  /** GregorianDate's day of the year, as written: the leap-year count is an `uint32_t` difference. */
  function DayOfYearAsWritten(days: int): int
  {
    var d := U32(days - POSIX_1992);
    var year := YearOf(d);
    var leapYears := U32(year - (MIN_YEAR + 1)) / 4;
    U32(d - U32((year - MIN_YEAR) * 365 + leapYears))
  }

  /** GregorianDate's day of the year (1 on 1 January), with the leap-year count rounded down. */
  function DayOfYear(days: int): int
  {
    var d := U32(days - POSIX_1992);
    var year := YearOf(d);
    var leapYears := (year - (MIN_YEAR + 1)) / 4;
    d - ((year - MIN_YEAR) * 365 + leapYears)
  }

  /** The POSIX days of 1 January 1992 up to 31 December 2099, the dates the class supports. */
  predicate SupportedDay(days: int)
  {
    POSIX_1992 <= days < POSIX_1992 + DaysBeforeYear(MAX_YEAR + 1)
  }

  lemma {:induction false} YearOfCycle(d: int)
    requires 0 <= d < DaysBeforeYear(MAX_YEAR + 1)
    ensures MIN_YEAR <= YearOf(d) <= MAX_YEAR
    ensures DaysBeforeYear(YearOf(d)) <= d < DaysBeforeYear(YearOf(d)) + YearLength(IsLeapYear(YearOf(d)))
  {
    var q := d / 1461;
    var r := d % 1461;
    assert d == 1461 * q + r;
    var s := if r < 366 then 0 else if r < 731 then 1 else if r < 1096 then 2 else 3;
    assert 1461 * s <= 4 * r < 1461 * (s + 1);
    assert 1461 * (4 * q + s) <= 4 * d < 1461 * (4 * q + s + 1);
    assert 4 * d / 1461 == 4 * q + s;
    var y := 4 * q + s + MIN_YEAR;
    assert (4 * q + s + 3) / 4 == q + (s + 3) / 4;
    assert DaysBeforeYear(y) == 1461 * q + 365 * s + (s + 3) / 4;
    assert IsLeapYear(y) <==> s == 0;
  }

  /** On the supported days, the year and the day of the year locate the day. */
  lemma {:induction false} DayOfYearLocatesDay(days: int)
    requires SupportedDay(days)
    ensures MIN_YEAR <= YearOf(days - POSIX_1992) <= MAX_YEAR
    ensures 1 <= DayOfYear(days) <= YearLength(IsLeapYear(YearOf(days - POSIX_1992)))
    ensures days - POSIX_1992 == DaysBeforeYear(YearOf(days - POSIX_1992)) + DayOfYear(days) - 1
  {
    var d := days - POSIX_1992;
    assert U32(d) == d;
    YearOfCycle(d);
    var y := YearOf(d);
    assert (y - MIN_YEAR + 3) / 4 == (y - (MIN_YEAR + 1)) / 4 + 1;
  }

  /** From 1993 on the uint32 leap-year count is the right one. */
  lemma DayOfYearAsWrittenFrom1993(days: int)
    requires SupportedDay(days) && days >= POSIX_1992 + DaysBeforeYear(MIN_YEAR + 1)
    ensures DayOfYearAsWritten(days) == DayOfYear(days)
  {
    var d := days - POSIX_1992;
    DayOfYearLocatesDay(days);
    assert YearOf(d) >= MIN_YEAR + 1;
  }

  /** In 1992 the uint32 difference 1992 - 1993 wraps, and every day of the year falls past December. */
  lemma DayOfYearAsWrittenIn1992(days: int)
    requires POSIX_1992 <= days < POSIX_1992 + DaysBeforeYear(MIN_YEAR + 1)
    ensures DayOfYearAsWritten(days) == days - POSIX_1992 + 3221225473
    ensures DayOfYearAsWritten(days) > YearLength(IsLeapYear(MIN_YEAR))
  {
    var d := days - POSIX_1992;
    assert U32(d) == d;
    assert YearOf(d) == MIN_YEAR;
    assert U32(MIN_YEAR - (MIN_YEAR + 1)) == TWO_32 - 1;
  }

  /** The month loop of GregorianDate over `month_days`. */
  method MonthOfDay(doy: int, leap: bool) returns (month: Option<int>, day: int)
    requires IsU32(doy)
    ensures doy == 0 ==> month == Some(1) && day == 0
    ensures 1 <= doy <= YearLength(leap) ==>
              month.Some? && 1 <= month.value <= 12 && 1 <= day <= MonthLength(month.value, leap)
              && DaysBeforeMonth(month.value, leap) + day == doy
    ensures doy > YearLength(leap) ==> month == None && day == doy - YearLength(leap)
  {
    var monthDays := MONTH_DAYS;
    if leap {
      monthDays := monthDays[1 := monthDays[1] + 1];
    }
    assert forall k :: 0 <= k < 12 ==> monthDays[k] == MonthLength(k + 1, leap);
    var daysOfYear := doy;
    month := None;
    var i := 0;
    while i < 12
      invariant 0 <= i <= 12
      invariant daysOfYear == doy - DaysBeforeMonth(i + 1, leap)
      invariant i > 0 ==> doy > DaysBeforeMonth(i + 1, leap)
    {
      if daysOfYear <= monthDays[i] {
        month := Some(i + 1);
        break;
      }
      DaysBeforeNextMonth(i + 1, leap);
      daysOfYear := daysOfYear - monthDays[i];
      i := i + 1;
    }
    day := daysOfYear;
  }

  /** The GregorianDate conversion of a time of day, field by field. */
  method TimeOfDay(msDay: int) returns (hours: int, minutes: int, seconds: int, millisecs: int)
    requires IsU32(msDay)
    ensures MsOfDay(hours, minutes, seconds, millisecs) == msDay
    ensures 0 <= hours && 0 <= minutes < 60 && 0 <= seconds < 60 && 0 <= millisecs < 1000
  {
    var t := msDay;
    hours := t / HOUR_TO_MS;
    t := t - hours * HOUR_TO_MS;
    minutes := t / 60000;
    t := t - minutes * 60000;
    seconds := t / 1000;
    t := t - seconds * 1000;
    millisecs := t;
  }

  /** The milliseconds of the day of a time of day, as SetDate computes them. */
  function MsOfDay(hours: int, minutes: int, seconds: int, millisecs: int): int
  {
    (hours * 3600 + minutes * 60 + seconds) * 1000 + millisecs
  }

  /** A time of day with minutes, seconds and milliseconds in range is determined by its milliseconds. */
  lemma MsOfDayInjective(h1: int, m1: int, s1: int, ms1: int, h2: int, m2: int, s2: int, ms2: int)
    requires 0 <= m1 < 60 && 0 <= s1 < 60 && 0 <= ms1 < 1000
    requires 0 <= m2 < 60 && 0 <= s2 < 60 && 0 <= ms2 < 1000
    requires MsOfDay(h1, m1, s1, ms1) == MsOfDay(h2, m2, s2, ms2)
    ensures h1 == h2 && m1 == m2 && s1 == s2 && ms1 == ms2
  {
    var a1 := h1 * 3600 + m1 * 60 + s1;
    var a2 := h2 * 3600 + m2 * 60 + s2;
    var x := MsOfDay(h1, m1, s1, ms1);
    DivModUnique(x, 1000, a1, ms1);
    DivModUnique(x, 1000, a2, ms2);
    var b1, b2 := h1 * 60 + m1, h2 * 60 + m2;
    assert a1 == b1 * 60 + s1 && a2 == b2 * 60 + s2;
    DivModUnique(a1, 60, b1, s1);
    DivModUnique(a1, 60, b2, s2);
    DivModUnique(b1, 60, h1, m1);
    DivModUnique(b1, 60, h2, m2);
  }

  /**
   * JulianDate::GregorianDate with the leap-year count corrected: on every
   * supported day it yields a valid date that the date formula of SetDate
   * maps back to the same day, and a time of day that gives back its
   * milliseconds.
   */
  method GregorianDate(days: int, msDay: int) returns (dt: DateTime)
    requires SupportedDay(days) && IsU32(msDay)
    ensures MIN_YEAR <= dt.year <= MAX_YEAR && 1 <= dt.month <= 12
    ensures 1 <= dt.day <= MonthLength(dt.month, IsLeapYear(dt.year))
    ensures DayNumber(dt.year, dt.month, dt.day) == days
    ensures MsOfDay(dt.hours, dt.minutes, dt.seconds, dt.millisecs) == msDay
    ensures 0 <= dt.hours && 0 <= dt.minutes < 60 && 0 <= dt.seconds < 60 && 0 <= dt.millisecs < 1000
  {
    var d := U32(days - POSIX_1992);
    var year := YearOf(d);
    var leapYears := (year - (MIN_YEAR + 1)) / 4;
    var daysOfYear := d - ((year - MIN_YEAR) * 365 + leapYears);
    var leap := IsLeapYear(year);
    DayOfYearLocatesDay(days);
    var month, day := MonthOfDay(daysOfYear, leap);
    var hours, minutes, seconds, millisecs := TimeOfDay(msDay);
    dt := DateTime(year, month.value, day, hours, minutes, seconds, millisecs);
    DayNumberCivil(year, month.value, day);
  }

  /** JulianDate::GregorianDate as written: the date part, whose month is never set in 1992. */
  method GregorianDateAsWritten(days: int) returns (year: int, month: Option<int>, day: int)
    ensures year == YearOf(U32(days - POSIX_1992))
    ensures 1 <= DayOfYearAsWritten(days) <= YearLength(IsLeapYear(year)) ==>
              month.Some? && 1 <= month.value <= 12
              && DaysBeforeMonth(month.value, IsLeapYear(year)) + day == DayOfYearAsWritten(days)
    ensures DayOfYearAsWritten(days) > YearLength(IsLeapYear(year)) ==>
              month == None && day == DayOfYearAsWritten(days) - YearLength(IsLeapYear(year))
  {
    var d := U32(days - POSIX_1992);
    year := YearOf(d);
    var leapYears := U32(year - (MIN_YEAR + 1)) / 4;
    var daysOfYear := U32(d - U32((year - MIN_YEAR) * 365 + leapYears));
    month, day := MonthOfDay(daysOfYear, IsLeapYear(year));
  }

  /** The day formula of SetDate (string) with its uint32 arithmetic and C++ divisions. */
  function DayNumber(year: int, month: int, day: int): int
  {
    var k := U32(month + 9) / 12;
    U32(367 * year - U32(7 * (year + k)) / 4 + U32(275 * month) / 9 + day - EPOCH_OFFSET_DAYS)
  }

  /** A valid date in the supported years: month 1 to 12 and a day that exists in it. */
  predicate ValidDate(year: int, month: int, day: int)
  {
    MIN_YEAR <= year <= MAX_YEAR && 1 <= month <= 12 && 1 <= day <= MonthLength(month, IsLeapYear(year))
  }

  /** `7 * (year + k) / 4` over one leap cycle, with 7 * 1992 / 4 == 3486 taken out. */
  lemma SevenQuarters(s: int, k: int)
    requires 0 <= s < 4 && 0 <= k <= 1
    ensures (7 * (MIN_YEAR + s + k)) / 4 == 3486 * 1 + [0, 1, 3, 5, 7][s + k]
  {
    var t := s + k;
    var r := [0, 1, 3, 5, 7][t];
    DivModUnique(7 * (MIN_YEAR + s + k), 4, 3486 + r, [0, 3, 2, 1, 0][t]);
  }

  lemma {:induction false} DayNumberCycle(s: int, m: int)
    requires 0 <= s < 4 && 1 <= m <= 12
    ensures 367 * (MIN_YEAR + s) - (7 * (MIN_YEAR + s + (m + 9) / 12)) / 4 + (275 * m) / 9 - EPOCH_OFFSET_DAYS
            == POSIX_1992 + 365 * s + (s + 3) / 4 + DaysBeforeMonth(m, s == 0) - 1
  {
    var k := if m <= 2 then 0 else 1;
    assert (m + 9) / 12 == k;
    SevenQuarters(s, k);
    assert (s + 3) / 4 == if s == 0 then 0 else 1;
    if m == 1 {} else if m == 2 {} else if m == 3 {} else if m == 4 {} else if m == 5 {} else if m == 6 {}
    else if m == 7 {} else if m == 8 {} else if m == 9 {} else if m == 10 {} else if m == 11 {} else {}
  }

  /** The date formula counts the days before the year and the month, plus the day. */
  lemma {:induction false} DayNumberCivil(year: int, month: int, day: int)
    requires MIN_YEAR <= year <= MAX_YEAR && 1 <= month <= 12 && 1 <= day <= 31
    ensures DayNumber(year, month, day) == POSIX_1992 + DaysBeforeYear(year) + DaysBeforeMonth(month, IsLeapYear(year)) + day - 1
  {
    var q := (year - MIN_YEAR) / 4;
    var s := (year - MIN_YEAR) % 4;
    var k := (month + 9) / 12;
    var plain := 367 * year - (7 * (year + k)) / 4 + (275 * month) / 9 + day - EPOCH_OFFSET_DAYS;
    assert plain == POSIX_1992 + DaysBeforeYear(year) + DaysBeforeMonth(month, IsLeapYear(year)) + day - 1 by {
      assert year == MIN_YEAR + 4 * q + s;
      var c := 7 * (MIN_YEAR + s + k);
      DivModUnique(7 * (year + k), 4, 7 * q + c / 4, c % 4);
      DayNumberCycle(s, month);
      DivModUnique(year - MIN_YEAR + 3, 4, q + (s + 3) / 4, (s + 3) % 4);
      DivModUnique(year, 4, 498 + q, s);
    }
    assert DayNumber(year, month, day) == plain by {
      assert U32(month + 9) == month + 9 && U32(275 * month) == 275 * month;
      assert U32(7 * (year + k)) == 7 * (year + k);
    }
  }

  lemma {:induction false} DaysBeforeYearMonotone(y1: int, y2: int)
    requires MIN_YEAR <= y1 < y2
    ensures DaysBeforeYear(y1) + YearLength(IsLeapYear(y1)) <= DaysBeforeYear(y2)
  {
    var a := y1 - MIN_YEAR;
    assert (a + 4) / 4 == (a + 3) / 4 + (if a % 4 == 0 then 1 else 0);
    assert IsLeapYear(y1) <==> a % 4 == 0;
    assert (a + 4) / 4 <= (y2 - MIN_YEAR + 3) / 4;
  }

  lemma {:induction false} DaysBeforeMonthMonotone(m1: int, m2: int, leap: bool)
    requires 1 <= m1 < m2 <= 13
    ensures DaysBeforeMonth(m1, leap) + MonthLength(m1, leap) <= DaysBeforeMonth(m2, leap)
    decreases m2 - m1
  {
    DaysBeforeNextMonth(m1, leap);
    if m1 + 1 < m2 {
      DaysBeforeMonthMonotone(m1 + 1, m2, leap);
    }
  }

  lemma DayWithinYear(month: int, day: int, leap: bool)
    requires 1 <= month <= 12 && 1 <= day <= MonthLength(month, leap)
    ensures 0 <= DaysBeforeMonth(month, leap) + day - 1 < YearLength(leap)
  {
    DaysBeforeNextMonth(month, leap);
    if month < 12 {
      DaysBeforeMonthMonotone(month + 1, 13, leap);
    }
  }

  lemma YearUnique(y1: int, a: int, y2: int, b: int)
    requires MIN_YEAR <= y1 && MIN_YEAR <= y2
    requires 0 <= a < YearLength(IsLeapYear(y1)) && 0 <= b < YearLength(IsLeapYear(y2))
    requires DaysBeforeYear(y1) + a == DaysBeforeYear(y2) + b
    ensures y1 == y2
  {
    if y1 < y2 {
      DaysBeforeYearMonotone(y1, y2);
    } else if y2 < y1 {
      DaysBeforeYearMonotone(y2, y1);
    }
  }

  lemma MonthUnique(m1: int, d1: int, m2: int, d2: int, leap: bool)
    requires 1 <= m1 <= 12 && 1 <= d1 <= MonthLength(m1, leap)
    requires 1 <= m2 <= 12 && 1 <= d2 <= MonthLength(m2, leap)
    requires DaysBeforeMonth(m1, leap) + d1 == DaysBeforeMonth(m2, leap) + d2
    ensures m1 == m2 && d1 == d2
  {
    if m1 < m2 {
      DaysBeforeMonthMonotone(m1, m2, leap);
    } else if m2 < m1 {
      DaysBeforeMonthMonotone(m2, m1, leap);
    }
  }

  /** Different valid dates lie at different days since the start of the supported years. */
  lemma DateDaysInjective(y1: int, m1: int, d1: int, y2: int, m2: int, d2: int)
    requires ValidDate(y1, m1, d1) && ValidDate(y2, m2, d2)
    requires DaysBeforeYear(y1) + DaysBeforeMonth(m1, IsLeapYear(y1)) + d1 == DaysBeforeYear(y2) + DaysBeforeMonth(m2, IsLeapYear(y2)) + d2
    ensures y1 == y2 && m1 == m2 && d1 == d2
  {
    DayWithinYear(m1, d1, IsLeapYear(y1));
    DayWithinYear(m2, d2, IsLeapYear(y2));
    YearUnique(y1, DaysBeforeMonth(m1, IsLeapYear(y1)) + d1 - 1, y2, DaysBeforeMonth(m2, IsLeapYear(y2)) + d2 - 1);
    MonthUnique(m1, d1, m2, d2, IsLeapYear(y1));
  }

  /** Different valid dates have different day numbers, so GregorianDate inverts the date formula. */
  lemma DayNumberInjective(y1: int, m1: int, d1: int, y2: int, m2: int, d2: int)
    requires ValidDate(y1, m1, d1) && ValidDate(y2, m2, d2)
    requires DayNumber(y1, m1, d1) == DayNumber(y2, m2, d2)
    ensures y1 == y2 && m1 == m2 && d1 == d2
  {
    DayNumberCivil(y1, m1, d1);
    DayNumberCivil(y2, m2, d2);
    DateDaysInjective(y1, m1, d1, y2, m2, d2);
  }

  // ------------------------------------------------------------------ setting and reading dates

  /** The assertions of SetDate (string). */
  datatype DateError = PosixIsNotADateScale | YearBeforeEopData | YearAfterMax

  /**
   * The fields `sscanf` reads from "YYYY-MM-DD HH:MM:SS(.MMM)", as the numbers
   * written; the integer fields land in `uint32_t`s, so SetDate reads them through U32.
   */
  datatype ScannedDate = ScannedDate(year: int, month: int, day: int, hours: int, minutes: int, seconds: real)

  /** The date the scanned fields name, in `ts`, before the move to UTC. */
  function LocalDate(date: ScannedDate, ts: TimeSystem): JD
    requires 0.0 <= date.seconds
  {
    var secs := date.seconds.Floor;
    var millis := ((date.seconds - secs as real) * 1000.0 + 0.5).Floor;
    JD(DayNumber(U32(date.year), date.month, date.day), U32(MsOfDay(date.hours, date.minutes, secs, millis)), ts)
  }

  /** The date SetDate (string) stores: the local date moved by its offset to UTC. */
  function ScannedDateValue(date: ScannedDate, ts: TimeSystem, iers: IersData): JD
    requires 0.0 <= date.seconds
  {
    var local := LocalDate(date, ts);
    Add(local, OffsetToUtc(local.days, local.msDay, ts, iers) * NS_PER_MS)
  }

  /** A negative scanned year wraps in the `uint32_t` field to a year past 2099, not one before 1992. */
  lemma NegativeYearWrapsPastMax(y: int)
    requires MAX_YEAR + 1 - TWO_32 <= y < 0
    ensures U32(y) == y + TWO_32
    ensures U32(y) > MAX_YEAR && !(U32(y) < MIN_YEAR)
  {
    assert y + TWO_32 - y == TWO_32;
  }

  /** Seconds with whole milliseconds split into the two fields exactly. */
  lemma SecondsSplit(s: int, ms: int)
    requires 0 <= s && 0 <= ms < 1000
    ensures (s as real + ms as real / 1000.0).Floor == s
    ensures ((s as real + ms as real / 1000.0 - s as real) * 1000.0 + 0.5).Floor == ms
  {
    var x := s as real + ms as real / 1000.0;
    assert s as real <= x < (s + 1) as real;
    assert (x - s as real) * 1000.0 + 0.5 == ms as real + 0.5;
  }

  /** A valid UTC date string gives the date's day number and the time's milliseconds. */
  lemma ScannedUtcDate(y: int, m: int, d: int, h: int, mi: int, s: int, ms: int, iers: IersData)
    requires ValidDate(y, m, d) && 0 <= h < 24 && 0 <= mi < 60 && 0 <= s < 60 && 0 <= ms < 1000
    ensures ScannedDateValue(ScannedDate(y, m, d, h, mi, s as real + ms as real / 1000.0), UTC, iers)
            == JD(DayNumber(y, m, d), MsOfDay(h, mi, s, ms), UTC)
    ensures Normal(JD(DayNumber(y, m, d), MsOfDay(h, mi, s, ms), UTC))
  {
    var x := JD(DayNumber(y, m, d), MsOfDay(h, mi, s, ms), UTC);
    ScannedUtcLocalDate(y, m, d, h, mi, s, ms);
    AddTotal(x, 0);
    TotalMsInjective(Add(x, 0), x);
  }

  /** The local date of a valid UTC date string, before any offset is applied. */
  lemma ScannedUtcLocalDate(y: int, m: int, d: int, h: int, mi: int, s: int, ms: int)
    requires ValidDate(y, m, d) && 0 <= h < 24 && 0 <= mi < 60 && 0 <= s < 60 && 0 <= ms < 1000
    ensures LocalDate(ScannedDate(y, m, d, h, mi, s as real + ms as real / 1000.0), UTC)
            == JD(DayNumber(y, m, d), MsOfDay(h, mi, s, ms), UTC)
    ensures Normal(JD(DayNumber(y, m, d), MsOfDay(h, mi, s, ms), UTC))
  {
    SecondsSplit(s, ms);
    assert U32(y) == y;
    assert IsU32(MsOfDay(h, mi, s, ms)) && MsOfDay(h, mi, s, ms) < DAY_TO_MS;
  }

  /** In any time system the stored instant is the local one moved by the offset to UTC. */
  lemma ScannedDateMovesToUtc(date: ScannedDate, ts: TimeSystem, iers: IersData)
    requires 0.0 <= date.seconds
    requires LocalDate(date, ts).msDay < DAY_TO_MS
    requires 0 <= TotalMs(LocalDate(date, ts)) + OffsetToUtc(LocalDate(date, ts).days, LocalDate(date, ts).msDay, ts, iers)
                < TWO_32 * DAY_TO_MS
    ensures TotalMs(ScannedDateValue(date, ts, iers))
            == TotalMs(LocalDate(date, ts)) + OffsetToUtc(LocalDate(date, ts).days, LocalDate(date, ts).msDay, ts, iers)
    ensures ScannedDateValue(date, ts, iers).scale == ts
  {
    var local := LocalDate(date, ts);
    var off := OffsetToUtc(local.days, local.msDay, ts, iers);
    assert GetMilliSeconds(off * NS_PER_MS) == off;
    AddTotal(local, off * NS_PER_MS);
  }

  /** SetDate (double): the POSIX days and milliseconds of a Julian day number, in UTC. */
  function FromJulianDay(jd: real): JD
    requires POSIX_EPOCH <= jd < POSIX_EPOCH + TWO_32 as real
  {
    var x := jd - POSIX_EPOCH;
    var days := x.Floor;
    JD(days, ((x - days as real) * DAY_TO_MS as real).Floor, UTC)
  }

  /** JulianDate::GetDouble: the Julian day number, or, for POSIX, the days since 1970. */
  function GetDouble(x: JD, ts: TimeSystem, iers: IersData): real
  {
    var base := x.days as real + x.msDay as real / DAY_TO_MS as real;
    if ts != POSIX then base + POSIX_EPOCH
    else base + OffsetFromUtc(x.days, ts, iers) as real / DAY_TO_MS as real
  }

  /** Reading a normal date as a Julian day number and setting it back gives the same date in UTC. */
  lemma FromJulianDayOfGetDouble(x: JD, ts: TimeSystem, iers: IersData)
    requires Normal(x) && ts != POSIX
    ensures POSIX_EPOCH <= GetDouble(x, ts, iers) < POSIX_EPOCH + TWO_32 as real
    ensures FromJulianDay(GetDouble(x, ts, iers)) == JD(x.days, x.msDay, UTC)
  {
    var f := x.msDay as real / DAY_TO_MS as real;
    assert 0.0 <= f < 1.0;
    var base := x.days as real + f;
    assert GetDouble(x, ts, iers) - POSIX_EPOCH == base;
    assert base.Floor == x.days;
    assert (base - x.days as real) * DAY_TO_MS as real == x.msDay as real;
  }

  /** GetDouble for POSIX is the days since 1970 with no offset. */
  lemma GetDoublePosix(x: JD, iers: IersData)
    ensures GetDouble(x, POSIX, iers) + POSIX_EPOCH == GetDouble(x, UTC, iers)
  {
  }

  /** A JulianDate: the POSIX days, the milliseconds into the day and the time system. */
  class JulianDate {
    var days: int
    var msDay: int
    var timeScale: TimeSystem

    function Value(): JD
      reads this
    {
      JD(days, msDay, timeScale)
    }

    /** The default date, the first supported one: `(MinYear - PosixYear) * 365.25` days, 0h UTC. */
    constructor ()
      ensures Value() == JD(POSIX_1992, 0, UTC)
      ensures Value().days == DayNumber(MIN_YEAR, 1, 1)
    {
      days := (MIN_YEAR - POSIX_YEAR) * 1461 / 4;
      msDay := 0;
      timeScale := UTC;
    }

    /** SetDate (days, ms): POSIX days and milliseconds, taken as given. */
    method SetDateDays(d: int, ms: int)
      requires IsU32(d) && IsU32(ms)
      modifies this
      ensures Value() == JD(d, ms, POSIX)
    {
      days := d;
      msDay := ms;
      timeScale := POSIX;
    }

    /** SetDate (double): a Julian day number in UTC. */
    method SetDateJulian(jd: real)
      requires POSIX_EPOCH <= jd < POSIX_EPOCH + TWO_32 as real
      modifies this
      ensures Value() == FromJulianDay(jd)
    {
      var x := jd - POSIX_EPOCH;
      days := x.Floor;
      msDay := ((x - days as real) * DAY_TO_MS as real).Floor;
      timeScale := UTC;
    }

    /**
     * SetDate (string, ts): the scanned fields in `ts`, stored as UTC plus the
     * time system.  POSIX and years outside 1992 to 2099 fail the assertions;
     * the year is compared as the `uint32_t` it is scanned into, so a negative
     * year wraps to a large one and fails the MaxYear assertion.
     */
    method SetDate(date: ScannedDate, ts: TimeSystem, iers: IersData) returns (r: Outcome<DateError>)
      requires 0.0 <= date.seconds
      modifies this
      ensures r == (if ts == POSIX then Fail(PosixIsNotADateScale)
                    else if U32(date.year) < MIN_YEAR then Fail(YearBeforeEopData)
                    else if U32(date.year) > MAX_YEAR then Fail(YearAfterMax)
                    else Pass)
      ensures r == Pass ==> Value() == ScannedDateValue(date, ts, iers)
      ensures r.Fail? ==> Value() == old(Value())
    {
      if ts == POSIX {
        return Fail(PosixIsNotADateScale);
      }
      var year := U32(date.year);
      if year < MIN_YEAR {
        return Fail(YearBeforeEopData);
      }
      if year > MAX_YEAR {
        return Fail(YearAfterMax);
      }
      var secs := date.seconds.Floor;
      var millis := ((date.seconds - secs as real) * 1000.0 + 0.5).Floor;
      days := DayNumber(year, date.month, date.day);
      msDay := U32(MsOfDay(date.hours, date.minutes, secs, millis));
      timeScale := ts;
      assert Value() == LocalDate(date, ts);
      AddAssign(OffsetToUtc(days, msDay, timeScale, iers) * NS_PER_MS);
      return Pass;
    }

    /** operator+= */
    method AddAssign(t: int)
      modifies this
      ensures Value() == Add(old(Value()), t)
    {
      var r := Add(Value(), t);
      days, msDay, timeScale := r.days, r.msDay, r.scale;
    }

    /** operator-= */
    method SubAssign(t: int)
      modifies this
      ensures Value() == Sub(old(Value()), t)
    {
      var r := Sub(Value(), t);
      days, msDay, timeScale := r.days, r.msDay, r.scale;
    }

    /** GetDateTime (ts): the Gregorian date and time of day of this instant in `ts`. */
    method GetDateTime(ts: TimeSystem, iers: IersData) returns (dt: DateTime)
      requires SupportedDay(Add(Value(), OffsetFromUtc(days, ts, iers) * NS_PER_MS).days)
      requires IsU32(Add(Value(), OffsetFromUtc(days, ts, iers) * NS_PER_MS).msDay)
      ensures ValidDate(dt.year, dt.month, dt.day)
      ensures DayNumber(dt.year, dt.month, dt.day) == Add(Value(), OffsetFromUtc(days, ts, iers) * NS_PER_MS).days
      ensures MsOfDay(dt.hours, dt.minutes, dt.seconds, dt.millisecs) == Add(Value(), OffsetFromUtc(days, ts, iers) * NS_PER_MS).msDay
    {
      var shifted := Add(Value(), OffsetFromUtc(days, ts, iers) * NS_PER_MS);
      dt := GregorianDate(shifted.days, shifted.msDay);
    }
  }
}
