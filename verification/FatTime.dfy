/** FAT timestamps (misc.c): the conversions between a UNIX time and the packed time, date and
    centisecond fields. `time_to_tm` is the kernel's; here it is the Gregorian calendar, told
    by counting years and months one at a time. */
module FatTime {

  const SECS_PER_MIN := 60
  const SECS_PER_HOUR := 3600
  const SECS_PER_DAY := 86400
  const DAYS_DELTA := 3652       // from 1970 to 1980
  const YEAR_2100 := 120
  const MIN_YEAR := 1980         // the years a stamp can hold
  const MAX_YEAR := 2107
  const NS_PER_CS := 10_000_000

  datatype Timespec = Timespec(sec: int, nsec: int)

  /** The packed fields as they stand in a directory entry. */
  datatype Stamp = Stamp(time: nat, date: nat, cs: nat)

  /** Mount options and system setting that give the offset of local time. */
  datatype Zone = Zone(tzSet: bool, timeOffset: int, minutesWest: int)

  datatype Tm = Tm(year: int, month: int, day: int, hour: int, min: int, sec: int)

  // ----- the calendar -------------------------------------------------------------------

  predicate Leap(y: int) {
    y % 4 == 0 && (y % 100 != 0 || y % 400 == 0)
  }

  function YearDays(y: int): int { if Leap(y) then 366 else 365 }

  function MonthDays(y: int, m: int): int {
    if m == 2 then (if Leap(y) then 29 else 28)
    else if m == 4 || m == 6 || m == 9 || m == 11 then 30
    else 31
  }

  /** Days from 1.1.1970 to 1.1. of year `y`. */
  function DaysToYear(y: int): int
    decreases if y >= 1970 then y - 1970 else 1970 - y
  {
    if y == 1970 then 0
    else if y > 1970 then DaysToYear(y - 1) + YearDays(y - 1)
    else DaysToYear(y + 1) - YearDays(y)
  }

  /** Days from 1.1. to the first of month `m`. */
  function DaysToMonth(y: int, m: int): int
    decreases m
  {
    if m <= 1 then 0 else DaysToMonth(y, m - 1) + MonthDays(y, m - 1)
  }

  function DayNumber(y: int, m: int, d: int): int {
    DaysToYear(y) + DaysToMonth(y, m) + (d - 1)
  }

  /** The year that day `n` after 1.1. of year `y` falls in, and the day of that year. */
  function YearOf(y: int, n: int): (r: (int, int))
    ensures 0 <= r.1 < YearDays(r.0) && DaysToYear(r.0) + r.1 == DaysToYear(y) + n
    decreases if n >= 0 then n else -n
  {
    if n >= YearDays(y) then
      NextYear(y);
      YearOf(y + 1, n - YearDays(y))
    else if n >= 0 then (y, n)
    else if n >= -YearDays(y - 1) then
      NextYear(y - 1);
      (y - 1, n + YearDays(y - 1))
    else
      NextYear(y - 1);
      YearOf(y - 1, n + YearDays(y - 1))
  }

  lemma NextYear(y: int)
    ensures DaysToYear(y + 1) == DaysToYear(y) + YearDays(y)
  {
  }

  /** The month that day `n` after the first of month `m` falls in, and the day of that month. */
  function MonthOf(y: int, m: int, n: int): (r: (int, int))
    requires 1 <= m <= 12 && 0 <= n && DaysToMonth(y, m) + n < YearDays(y)
    ensures m <= r.0 <= 12 && 1 <= r.1 <= MonthDays(y, r.0)
    ensures DaysToMonth(y, r.0) + (r.1 - 1) == DaysToMonth(y, m) + n
    decreases 12 - m
  {
    if n < MonthDays(y, m) then (m, n + 1)
    else
      DecemberLast(y);
      MonthOf(y, m + 1, n - MonthDays(y, m))
  }

  lemma DecemberLast(y: int)
    ensures DaysToMonth(y, 12) + 31 == YearDays(y)
    ensures DaysToMonth(y, 2) == 31
  {
    assert DaysToMonth(y, 3) == 31 + MonthDays(y, 2);
    assert DaysToMonth(y, 6) == DaysToMonth(y, 3) + 92;
    assert DaysToMonth(y, 9) == DaysToMonth(y, 6) + 92;
    assert DaysToMonth(y, 12) == DaysToMonth(y, 9) + 91;
  }

  /** `time_to_tm`. */
  function TimeToTm(local: int): Tm {
    var (year, n) := YearOf(1970, local / SECS_PER_DAY);
    var (month, day) := MonthOf(year, 1, n);
    var s := local % SECS_PER_DAY;
    Tm(year, month, day, s / SECS_PER_HOUR, s / SECS_PER_MIN % 60, s % 60)
  }

  // ----- the driver's conversions ---------------------------------------------------------

  /** Seconds from local time to UTC (`second += tz_minuteswest` or `-= time_offset` minutes). */
  function ToUtc(z: Zone): int {
    if !z.tzSet then z.minutesWest * SECS_PER_MIN else -(z.timeOffset * SECS_PER_MIN)
  }

  /** Seconds from UTC to local time, the offset `time_to_tm` is called with. */
  function ToLocal(z: Zone): int {
    (if z.tzSet then z.timeOffset else -z.minutesWest) * SECS_PER_MIN
  }

  /** The local time at second `sec`: a set offset counts minutes to the east of Greenwich, the
      system's counts them to the west. */
  function Local(z: Zone, sec: int): int { sec + 60 * (if z.tzSet then z.timeOffset else -z.minutesWest) }

  lemma OffsetsAgree(z: Zone, sec: int)
    ensures sec - ToUtc(z) == sec + ToLocal(z) == Local(z, sec)
  {
  }

  const DAYS_IN_YEAR: seq<int> := [0, 0, 31, 59, 90, 120, 151, 181, 212, 243, 273, 304, 334, 0, 0, 0]

  predicate IsLeapYear(y: int) {
    y % 4 == 0 && y != YEAR_2100
  }

  /** The day count of a packed date, from 1.1.1970. */
  function StampDays(date: nat): int
    requires date < 0x1_0000
  {
    var year := date / 512;
    var month := if date / 32 % 16 < 1 then 1 else date / 32 % 16;
    var day := (if date % 32 < 1 then 1 else date % 32) - 1;
    var leap := (year + 3) / 4 - (if year > YEAR_2100 then 1 else 0)
      + (if IsLeapYear(year) && month > 2 then 1 else 0);
    year * 365 + leap + DAYS_IN_YEAR[month] + day + DAYS_DELTA
  }

  /** `fat_time_fat2unix`. */
  function Fat2Unix(z: Zone, s: Stamp): Timespec
    requires s.time < 0x1_0000 && s.date < 0x1_0000 && s.cs < 0x100
  {
    var second := s.time % 32 * 2 + s.time / 32 % 64 * SECS_PER_MIN + s.time / 2048 * SECS_PER_HOUR
      + StampDays(s.date) * SECS_PER_DAY + ToUtc(z);
    if s.cs != 0 then Timespec(second + s.cs / 100, s.cs % 100 * NS_PER_CS) else Timespec(second, 0)
  }

  function Pack(tm: Tm, cs: nat): (s: Stamp)
    requires MIN_YEAR <= tm.year <= MAX_YEAR && 1 <= tm.month <= 12 && 1 <= tm.day <= 31
    requires 0 <= tm.hour < 24 && 0 <= tm.min < 60 && 0 <= tm.sec < 60
    ensures s.time < 0x1_0000 && s.date < 0x1_0000
  {
    Stamp(tm.hour * 2048 + tm.min * 32 + tm.sec / 2, (tm.year - MIN_YEAR) * 512 + tm.month * 32 + tm.day, cs)
  }

  const FIRST := Stamp(0, 33, 0)
  const LAST := Stamp(23 * 2048 + 59 * 32 + 29, 127 * 512 + 12 * 32 + 31, 199)

  predicate ValidTm(tm: Tm) {
    && 1 <= tm.month <= 12 && 1 <= tm.day <= MonthDays(tm.year, tm.month)
    && 0 <= tm.hour < 24 && 0 <= tm.min < 60 && 0 <= tm.sec < 60
  }

  function SecondOfDay(tm: Tm): int {
    tm.hour * SECS_PER_HOUR + tm.min * SECS_PER_MIN + tm.sec
  }

  function LocalSeconds(tm: Tm): int {
    DayNumber(tm.year, tm.month, tm.day) * SECS_PER_DAY + SecondOfDay(tm)
  }

  lemma TmRange(local: int)
    ensures var tm := TimeToTm(local);
      && ValidTm(tm) && LocalSeconds(tm) == local && tm.sec % 2 == local % 2
      && DayNumber(tm.year, tm.month, tm.day) == local / SECS_PER_DAY
      && SecondOfDay(tm) == local % SECS_PER_DAY
  {
    SplitSeconds(local % SECS_PER_DAY);
    DayParity(local);
    assert DaysToYear(1970) == 0;
    assert DaysToMonth(TimeToTm(local).year, 1) == 0;
  }

  lemma DayParity(local: int)
    ensures local == local / SECS_PER_DAY * SECS_PER_DAY + local % SECS_PER_DAY
    ensures local % SECS_PER_DAY % 2 == local % 2
  {
    AddEven(local / SECS_PER_DAY * 43200, local % SECS_PER_DAY);
  }

  lemma AddEven(k: int, s: int)
    ensures (2 * k + s) % 2 == s % 2
  {
  }

  lemma SplitSeconds(s: int)
    requires 0 <= s < SECS_PER_DAY
    ensures 0 <= s / SECS_PER_HOUR < 24 && 0 <= s / SECS_PER_MIN % 60 < 60 && 0 <= s % 60 < 60
    ensures s / SECS_PER_HOUR * SECS_PER_HOUR + s / SECS_PER_MIN % 60 * SECS_PER_MIN + s % 60 == s
    ensures s % 60 % 2 == s % 2
  {
    assert s / SECS_PER_HOUR == s / SECS_PER_MIN / 60;
  }

  /** `fat_time_unix2fat`. */
  function Unix2Fat(z: Zone, ts: Timespec): Stamp
    requires 0 <= ts.nsec < 1_000_000_000
  {
    var tm := TimeToTm(ts.sec + ToLocal(z));
    TmRange(ts.sec + ToLocal(z));
    if tm.year < MIN_YEAR then FIRST
    else if tm.year > MAX_YEAR then LAST
    else Pack(tm, ts.sec % 2 * 100 + ts.nsec / NS_PER_CS)
  }

  // ----- the driver's day count is the calendar's ------------------------------------------

  lemma Years1970To1980()
    ensures DaysToYear(1980) == DAYS_DELTA
  {
    assert DaysToYear(1974) == 1461;
    assert DaysToYear(1978) == 1461 + 1461;
  }

  /** The leap-day formula counts the days of 1980 .. 2107, 2100 included. */
  lemma {:induction false} FormulaYears(n: nat)
    requires n <= 128
    ensures DaysToYear(MIN_YEAR + n) == n * 365 + (n + 3) / 4 - (if n > YEAR_2100 then 1 else 0) + DAYS_DELTA
    decreases n
  {
    hide DaysToYear;
    if n == 0 {
      Years1970To1980();
    } else {
      FormulaYears(n - 1);
      NextYear(MIN_YEAR + n - 1);
    }
  }

  lemma FormulaMonths(n: nat, m: int)
    requires n <= 127 && 1 <= m <= 12
    ensures DAYS_IN_YEAR[m] + (if IsLeapYear(n) && m > 2 then 1 else 0) == DaysToMonth(MIN_YEAR + n, m)
  {
    var y := MIN_YEAR + n;
    assert IsLeapYear(n) <==> Leap(y);
    assert DaysToMonth(y, 3) == 31 + MonthDays(y, 2);
    assert DaysToMonth(y, 5) == DaysToMonth(y, 3) + 61;
    assert DaysToMonth(y, 7) == DaysToMonth(y, 5) + 61;
    assert DaysToMonth(y, 9) == DaysToMonth(y, 7) + 62;
    assert DaysToMonth(y, 11) == DaysToMonth(y, 9) + 61;
  }

  lemma DateFields(n: nat, m: int, d: int)
    requires n <= 127 && 1 <= m <= 12 && 1 <= d <= 31
    ensures var date := n * 512 + m * 32 + d;
      0 <= date < 0x1_0000 && date / 512 == n && date / 32 % 16 == m && date % 32 == d
  {
    var date := n * 512 + m * 32 + d;
    assert date / 32 == n * 16 + m;
  }

  lemma TimeFields(h: int, m: int, s: int)
    requires 0 <= h < 24 && 0 <= m < 60 && 0 <= s < 32
    ensures var time := h * 2048 + m * 32 + s;
      0 <= time < 0x1_0000 && time / 2048 == h && time / 32 % 64 == m && time % 32 == s
  {
    var time := h * 2048 + m * 32 + s;
    assert time / 32 == h * 64 + m;
  }

  lemma StampDaysRight(n: nat, m: int, d: int)
    requires n <= 127 && 1 <= m <= 12 && 1 <= d <= 31
    ensures n * 512 + m * 32 + d < 0x1_0000
    ensures StampDays(n * 512 + m * 32 + d) == DayNumber(MIN_YEAR + n, m, d)
  {
    DateFields(n, m, d);
    FormulaYears(n);
    FormulaMonths(n, m);
  }

  // ----- the calendar is one to one --------------------------------------------------------

  lemma {:induction false} YearsMonotone(x: int, y: int)
    requires x < y
    ensures DaysToYear(x) + YearDays(x) <= DaysToYear(y)
    decreases y - x
  {
    NextYear(x);
    if x + 1 < y {
      YearsMonotone(x + 1, y);
    }
  }

  lemma {:induction false} MonthsMonotone(y: int, a: int, b: int)
    requires 1 <= a < b
    ensures DaysToMonth(y, a) + MonthDays(y, a) <= DaysToMonth(y, b)
    decreases b - a
  {
    if a < b - 1 {
      MonthsMonotone(y, a, b - 1);
    }
  }

  lemma InYear(y: int, m: int, d: int)
    requires 1 <= m <= 12 && 1 <= d <= MonthDays(y, m)
    ensures 0 <= DaysToMonth(y, m) + (d - 1) < YearDays(y)
  {
    DecemberLast(y);
    if m < 12 {
      MonthsMonotone(y, m, 12);
    }
    if m > 1 {
      MonthsMonotone(y, 1, m);
    }
  }

  /** A day has one date. */
  lemma DateUnique(y: int, m: int, d: int, y': int, m': int, d': int)
    requires 1 <= m <= 12 && 1 <= d <= MonthDays(y, m) && 1 <= m' <= 12 && 1 <= d' <= MonthDays(y', m')
    requires DayNumber(y, m, d) == DayNumber(y', m', d')
    ensures y == y' && m == m' && d == d'
  {
    InYear(y, m, d);
    InYear(y', m', d');
    if y < y' {
      YearsMonotone(y, y');
    } else if y' < y {
      YearsMonotone(y', y);
    } else if m < m' {
      MonthsMonotone(y, m, m');
    } else if m' < m {
      MonthsMonotone(y, m', m);
    }
  }

  lemma ClockUnique(a: Tm, b: Tm)
    requires ValidTm(a) && ValidTm(b) && SecondOfDay(a) == SecondOfDay(b)
    ensures a.hour == b.hour && a.min == b.min && a.sec == b.sec
  {
  }

  /** `time_to_tm` gives back a date and time of day put together by hand. */
  lemma TimeToTmOf(tm: Tm)
    requires ValidTm(tm)
    ensures TimeToTm(LocalSeconds(tm)) == tm
  {
    var local := LocalSeconds(tm);
    TmRange(local);
    var r := TimeToTm(local);
    DaySplit(DayNumber(tm.year, tm.month, tm.day), SecondOfDay(tm));
    DateUnique(tm.year, tm.month, tm.day, r.year, r.month, r.day);
    ClockUnique(tm, r);
  }

  lemma DaySplit(n: int, s: int)
    requires 0 <= s < SECS_PER_DAY
    ensures (n * SECS_PER_DAY + s) / SECS_PER_DAY == n && (n * SECS_PER_DAY + s) % SECS_PER_DAY == s
  {
  }

  // ----- round trips -----------------------------------------------------------------------

  /** The seconds of a packed stamp, before the centiseconds. */
  lemma PackedSeconds(z: Zone, tm: Tm, cs: nat)
    requires MIN_YEAR <= tm.year <= MAX_YEAR && 1 <= tm.month <= 12 && 1 <= tm.day <= 31
    requires 0 <= tm.hour < 24 && 0 <= tm.min < 60 && 0 <= tm.sec < 60 && cs < 200
    ensures Fat2Unix(z, Pack(tm, cs)) == Timespec(
      DayNumber(tm.year, tm.month, tm.day) * SECS_PER_DAY + tm.hour * SECS_PER_HOUR + tm.min * SECS_PER_MIN
        + (tm.sec - tm.sec % 2) + ToUtc(z) + cs / 100, cs % 100 * NS_PER_CS)
  {
    StampDaysRight(tm.year - MIN_YEAR, tm.month, tm.day);
    TimeFields(tm.hour, tm.min, tm.sec / 2);
  }

  lemma UtcEven(z: Zone)
    ensures ToUtc(z) % 2 == 0
  {
  }

  /** Does the local time lie in the years a stamp can hold? */
  predicate Representable(z: Zone, ts: Timespec) {
    MIN_YEAR <= TimeToTm(Local(z, ts.sec)).year <= MAX_YEAR
  }

  function RoundDown(ts: Timespec): Timespec {
    Timespec(ts.sec, ts.nsec - ts.nsec % NS_PER_CS)
  }

  lemma CsArith(ts: Timespec)
    requires 0 <= ts.nsec < 1_000_000_000
    ensures var cs := ts.sec % 2 * 100 + ts.nsec / NS_PER_CS;
      0 <= cs < 200 && cs / 100 == ts.sec % 2 && cs % 100 * NS_PER_CS == ts.nsec - ts.nsec % NS_PER_CS
  {
  }

  /** A packed local time reads back as the instant it came from, to 10 ms. */
  lemma PackedReadsBack(z: Zone, ts: Timespec, tm: Tm)
    requires 0 <= ts.nsec < 1_000_000_000 && ValidTm(tm) && MIN_YEAR <= tm.year <= MAX_YEAR
    requires LocalSeconds(tm) == ts.sec - ToUtc(z) && tm.sec % 2 == ts.sec % 2
    ensures Fat2Unix(z, Pack(tm, ts.sec % 2 * 100 + ts.nsec / NS_PER_CS)) == RoundDown(ts)
  {
    CsArith(ts);
    PackedSeconds(z, tm, ts.sec % 2 * 100 + ts.nsec / NS_PER_CS);
  }

  lemma SameParity(a: int, z: Zone)
    ensures (a - ToUtc(z)) % 2 == a % 2
  {
    UtcEven(z);
  }

  lemma InRangeRoundTrip(z: Zone, ts: Timespec)
    requires 0 <= ts.nsec < 1_000_000_000 && Representable(z, ts)
    ensures Fat2Unix(z, Unix2Fat(z, ts)) == RoundDown(ts)
  {
    hide Leap, TimeToTm, LocalSeconds, Fat2Unix;
    var local := ts.sec - ToUtc(z);
    TmRange(local);
    SameParity(ts.sec, z);
    PackedReadsBack(z, ts, TimeToTm(local));
  }

  lemma PackedWhole(z: Zone, ts: Timespec, tm: Tm)
    requires ValidTm(tm) && MIN_YEAR <= tm.year <= MAX_YEAR
    requires LocalSeconds(tm) == ts.sec - ToUtc(z) && tm.sec % 2 == ts.sec % 2
    ensures Fat2Unix(z, Pack(tm, 0)) == Timespec(ts.sec - ts.sec % 2, 0)
  {
    PackedSeconds(z, tm, 0);
  }

  /** A caller that stores no centiseconds gets the time back to two seconds. */
  lemma WithoutCentiseconds(z: Zone, ts: Timespec)
    requires 0 <= ts.nsec < 1_000_000_000 && Representable(z, ts)
    ensures Fat2Unix(z, Unix2Fat(z, ts).(cs := 0)) == Timespec(ts.sec - ts.sec % 2, 0)
  {
    hide Leap, TimeToTm, LocalSeconds, Fat2Unix;
    var local := ts.sec - ToUtc(z);
    OffsetsAgree(z, ts.sec);
    TmRange(local);
    SameParity(ts.sec, z);
    assert Unix2Fat(z, ts).(cs := 0) == Pack(TimeToTm(local), 0);
    PackedWhole(z, ts, TimeToTm(local));
  }

  function FirstTm(year: int): Tm { Tm(year, 1, 1, 0, 0, 0) }
  function LastTm(year: int): Tm { Tm(year, 12, 31, 23, 59, 58) }

  predicate IsFirst(s: Stamp, year: int) {
    s.time == 0 && s.date == (year - MIN_YEAR) * 512 + 33 && s.cs == 0
  }

  predicate IsLast(s: Stamp, year: int) {
    s.time == 23 * 2048 + 59 * 32 + 29 && s.date == (year - MIN_YEAR) * 512 + 12 * 32 + 31 && s.cs == 199
  }

  lemma EndDays(first: int, last: int)
    ensures LocalSeconds(FirstTm(first)) == DaysToYear(first) * SECS_PER_DAY
    ensures LocalSeconds(LastTm(last)) == DaysToYear(last + 1) * SECS_PER_DAY - 2
  {
    DecemberLast(last);
    NextYear(last);
    assert DaysToMonth(first, 1) == 0;
  }

  /** Where the two stamps at the ends of the range stand. */
  lemma FirstInstant(z: Zone, first: int, s: Stamp)
    requires MIN_YEAR <= first <= MAX_YEAR && IsFirst(s, first)
    ensures Fat2Unix(z, s).sec == DaysToYear(first) * SECS_PER_DAY + ToUtc(z)
  {
    assert s == Pack(FirstTm(first), 0);
    PackedSeconds(z, FirstTm(first), 0);
    EndDays(first, first);
  }

  lemma LastInstant(z: Zone, last: int, s: Stamp)
    requires MIN_YEAR <= last <= MAX_YEAR && IsLast(s, last)
    ensures Fat2Unix(z, s).sec == DaysToYear(last + 1) * SECS_PER_DAY - 1 + ToUtc(z)
  {
    assert s == Pack(LastTm(last), 199);
    PackedSeconds(z, LastTm(last), 199);
    EndDays(last, last);
  }

  /** A time of another year lies wholly before or after the range. */
  lemma OutOfRange(local: int, tm: Tm, first: int, next: int)
    requires ValidTm(tm) && LocalSeconds(tm) == local && first < next
    ensures tm.year < first ==> local < DaysToYear(first) * SECS_PER_DAY
    ensures tm.year >= next ==> local >= DaysToYear(next) * SECS_PER_DAY
  {
    InYear(tm.year, tm.month, tm.day);
    if tm.year < first {
      YearsMonotone(tm.year, first);
    } else if tm.year > next {
      YearsMonotone(next, tm.year);
    }
  }

  lemma TooEarly(z: Zone, ts: Timespec, tm: Tm, first: int, s: Stamp)
    requires ValidTm(tm) && LocalSeconds(tm) == ts.sec - ToUtc(z) && tm.year < first
    requires MIN_YEAR <= first <= MAX_YEAR && IsFirst(s, first)
    ensures Fat2Unix(z, s).sec > ts.sec
  {
    FirstInstant(z, first, s);
    OutOfRange(ts.sec - ToUtc(z), tm, first, first + 1);
  }

  lemma TooLate(z: Zone, ts: Timespec, tm: Tm, last: int, s: Stamp)
    requires ValidTm(tm) && LocalSeconds(tm) == ts.sec - ToUtc(z) && tm.year > last
    requires MIN_YEAR <= last <= MAX_YEAR && IsLast(s, last)
    ensures Fat2Unix(z, s).sec < ts.sec
  {
    LastInstant(z, last, s);
    OutOfRange(ts.sec - ToUtc(z), tm, last, last + 1);
  }

  lemma StoredAsEnd(z: Zone, ts: Timespec)
    requires 0 <= ts.nsec < 1_000_000_000
    ensures TimeToTm(ts.sec - ToUtc(z)).year < MIN_YEAR ==> IsFirst(Unix2Fat(z, ts), MIN_YEAR)
    ensures TimeToTm(ts.sec - ToUtc(z)).year > MAX_YEAR ==> IsLast(Unix2Fat(z, ts), MAX_YEAR)
  {
    hide TimeToTm;
    OffsetsAgree(z, ts.sec);
  }

  lemma LocalSplit(local: int, tm: Tm)
    requires tm == TimeToTm(local)
    ensures ValidTm(tm) && LocalSeconds(tm) == local
  {
    TmRange(local);
  }

  /** Outside the range the stamp is an end of the range, another instant. */
  lemma Clamped(z: Zone, ts: Timespec, tm: Tm, first: int, last: int, s: Stamp)
    requires ValidTm(tm) && LocalSeconds(tm) == ts.sec - ToUtc(z)
    requires MIN_YEAR <= first <= last <= MAX_YEAR && !(first <= tm.year <= last)
    requires if tm.year < first then IsFirst(s, first) else IsLast(s, last)
    ensures Fat2Unix(z, s).sec != ts.sec
  {
    if tm.year < first {
      TooEarly(z, ts, tm, first, s);
    } else {
      TooLate(z, ts, tm, last, s);
    }
  }

  lemma OutOfRangeTrip(z: Zone, ts: Timespec)
    requires 0 <= ts.nsec < 1_000_000_000 && !Representable(z, ts)
    ensures Fat2Unix(z, Unix2Fat(z, ts)).sec != ts.sec
  {
    hide TimeToTm, LocalSeconds, ValidTm, Fat2Unix, Unix2Fat, ToUtc, ToLocal, Local, IsFirst, IsLast;
    var tm := TimeToTm(ts.sec - ToUtc(z));
    OffsetsAgree(z, ts.sec);
    LocalSplit(ts.sec - ToUtc(z), tm);
    StoredAsEnd(z, ts);
    Clamped(z, ts, tm, MIN_YEAR, MAX_YEAR, Unix2Fat(z, ts));
  }

  /** Storing a time and reading it back rounds down to 10 ms, for any offset, exactly when the
      local year is one a stamp can hold. */
  lemma UnixFatUnix(z: Zone, ts: Timespec)
    requires 0 <= ts.nsec < 1_000_000_000
    ensures Fat2Unix(z, Unix2Fat(z, ts)) == RoundDown(ts) <==> Representable(z, ts)
  {
    if Representable(z, ts) {
      InRangeRoundTrip(z, ts);
    } else {
      OutOfRangeTrip(z, ts);
    }
  }

  /** A stamp whose fields are a real date and time of day. */
  predicate ValidStamp(s: Stamp) {
    var y, m, d := MIN_YEAR + s.date / 512, s.date / 32 % 16, s.date % 32;
    && s.time < 0x1_0000 && s.date < 0x1_0000 && s.cs < 200
    && 1 <= m <= 12 && 1 <= d <= MonthDays(y, m)
    && s.time / 2048 < 24 && s.time / 32 % 64 < 60 && s.time % 32 < 30
  }

  function TmOf(s: Stamp): Tm {
    Tm(MIN_YEAR + s.date / 512, s.date / 32 % 16, s.date % 32, s.time / 2048, s.time / 32 % 64, s.time % 32 * 2)
  }

  lemma PackOf(s: Stamp)
    requires ValidStamp(s)
    ensures MIN_YEAR <= TmOf(s).year <= MAX_YEAR && ValidTm(TmOf(s)) && TmOf(s).sec <= 58 && TmOf(s).sec % 2 == 0
    ensures Pack(TmOf(s), s.cs) == s
  {
    hide MonthDays;
    ThreeFields(s.date / 512, s.date / 32 % 16, s.date % 32, s.date, 16);
    ThreeFields(s.time / 2048, s.time / 32 % 64, s.time % 32, s.time, 64);
  }

  /** A packed field is put together from its three parts. */
  lemma ThreeFields(a: nat, b: nat, c: nat, n: nat, k: nat)
    requires k == 16 || k == 64
    requires a == n / (32 * k) && b == n / 32 % k && c == n % 32
    ensures a * (32 * k) + b * 32 + c == n
  {
    assert n / 32 == n / (32 * k) * k + n / 32 % k;
  }

  lemma OddSecond(tm: Tm, more: int, cs: nat)
    requires ValidTm(tm) && MIN_YEAR <= tm.year <= MAX_YEAR && tm.sec <= 58 && tm.sec % 2 == 0 && 0 <= more <= 1
    ensures ValidTm(tm.(sec := tm.sec + more))
    ensures LocalSeconds(tm.(sec := tm.sec + more)) == LocalSeconds(tm) + more
    ensures Pack(tm.(sec := tm.sec + more), cs) == Pack(tm, cs)
  {
    assert (tm.sec + more) / 2 == tm.sec / 2;
  }

  lemma EvenSeconds(tm: Tm)
    requires tm.sec % 2 == 0
    ensures LocalSeconds(tm) % 2 == 0
  {
    EvenSum(DayNumber(tm.year, tm.month, tm.day), tm.hour, tm.min, tm.sec);
  }

  lemma EvenSum(days: int, hour: int, min: int, sec: int)
    requires sec % 2 == 0
    ensures (days * SECS_PER_DAY + (hour * SECS_PER_HOUR + min * SECS_PER_MIN + sec)) % 2 == 0
  {
    assert sec == 2 * (sec / 2);
    assert days * SECS_PER_DAY + (hour * SECS_PER_HOUR + min * SECS_PER_MIN + sec)
        == 2 * (days * 43200 + hour * 1800 + min * 30 + sec / 2);
  }

  lemma CsBack(cs: nat)
    requires cs < 200
    ensures cs / 100 * 100 + cs % 100 == cs && cs / 100 <= 1 && cs % 100 * NS_PER_CS / NS_PER_CS == cs % 100
    ensures 0 <= cs % 100 * NS_PER_CS < 1_000_000_000
  {
  }

  lemma StampSeconds(z: Zone, s: Stamp)
    requires ValidStamp(s)
    ensures Fat2Unix(z, s) == Timespec(LocalSeconds(TmOf(s)) + s.cs / 100 + ToUtc(z), s.cs % 100 * NS_PER_CS)
  {
    PackOf(s);
    PackedSeconds(z, TmOf(s), s.cs);
  }

  /** Reading a valid stamp and storing it again gives the same stamp. */
  lemma FatUnixFat(z: Zone, s: Stamp)
    requires ValidStamp(s)
    ensures 0 <= Fat2Unix(z, s).nsec < 1_000_000_000
    ensures Unix2Fat(z, Fat2Unix(z, s)) == s
  {
    StampSeconds(z, s);
    CsBack(s.cs);
    StoreBack(z, s, Fat2Unix(z, s), TmOf(s), s.cs / 100);
  }

  lemma EvenPlus(even: int, more: int, sec: int, utc: int)
    requires even % 2 == 0 && utc % 2 == 0 && 0 <= more <= 1 && sec == even + more + utc
    ensures sec % 2 == more
  {
  }

  lemma StoreBack(z: Zone, s: Stamp, ts: Timespec, tm: Tm, more: int)
    requires ValidStamp(s) && tm == TmOf(s) && more == s.cs / 100 && 0 <= more <= 1
    requires ts == Timespec(LocalSeconds(tm) + more + ToUtc(z), s.cs % 100 * NS_PER_CS)
    requires 0 <= ts.nsec < 1_000_000_000 && ts.nsec / NS_PER_CS == s.cs % 100
    ensures Unix2Fat(z, ts) == s
  {
    PackOf(s);
    OddSecond(tm, more, s.cs);
    EvenSeconds(tm);
    UtcEven(z);
    TimeToTmOf(tm.(sec := tm.sec + more));
    assert ts.sec - ToUtc(z) == LocalSeconds(tm.(sec := tm.sec + more));
    EvenPlus(LocalSeconds(tm), more, ts.sec, ToUtc(z));
  }

  // ----- which instant a stamp stands for -----------------------------------------------------

  /** A valid stamp stands for the instant at which local time is what it shows. */
  lemma StampInstant(z: Zone, s: Stamp)
    requires ValidStamp(s)
    ensures Local(z, Fat2Unix(z, s).sec) == LocalSeconds(TmOf(s)) + s.cs / 100
    ensures Fat2Unix(z, s).nsec == s.cs % 100 * NS_PER_CS
  {
    StampSeconds(z, s);
  }

  /** The day, from 1.1.1970, that a date of 16 bits stands for: month and day count from one, and what is
      below that is the first. A month above twelve counts as January, one day later in a leap year. */
  function DayOf(date: nat): int { DayOfFields(1980 + date / 512, date / 32 % 16, date % 32) }

  function DayOfFields(y: int, m: nat, d: nat): int {
    if m == 0 then DayNumber(y, 1, if d == 0 then 1 else d)
    else if m <= 12 then DayNumber(y, m, if d == 0 then 1 else d)
    else DayNumber(y, 1, if d == 0 then 1 else d) + (if Leap(y) then 1 else 0)
  }

  lemma FieldDays(n: nat, m: nat, d: nat)
    requires n <= 127 && m <= 15
    ensures var month := if m < 1 then 1 else m;
      n * 365 + ((n + 3) / 4 - (if n > YEAR_2100 then 1 else 0) + (if IsLeapYear(n) && month > 2 then 1 else 0))
        + DAYS_IN_YEAR[month] + ((if d < 1 then 1 else d) - 1) + DAYS_DELTA
      == DayOfFields(MIN_YEAR + n, m, d)
  {
    hide DaysToYear, DaysToMonth, Leap, IsLeapYear;
    FormulaYears(n);
    if m == 0 || m > 12 {
      FormulaMonths(n, 1);
      LeapIs(n);
    } else {
      FormulaMonths(n, m);
    }
  }

  lemma LeapIs(n: nat)
    requires n <= 127
    ensures IsLeapYear(n) <==> Leap(MIN_YEAR + n)
  {
  }

  lemma StampDaysIs(date: nat)
    requires date < 0x1_0000
    ensures StampDays(date) == DayOf(date)
  {
    hide DayOfFields, IsLeapYear;
    FieldDays(date / 512, date / 32 % 16, date % 32);
  }

  /** The seconds since midnight that a time of 16 bits gives. */
  function Clock(time: nat): nat {
    time / 2048 * 3600 + time / 32 % 64 * 60 + time % 32 * 2
  }

  /** Whatever the fields of a stamp hold, it stands for the local time of that day that its hours,
      minutes, pairs of seconds and centiseconds give. */
  lemma AnyStampInstant(z: Zone, s: Stamp)
    requires s.time < 0x1_0000 && s.date < 0x1_0000 && s.cs < 0x100
    ensures Local(z, Fat2Unix(z, s).sec)
      == DayOf(s.date) * 86400 + Clock(s.time) + s.cs / 100
    ensures Fat2Unix(z, s).nsec == s.cs % 100 * 10_000_000
  {
    hide StampDays, DayOf;
    StampDaysIs(s.date);
    OffsetsAgree(z, Fat2Unix(z, s).sec);
  }

  /** What a stamp shows: a date and time of day to two seconds, the odd second and the rest in the
      centiseconds. */
  predicate Shows(s: Stamp, tm: Tm, cs: nat) {
    ValidStamp(s) && TmOf(s) == tm.(sec := tm.sec - tm.sec % 2) && s.cs == tm.sec % 2 * 100 + cs
  }

  /** The stamp made of a time shows the local date and time of day; outside the range it shows the
      first or the last moment of it. */
  lemma StampShows(z: Zone, ts: Timespec, tm: Tm)
    requires 0 <= ts.nsec < 1_000_000_000 && ValidTm(tm) && LocalSeconds(tm) == Local(z, ts.sec)
    ensures MIN_YEAR <= tm.year <= MAX_YEAR ==> Shows(Unix2Fat(z, ts), tm, ts.nsec / NS_PER_CS)
    ensures tm.year < MIN_YEAR ==> Shows(Unix2Fat(z, ts), Tm(MIN_YEAR, 1, 1, 0, 0, 0), 0)
    ensures tm.year > MAX_YEAR ==> Shows(Unix2Fat(z, ts), Tm(MAX_YEAR, 12, 31, 23, 59, 59), 99)
  {
    hide TimeToTm, LocalSeconds, ValidTm, ToUtc, ToLocal, Local, Pack, Shows, MonthDays;
    TimeToTmOf(tm);
    OffsetsAgree(z, ts.sec);
    SameParity(ts.sec, z);
    TmRange(Local(z, ts.sec));
    CsArith(ts);
    if MIN_YEAR <= tm.year <= MAX_YEAR {
      PackShows(tm, ts.nsec / NS_PER_CS);
    }
    FirstShows();
    LastShows();
  }

  lemma FirstShows()
    ensures Shows(FIRST, Tm(MIN_YEAR, 1, 1, 0, 0, 0), 0)
  {
    assert TmOf(FIRST) == Tm(MIN_YEAR, 1, 1, 0, 0, 0);
  }

  lemma LastShows()
    ensures Shows(LAST, Tm(MAX_YEAR, 12, 31, 23, 59, 59), 99)
  {
    var tm := Tm(MAX_YEAR, 12, 31, 23, 59, 59);
    assert ValidTm(tm) && LAST == Pack(tm, 199);
    PackShows(tm, 99);
  }

  lemma PackShows(tm: Tm, cs: nat)
    requires ValidTm(tm) && MIN_YEAR <= tm.year <= MAX_YEAR && cs < 100
    ensures Shows(Pack(tm, tm.sec % 2 * 100 + cs), tm, cs)
  {
    DateFields(tm.year - MIN_YEAR, tm.month, tm.day);
    TimeFields(tm.hour, tm.min, tm.sec / 2);
  }
}
