/** Wall-clock times over the calendar: seconds added to a cached reading, the one-second carry of
    the clock chip, and the conversion from UTC to Warsaw time. */
module ClockTime {
  import opened Calendar
  import opened Octets

  datatype LocalTime = LocalTime(
    valid: bool, year: u16, month: nat, day: nat, hour: nat, minute: nat, second: nat, minuteOfDay: nat)

  const NO_TIME := LocalTime(false, 0, 0, 0, 0, 0, 0, 0)

  function DateOf(t: LocalTime): Date {
    Date(t.year, t.month, t.day)
  }

  /** A date that exists and a time of day. */
  predicate Proper(t: LocalTime) {
    ValidDate(DateOf(t)) && t.hour < 24 && t.minute < 60 && t.second < 60
  }

  function SecondOfDay(t: LocalTime): nat {
    t.hour * 3600 + t.minute * 60 + t.second
  }

  /** Seconds since 1970-01-01 00:00. */
  function Epoch(t: LocalTime): int {
    DaysFromCivil(DateOf(t)) * 86400 + SecondOfDay(t)
  }

  /** An instant has one proper rendering. */
  lemma EpochInjective(a: LocalTime, b: LocalTime)
    requires Proper(a) && Proper(b) && Epoch(a) == Epoch(b)
    ensures DateOf(a) == DateOf(b) && a.hour == b.hour && a.minute == b.minute && a.second == b.second
  {
    hide DaysFromCivil, ValidDate;
    SecondBounds(a);
    SecondBounds(b);
    assert DaysFromCivil(DateOf(a)) == DaysFromCivil(DateOf(b));
    DaysThenCivil(DateOf(a));
    DaysThenCivil(DateOf(b));
  }

  lemma SecondBounds(t: LocalTime)
    requires t.hour < 24 && t.minute < 60 && t.second < 60
    ensures SecondOfDay(t) < 86400
  {
  }

  // ------------------------------------------------------------ adding seconds

  function AddSeconds(base: LocalTime, secondsToAdd: u32): LocalTime {
    if !base.valid then NO_TIME
    else
      var total := (SecondOfDay(base) + secondsToAdd) % 0x1_0000_0000;
      var second := total % 86400;
      var date := CivilFromDays(DaysFromCivil(DateOf(base)) + total / 86400);
      LocalTime(true, date.year % 0x1_0000, date.month, date.day, second / 3600, second % 3600 / 60, second % 60,
                second / 3600 * 60 + second % 3600 / 60)
  }

  /** The date lands in the years a time can name. */
  predicate YearFits(base: LocalTime, seconds: int) {
    0 <= CivilFromDays((Epoch(base) + seconds) / 86400).year < 0x1_0000
  }

  /** A time shown with the year cut to 16 bits: it is right exactly when the year fits, and
      otherwise it lies in the past. */
  lemma ShownWithYear(base: LocalTime, moved: int, date: Date, shown: LocalTime)
    requires ValidDate(date) && date.year >= 0 && SecondOfDay(shown) < 86400
    requires DaysFromCivil(date) * 86400 + SecondOfDay(shown) == Epoch(base) + moved
    requires DateOf(shown) == Date(date.year % 0x1_0000, date.month, date.day)
    ensures if YearFits(base, moved) then DateOf(shown) == date && Epoch(shown) == Epoch(base) + moved
            else Epoch(shown) < Epoch(base) + moved
  {
    hide DaysFromCivil, CivilFromDays, ValidDate;
    DaysThenCivil(date);
    assert (Epoch(base) + moved) / 86400 == DaysFromCivil(date);
    if date.year >= 0x1_0000 {
      EarlierYearIsSmaller(date, date.year - date.year % 0x1_0000);
    }
  }

  lemma LaterYear(d: Date, number: int)
    requires ValidDate(d) && DaysFromCivil(d) <= number
    ensures d.year <= CivilFromDays(number).year
  {
    hide DaysFromCivil, CivilFromDays, ValidDate;
    CivilThenDays(number);
    if CivilFromDays(number).year < d.year {
      EarlierIsSmaller(CivilFromDays(number), d);
    }
  }

  /** Adding seconds moves the epoch count by exactly that many seconds if and only if the 32-bit sum
      of the seconds does not overflow and the year still fits; an overflow costs 2^32 seconds. */
  lemma AddSecondsMoves(base: LocalTime, n: u32)
    requires base.valid && Proper(base)
    ensures var r := AddSeconds(base, n);
            var moved := (SecondOfDay(base) + n) % 0x1_0000_0000 - SecondOfDay(base);
            && r.valid && r.minuteOfDay == r.hour * 60 + r.minute
            && (YearFits(base, moved) ==> Proper(r) && Epoch(r) == Epoch(base) + moved)
            && (Epoch(r) == Epoch(base) + n <==> SecondOfDay(base) + n < 0x1_0000_0000 && YearFits(base, n))
  {
    hide DaysFromCivil, CivilFromDays, ValidDate, YearFits;
    SecondBounds(base);
    var sum := SecondOfDay(base) + n;
    var total := sum % 0x1_0000_0000;
    assert total == if sum < 0x1_0000_0000 then sum else sum - 0x1_0000_0000;
    var number := DaysFromCivil(DateOf(base)) + total / 86400;
    CivilThenDays(number);
    LaterYear(DateOf(base), number);
    ClockParts(total % 86400);
    ShownWithYear(base, total - SecondOfDay(base), CivilFromDays(number), AddSeconds(base, n));
  }

  lemma ClockParts(second: nat)
    requires second < 86400
    ensures second / 3600 < 24 && second % 3600 / 60 < 60 && second % 60 < 60
    ensures second / 3600 * 3600 + second % 3600 / 60 * 60 + second % 60 == second
  {
  }

  /** Inputs at which it fails: the last second of the last year, and a sum past 32 bits. */
  lemma FailingSums()
    ensures var last := LocalTime(true, 65535, 12, 31, 23, 59, 59, 1439);
            Proper(last) && Epoch(AddSeconds(last, 1)) != Epoch(last) + 1
    ensures var noon := LocalTime(true, 2024, 1, 1, 12, 0, 0, 720);
            Proper(noon) && Epoch(AddSeconds(noon, 0xFFFF_FFFF)) != Epoch(noon) + 0xFFFF_FFFF
  {
    hide DaysFromCivil, CivilFromDays, AddSeconds;
    var last := LocalTime(true, 65535, 12, 31, 23, 59, 59, 1439);
    var noon := LocalTime(true, 2024, 1, 1, 12, 0, 0, 720);
    CountsDays(DateOf(last));
    DaysThenCivil(Date(65536, 1, 1));
    assert (Epoch(last) + 1) / 86400 == DaysFromCivil(Date(65536, 1, 1));
    AddSecondsMoves(last, 1);
    AddSecondsMoves(noon, 0xFFFF_FFFF);
  }

  /** Any proper time that many seconds later is the one AddSeconds shows. */
  lemma AgreesWithAddSeconds(base: LocalTime, n: u32, later: LocalTime)
    requires base.valid && Proper(base) && SecondOfDay(base) + n < 0x1_0000_0000
    requires Proper(later) && Epoch(later) == Epoch(base) + n
    ensures var r := AddSeconds(base, n);
            DateOf(later) == DateOf(r) && later.hour == r.hour && later.minute == r.minute && later.second == r.second
  {
    hide AddSeconds, Epoch, ValidDate, YearFits;
    ProperFits(base, n, later);
    AddSecondsMoves(base, n);
    EpochInjective(later, AddSeconds(base, n));
  }

  lemma ProperFits(base: LocalTime, seconds: int, later: LocalTime)
    requires Proper(later) && Epoch(later) == Epoch(base) + seconds
    ensures YearFits(base, seconds)
  {
    hide DaysFromCivil, CivilFromDays, ValidDate;
    SecondBounds(later);
    DaysThenCivil(DateOf(later));
  }

  // ------------------------------------------------------------ the resilient clock

  /** What the clock chip and the network may hand over. */
  predicate IsValidUtc(t: LocalTime) {
    2000 <= t.year <= 2199 && Proper(t)
  }

  /** Less than fifty days after a valid reading the year still fits. */
  lemma SoonFits(t: LocalTime, seconds: nat)
    requires IsValidUtc(t) && seconds < 50 * 86400
    ensures YearFits(t, seconds)
  {
    hide DaysFromCivil, CivilFromDays, ValidDate, DaysInMonth;
    var number := (Epoch(t) + seconds) / 86400;
    SecondBounds(t);
    var d := CivilFromDays(number);
    CivilThenDays(number);
    assert DaysFromCivil(DateOf(t)) <= number <= DaysFromCivil(DateOf(t)) + 51;
    var low, high, last := Date(1999, 1, 1), Date(2300, 1, 1), Date(2200, 1, 1);
    YearBounds();
    EarlierIsSmaller(low, DateOf(t));
    EarlierIsSmaller(DateOf(t), last);
    if d.year < 0 {
      EarlierIsSmaller(d, low);
    } else if d.year >= 0x1_0000 {
      EarlierIsSmaller(high, d);
    }
  }

  lemma YearBounds()
    ensures ValidDate(Date(1999, 1, 1)) && ValidDate(Date(2200, 1, 1)) && ValidDate(Date(2300, 1, 1))
    ensures DaysFromCivil(Date(2300, 1, 1)) > DaysFromCivil(Date(2200, 1, 1)) + 51
  {
    hide DaysFromCivil;
    ClosedForm(Date(2300, 1, 1));
    ClosedForm(Date(2200, 1, 1));
  }

  /** A time service that extrapolates from its last reading by a wrapping millisecond counter. */
  class ResilientTimeService {
    var cachedUtc: LocalTime
    var cachedAtMs: u32
    var hasValidCache: bool

    constructor ()
      ensures Valid() && !hasValidCache
    {
      cachedUtc, cachedAtMs, hasValidCache := NO_TIME, 0, false;
    }

    predicate Valid()
      reads this
    {
      hasValidCache ==> cachedUtc.valid && IsValidUtc(cachedUtc)
    }

    method SyncUtc(utc: LocalTime, nowMs: u32)
      requires Valid()
      modifies this
      ensures Valid()
      ensures if utc.valid && 2000 <= utc.year <= 2199 && Proper(utc) then
                hasValidCache && cachedUtc == utc && cachedAtMs == nowMs
              else hasValidCache == old(hasValidCache) && cachedUtc == old(cachedUtc) && cachedAtMs == old(cachedAtMs)
    {
      hide Proper;
      if !utc.valid {
        return;
      }
      if !IsValidUtc(utc) {
        return;
      }
      cachedUtc, cachedAtMs, hasValidCache := utc, nowMs, true;
    }

    /** However the counter has wrapped, the time shown is the cached one plus the whole seconds
        elapsed since: 2^32 milliseconds can never overflow the 32-bit sum of seconds. */
    method Now(nowMs: u32) returns (t: LocalTime)
      requires Valid()
      ensures !hasValidCache ==> t == NO_TIME
      ensures hasValidCache ==>
                t.valid && Proper(t) && Epoch(t) == Epoch(cachedUtc) + (nowMs - cachedAtMs) % 0x1_0000_0000 / 1000
    {
      hide Proper, YearFits, Epoch, SecondOfDay;
      if !hasValidCache {
        return NO_TIME;
      }
      var elapsedMs := (nowMs - cachedAtMs) % 0x1_0000_0000;
      var elapsedSec := elapsedMs / 1000;
      t := AddSeconds(cachedUtc, elapsedSec);
      NowMoves(cachedUtc, elapsedSec);
    }
  }

  lemma NowMoves(t: LocalTime, seconds: nat)
    requires t.valid && IsValidUtc(t) && seconds <= 0xFFFF_FFFF / 1000
    ensures var r := AddSeconds(t, seconds);
            r.valid && Proper(r) && Epoch(r) == Epoch(t) + seconds
  {
    hide ValidDate, YearFits, AddSeconds, Epoch;
    SoonFits(t, seconds);
    SecondBounds(t);
    AddSecondsMoves(t, seconds);
  }

  // ------------------------------------------------------------ one second later

  /** The carry from seconds up to years: one second later exactly when the year fits. */
  method AddOneSecond(value: LocalTime) returns (next: LocalTime)
    requires Proper(value)
    ensures Proper(next) && next.valid == value.valid && next.minuteOfDay == value.minuteOfDay
    ensures Epoch(next) == Epoch(value) + 1 <==> YearFits(value, 1)
  {
    hide DaysFromCivil, YearFits;
    CountsDays(DateOf(value));
    next := value.(second := value.second + 1);
    if next.second <= 59 {
      ShownWithYear(value, 1, DateOf(value), next);
      return;
    }
    next := next.(second := 0, minute := next.minute + 1);
    if next.minute <= 59 {
      ShownWithYear(value, 1, DateOf(value), next);
      return;
    }
    next := next.(minute := 0, hour := next.hour + 1);
    if next.hour <= 23 {
      ShownWithYear(value, 1, DateOf(value), next);
      return;
    }
    next := next.(hour := 0, day := next.day + 1);
    if next.day <= DaysInMonth(next.year, next.month) {
      ShownWithYear(value, 1, NextDay(DateOf(value)), next);
      return;
    }
    next := next.(day := 1, month := next.month + 1);
    if next.month <= 12 {
      ShownWithYear(value, 1, NextDay(DateOf(value)), next);
      return;
    }
    next := next.(month := 1, year := (next.year + 1) % 0x1_0000);
    ShownWithYear(value, 1, NextDay(DateOf(value)), next);
  }

  // ------------------------------------------------------------ adding minutes

  /** Whole days are carried one at a time into the date; the sum is right exactly when it fits
      16 bits, in minutes as in years. */
  method AddMinutes(time: LocalTime, minutesToAdd: u16) returns (next: LocalTime)
    requires Proper(time)
    ensures Proper(next) && next.minuteOfDay == next.hour * 60 + next.minute && next.valid == time.valid
    ensures var minute := time.hour * 60 + time.minute;
            var moved := (minute + minutesToAdd) % 0x1_0000 - minute;
            && (YearFits(time, moved * 60) ==> Epoch(next) == Epoch(time) + moved * 60)
            && (Epoch(next) == Epoch(time) + minutesToAdd * 60 <==>
                  minute + minutesToAdd < 0x1_0000 && YearFits(time, minutesToAdd * 60))
  {
    hide DaysFromCivil, YearFits;
    next := time;
    var totalMinutes: nat := (time.hour * 60 + time.minute + minutesToAdd) % 0x1_0000;
    ghost var start := totalMinutes;
    ghost var days: nat := 0;
    ghost var date := DateOf(time);
    while totalMinutes >= 1440
      invariant totalMinutes == start - 1440 * days
      invariant ValidDate(date) && NearYear(time.year, date, days)
      invariant DaysFromCivil(date) == DaysFromCivil(DateOf(time)) + days
      invariant DateOf(next) == Date(date.year % 0x1_0000, date.month, date.day)
      invariant next.second == time.second && next.valid == time.valid
    {
      CountsDays(date);
      LeapWraps(date.year);
      totalMinutes := totalMinutes - 1440;
      next := next.(day := next.day + 1);
      var maximumDay := DaysInMonth(next.year, next.month);
      if next.day > maximumDay {
        next := next.(day := 1, month := next.month + 1);
        if next.month > 12 {
          next := next.(month := 1, year := (next.year + 1) % 0x1_0000);
        }
      }
      date := NextDay(date);
      days := days + 1;
    }
    next := next.(hour := totalMinutes / 60, minute := totalMinutes % 60);
    next := next.(minuteOfDay := next.hour * 60 + next.minute);
    LeapWraps(date.year);
    MinutesShown(time, minutesToAdd, date, next, totalMinutes);
  }

  /** The first year past 16 bits and year 0 have the same months. */
  lemma LeapWraps(year: int)
    requires 0 <= year <= 0x1_0000
    ensures IsLeapYear(year % 0x1_0000) == IsLeapYear(year)
  {
  }

  lemma MinutesShown(time: LocalTime, minutesToAdd: u16, date: Date, shown: LocalTime, left: nat)
    requires Proper(time) && ValidDate(date) && date.year >= 0 && left < 1440
    requires var start := (time.hour * 60 + time.minute + minutesToAdd) % 0x1_0000;
             && left <= start
             && (DaysFromCivil(date) - DaysFromCivil(DateOf(time))) * 1440 == start - left
    requires DateOf(shown) == Date(date.year % 0x1_0000, date.month, date.day)
    requires shown.hour == left / 60 && shown.minute == left % 60 && shown.second == time.second
    ensures var minute := time.hour * 60 + time.minute;
            var moved := (minute + minutesToAdd) % 0x1_0000 - minute;
            && (YearFits(time, moved * 60) ==> Epoch(shown) == Epoch(time) + moved * 60)
            && (Epoch(shown) == Epoch(time) + minutesToAdd * 60 <==>
                  minute + minutesToAdd < 0x1_0000 && YearFits(time, minutesToAdd * 60))
  {
    hide DaysFromCivil, ValidDate, YearFits;
    var minute := time.hour * 60 + time.minute;
    var start := (minute + minutesToAdd) % 0x1_0000;
    assert start == minute + minutesToAdd - if minute + minutesToAdd < 0x1_0000 then 0 else 0x1_0000;
    ShownWithYear(time, (start - minute) * 60, date, shown);
  }

  /** At most 45 days on, the date is still in `year` or early in the next one. */
  predicate NearYear(year: int, d: Date, days: nat) {
    d.year == year || (d.year == year + 1 && d.month <= 2 && 31 * (d.month - 1) + d.day <= days)
  }
}
