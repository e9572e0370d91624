/** Weekdays, the last Sunday of a month, and daylight saving time in Warsaw. */
module WarsawTime {
  import opened Calendar
  import opened ClockTime
  import opened Octets

  /** Zeller's congruence over 16-bit years; 0 is Sunday. */
  function DayOfWeek(year: u16, month: nat, day: nat): nat {
    if month < 3 then Congruence((year - 1) % 0x1_0000, month + 12, day) else Congruence(year, month, day)
  }

  function Congruence(year: u16, month: nat, day: nat): nat {
    var k, j := year % 100, year / 100;
    var h := (day + 13 * (month + 1) / 5 + k + k / 4 + j / 4 + 5 * j) % 7;
    (h + 6) % 7
  }

  /** The weekday counted from the day number; the epoch was a Thursday. */
  function Weekday(number: int): nat {
    (number + 4) % 7
  }

  function LastSunday(year: u16, month: nat): int {
    var lastDay := DaysInMonth(year, month);
    lastDay - DayOfWeek(year, month, lastDay)
  }

  predicate IsDst(utc: LocalTime) {
    if utc.month < 3 || utc.month > 10 then false
    else if 3 < utc.month < 10 then true
    else if utc.month == 3 then
      var transitionDay := LastSunday(utc.year, 3);
      if utc.day > transitionDay then true
      else if utc.day < transitionDay then false
      else utc.hour >= 1
    else
      var transitionDay := LastSunday(utc.year, 10);
      if utc.day < transitionDay then true
      else if utc.day > transitionDay then false
      else utc.hour < 1
  }

  // ------------------------------------------------------------ Zeller's congruence

  lemma CenturySum(y: nat)
    ensures var k, j := y % 100, y / 100;
            365 * y + y / 4 - y / 100 + y / 400 == 36524 * j + 365 * k + k / 4 + j / 4
  {
    var k, j := y % 100, y / 100;
    assert y == 100 * j + k;
    assert y / 4 == 25 * j + k / 4;
    assert y / 400 == j / 4;
  }

  lemma MonthSum(month: nat)
    requires 1 <= month <= 12
    ensures var m := if month < 3 then month + 12 else month;
            var index := MonthIndex(month);
            && 13 * (m + 1) / 5 == 2 * index + (3 * index + 2) / 5 + 10
            && MonthStart(index) == 30 * index + (3 * index + 2) / 5
  {
  }

  lemma SameRemainder(a: int, b: int, q: int)
    requires b == a + 7 * q
    ensures a % 7 == b % 7
  {
  }

  lemma NestedRemainder(s: nat)
    ensures (s % 7 + 6) % 7 == (s + 6) % 7
  {
  }

  /** The congruence gives the weekday of the day `day` of a month in the March-based year `y`. */
  lemma CongruenceIsWeekday(y: u16, month: nat, day: nat)
    requires 1 <= month <= 12
    ensures Congruence(y, if month < 3 then month + 12 else month, day) ==
            Weekday(YearDays(y) + MonthStart(MonthIndex(month)) + day - 1 - 719468)
  {
    hide MonthStart, MonthIndex;
    var m := if month < 3 then month + 12 else month;
    var k, j, index := y % 100, y / 100, MonthIndex(month);
    CenturySum(y);
    MonthSum(month);
    var f := (3 * index + 2) / 5;
    var sum := day + 13 * (m + 1) / 5 + k + k / 4 + j / 4 + 5 * j;
    var days := 36524 * j + 365 * k + k / 4 + j / 4 + 30 * index + f + day - 1 - 719468;
    assert days + 4 == sum + 6 + 7 * (5217 * j + 52 * k + 4 * index - 102783);
    SameRemainder(sum + 6, days + 4, 5217 * j + 52 * k + 4 * index - 102783);
    NestedRemainder(sum);
  }

  /** Zeller's weekday is the day number's weekday for every valid date, except in January and
      February of the year 0, where the 16-bit year wraps. */
  lemma ZellerExact(year: u16, month: nat, day: nat)
    requires ValidDate(Date(year, month, day))
    ensures DayOfWeek(year, month, day) == Weekday(DaysFromCivil(Date(year, month, day)))
            <==> !(year == 0 && month < 3)
  {
    hide DaysFromCivil, ValidDate, MonthStart, MonthIndex, YearDays, Congruence;
    var d := Date(year, month, day);
    DaysAsYearAndDay(d);
    MonthInRange(d);
    var y: u16 := if month < 3 then (year - 1) % 0x1_0000 else year;
    CongruenceIsWeekday(y, month, day);
    if year == 0 && month < 3 {
      WrappedYear(MonthStart(MonthIndex(month)) + day);
    }
  }

  lemma MonthInRange(d: Date)
    requires ValidDate(d)
    ensures 1 <= d.month <= 12
  {
  }

  /** The wrapped year 65535 begins on another weekday than the year -1. */
  lemma WrappedYear(x: int)
    ensures Weekday(YearDays(65535) + x - 1 - 719468) != Weekday(YearDays(-1) + x - 1 - 719468)
  {
    assert YearDays(65535) == 23936166 && YearDays(-1) == -366 by {
      assert -1 / 4 == -1 && -1 / 100 == -1 && -1 / 400 == -1;
    }
  }

  // ------------------------------------------------------------ the last Sunday

  predicate IsSunday(d: Date) {
    Weekday(DaysFromCivil(d)) == 0
  }

  lemma DaysWithinMonth(year: int, month: nat, a: nat, b: nat)
    ensures DaysFromCivil(Date(year, month, b)) == DaysFromCivil(Date(year, month, a)) + b - a
  {
    hide DaysFromCivil;
    ClosedForm(Date(year, month, a));
    ClosedForm(Date(year, month, b));
  }

  /** The last Sunday is the one Sunday among the month's last seven days. */
  lemma LastSundayExact(year: u16, month: nat)
    requires 1 <= month <= 12 && !(year == 0 && month < 3)
    ensures var last := DaysInMonth(year, month);
            var s := LastSunday(year, month);
            && last - 7 < s <= last && s >= 1
            && IsSunday(Date(year, month, s))
            && (forall day: nat :: last - 7 < day <= last && IsSunday(Date(year, month, day)) ==> day == s)
  {
    hide DaysFromCivil, DayOfWeek;
    var last := DaysInMonth(year, month);
    ZellerExact(year, month, last);
    var s := LastSunday(year, month);
    forall day: nat | last - 7 < day <= last
      ensures IsSunday(Date(year, month, day)) <==> day == s
    {
      DaysWithinMonth(year, month, day, last);
    }
  }

  // ------------------------------------------------------------ daylight saving time

  /** One o'clock UTC on the last Sunday of a month. */
  function Transition(year: u16, month: nat): int
    requires 1 <= month <= 12
  {
    DaysFromCivil(Date(year, month, if LastSunday(year, month) >= 0 then LastSunday(year, month) else 0)) * 86400 + 3600
  }

  lemma DayOrder(a: LocalTime, d: Date, hour: nat)
    requires Proper(a) && ValidDate(d) && hour < 24
    ensures Before(DateOf(a), d) ==> Epoch(a) < DaysFromCivil(d) * 86400 + hour * 3600
    ensures Before(d, DateOf(a)) ==> Epoch(a) >= DaysFromCivil(d) * 86400 + hour * 3600
    ensures DateOf(a) == d ==> (Epoch(a) >= DaysFromCivil(d) * 86400 + hour * 3600 <==> a.hour >= hour)
  {
    hide DaysFromCivil, ValidDate;
    SecondBounds(a);
    if Before(DateOf(a), d) {
      EarlierIsSmaller(DateOf(a), d);
    } else if Before(d, DateOf(a)) {
      EarlierIsSmaller(d, DateOf(a));
    }
  }

  /** Summer time holds exactly from one o'clock UTC on the last Sunday of March up to one o'clock
      UTC on the last Sunday of October. */
  lemma DstInterval(utc: LocalTime)
    requires Proper(utc)
    ensures IsDst(utc) <==> Transition(utc.year, 3) <= Epoch(utc) < Transition(utc.year, 10)
  {
    hide DaysFromCivil, LastSunday, Epoch;
    LastSundayExact(utc.year, 3);
    LastSundayExact(utc.year, 10);
    DayOrder(utc, Date(utc.year, 3, LastSunday(utc.year, 3)), 1);
    DayOrder(utc, Date(utc.year, 10, LastSunday(utc.year, 10)), 1);
  }

  // ------------------------------------------------------------ conversion

  /** The offset that Warsaw has at this instant, in seconds. */
  function Offset(utc: LocalTime): nat {
    if Transition(utc.year, 3) <= Epoch(utc) < Transition(utc.year, 10) then 7200 else 3600
  }

  /** Warsaw time is UTC plus one hour, or two while summer time holds, as long as the year fits. */
  method ConvertUtcToWarsaw(utc: LocalTime) returns (local: LocalTime)
    requires utc.valid ==> Proper(utc)
    ensures !utc.valid ==> local == NO_TIME
    ensures utc.valid ==>
              && local.valid && Proper(local) && local.minuteOfDay == local.hour * 60 + local.minute
              && (Epoch(local) == Epoch(utc) + Offset(utc) <==> YearFits(utc, Offset(utc)))
  {
    hide ValidDate, Epoch, Transition, IsDst, YearFits;
    if !utc.valid {
      return NO_TIME;
    }
    DstInterval(utc);
    var dst := IsDst(utc);
    var offsetMinutes := if dst then 120 else 60;
    local := AddMinutes(utc, offsetMinutes);
    local := local.(valid := true);
    SameEpoch(local);
  }

  lemma SameEpoch(t: LocalTime)
    ensures Epoch(t.(valid := true)) == Epoch(t)
  {
  }
}
