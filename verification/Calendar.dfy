/** Day numbers of the Gregorian calendar, counted from 1970-01-01. */
module Calendar {
  datatype Date = Date(year: int, month: nat, day: nat)

  // ------------------------------------------------------------ the calendar itself

  predicate IsLeapYear(year: int) {
    (year % 4 == 0 && year % 100 != 0) || year % 400 == 0
  }

  function DaysInMonth(year: int, month: nat): nat {
    if month < 1 || month > 12 then 0
    else if month == 2 && IsLeapYear(year) then 29
    else [31, 28, 31, 30, 31, 30, 31, 31, 30, 31, 30, 31][month - 1]
  }

  predicate ValidDate(d: Date) {
    1 <= d.month <= 12 && 1 <= d.day <= DaysInMonth(d.year, d.month)
  }

  /** The following day, as a calendar on the wall has it. */
  function NextDay(d: Date): Date
    requires ValidDate(d)
  {
    if d.day < DaysInMonth(d.year, d.month) then Date(d.year, d.month, d.day + 1)
    else if d.month < 12 then Date(d.year, d.month + 1, 1)
    else Date(d.year + 1, 1, 1)
  }

  predicate Before(a: Date, b: Date) {
    || a.year < b.year
    || (a.year == b.year && a.month < b.month)
    || (a.year == b.year && a.month == b.month && a.day < b.day)
  }

  // ------------------------------------------------------------ the conversions

  /** Division of machine integers, rounding toward zero. */
  function Quotient(a: int, b: int): int
    requires b > 0
  {
    if a >= 0 then a / b else -(-a / b)
  }

  lemma FloorByShift(a: int, b: int)
    requires b > 0
    ensures Quotient(if a >= 0 then a else a - (b - 1), b) == a / b
  {
    if a < 0 {
      var q, r := a / b, a % b;
      assert a == q * b + r;
      assert -(a - (b - 1)) == (-q) * b + (b - 1 - r);
      DivideUnique(-(a - (b - 1)), b, -q, b - 1 - r);
    }
  }

  lemma MultipleAtLeast(k: int, b: int)
    requires b > 0 && k >= 1
    ensures k * b >= b
  {
  }

  lemma DivideUnique(n: int, b: int, q: int, r: int)
    requires b > 0 && n == q * b + r && 0 <= r < b
    ensures n / b == q
  {
    var p, s := n / b, n % b;
    assert n == p * b + s;
    assert (p - q) * b == p * b - q * b && (q - p) * b == q * b - p * b;
    if p > q {
      MultipleAtLeast(p - q, b);
    } else if p < q {
      MultipleAtLeast(q - p, b);
    }
  }

  /** Months counted from March. */
  function MonthIndex(month: nat): nat {
    if month > 2 then month - 3 else month + 9
  }

  function MonthStart(index: nat): nat {
    (153 * index + 2) / 5
  }

  function YearStart(yearOfEra: nat): int {
    yearOfEra * 365 + yearOfEra / 4 - yearOfEra / 100
  }

  /** The year that began last March. */
  function MarchYear(d: Date): int {
    if d.month <= 2 then d.year - 1 else d.year
  }

  function DaysFromCivil(d: Date): int {
    var y := MarchYear(d);
    var era := Quotient(if y >= 0 then y else y - 399, 400);
    var yearOfEra := y - era * 400;
    FloorByShift(y, 400);
    var dayOfYear := MonthStart(MonthIndex(d.month)) + d.day - 1;
    era * 146097 + YearStart(yearOfEra) + dayOfYear - 719468
  }

  function YearOfEra(dayOfEra: nat): nat {
    (dayOfEra - dayOfEra / 1460 + dayOfEra / 36524 - dayOfEra / 146096) / 365
  }

  function CivilFromDays(number: int): Date {
    var z := number + 719468;
    var era := Quotient(if z >= 0 then z else z - 146096, 146097);
    FloorByShift(z, 146097);
    var dayOfEra: nat := z - era * 146097;
    var yearOfEra := YearOfEra(dayOfEra);
    DayOfYearIsNatural(dayOfEra);
    var dayOfYear: nat := dayOfEra - YearStart(yearOfEra);
    var index := (5 * dayOfYear + 2) / 153;
    DayOfMonthIsNatural(dayOfYear);
    var day: nat := dayOfYear - MonthStart(index) + 1;
    var month: nat := if index < 10 then index + 3 else index - 9;
    Date(yearOfEra + era * 400 + (if month <= 2 then 1 else 0), month, day)
  }

  // ------------------------------------------------------------ days within an era

  /** The last day of February is day 365 of its March-based year when the next civil year is leap. */
  predicate LongYear(century: nat, quad: nat, rest: nat) {
    rest == 3 && (quad < 24 || century == 3)
  }

  /** The year is recovered from the day of the era: `century`, `quad` and `rest` count the hundreds,
      the fours and the single years. */
  lemma YearRecovered(century: nat, quad: nat, rest: nat, day: nat)
    requires century <= 3 && quad <= 24 && rest <= 3
    requires day <= 364 || (day == 365 && LongYear(century, quad, rest))
    ensures var y := 100 * century + 4 * quad + rest;
            var n := 36524 * century + 1461 * quad + 365 * rest + day;
            YearStart(y) == n - day && YearOfEra(n) == y
  {
    var y := 100 * century + 4 * quad + rest;
    var n := 36524 * century + 1461 * quad + 365 * rest + day;
    YearStartOf(century, quad, rest);
    var s := 24 * century + quad + 365 * rest + day;
    assert n == 1460 * (25 * century + quad) + s;
    var carry := if s >= 1460 then 1 else 0;
    assert n / 1460 == 25 * century + quad + carry;
    var last := if n == 146096 then 1 else 0;
    CenturyOf(century, quad, rest, day);
    assert n - n / 1460 + n / 36524 - n / 146096 == 365 * y + (day - carry);
  }

  lemma YearStartOf(century: nat, quad: nat, rest: nat)
    requires century <= 3 && quad <= 24 && rest <= 3
    ensures YearStart(100 * century + 4 * quad + rest) == 36524 * century + 1461 * quad + 365 * rest
  {
    var y := 100 * century + 4 * quad + rest;
    assert y / 4 == 25 * century + quad;
    assert y / 100 == century;
  }

  lemma CenturyOf(century: nat, quad: nat, rest: nat, day: nat)
    requires century <= 3 && quad <= 24 && rest <= 3
    requires day <= 364 || (day == 365 && LongYear(century, quad, rest))
    ensures var n := 36524 * century + 1461 * quad + 365 * rest + day;
            n / 36524 - n / 146096 == century
  {
  }

  /** Every day of the era lies in one such year. */
  lemma DayOfEraSplit(n: nat) returns (century: nat, quad: nat, rest: nat, day: nat)
    requires n < 146097
    ensures century <= 3 && quad <= 24 && rest <= 3
    ensures day <= 364 || (day == 365 && LongYear(century, quad, rest))
    ensures n == 36524 * century + 1461 * quad + 365 * rest + day
  {
    century := if n / 36524 > 3 then 3 else n / 36524;
    var c := n - 36524 * century;
    quad := c / 1461;
    var q := c - 1461 * quad;
    rest := if q / 365 > 3 then 3 else q / 365;
    day := q - 365 * rest;
  }

  lemma DayOfYearIsNatural(n: nat)
    requires n < 146097
    ensures YearOfEra(n) < 400 && 0 <= n - YearStart(YearOfEra(n)) <= 365
  {
    var century, quad, rest, day := DayOfEraSplit(n);
    YearRecovered(century, quad, rest, day);
  }

  lemma DayOfMonthIsNatural(day: nat)
    requires day <= 365
    ensures var index := (5 * day + 2) / 153;
            && index <= 11 && MonthStart(index) <= day
            && (index <= 10 ==> day < MonthStart(index + 1))
            && (index == 11 ==> day - MonthStart(index) <= 28)
  {
  }

  /** The five-month pattern gives every month its length. */
  lemma MonthLengths(month: nat, year: int)
    requires 1 <= month <= 12
    ensures var index := MonthIndex(month);
            && index <= 11
            && (index <= 10 ==> MonthStart(index + 1) - MonthStart(index) == DaysInMonth(year, month))
            && (index == 11 ==> month == 2 && MonthStart(11) == 337)
  {
  }

  // ------------------------------------------------------------ the two directions

  /** The day number as one sum with floor divisions. */
  lemma ClosedForm(d: Date)
    ensures var y := MarchYear(d);
            DaysFromCivil(d) ==
              365 * y + y / 4 - y / 100 + y / 400 + MonthStart(MonthIndex(d.month)) + d.day - 1 - 719468
  {
    var y := MarchYear(d);
    FloorByShift(y, 400);
    EraSum(y);
  }

  lemma EraSum(y: int)
    ensures var era := y / 400;
            0 <= y - era * 400 < 400 &&
            era * 146097 + YearStart(y - era * 400) == 365 * y + y / 4 - y / 100 + y / 400
  {
    var era := y / 400;
    var r := y - era * 400;
    assert y == 400 * era + r && 0 <= r < 400;
    assert y / 4 == 100 * era + r / 4;
    assert y / 100 == 4 * era + r / 100;
  }

  lemma LongYearIsLeap(year: int, century: nat, quad: nat, rest: nat)
    requires century <= 3 && quad <= 24 && rest <= 3
    requires (year - 1) % 400 == 100 * century + 4 * quad + rest
    ensures LongYear(century, quad, rest) <==> IsLeapYear(year)
  {
    var era := (year - 1) / 400;
    assert year == 400 * era + 100 * century + 4 * quad + rest + 1;
  }

  /** The parts of a converted date. */
  lemma CivilParts(number: int, century: nat, quad: nat, rest: nat, day: nat)
    requires century <= 3 && quad <= 24 && rest <= 3
    requires day <= 364 || (day == 365 && LongYear(century, quad, rest))
    requires (number + 719468) % 146097 == 36524 * century + 1461 * quad + 365 * rest + day
    ensures var d := CivilFromDays(number);
            && 1 <= d.month <= 12
            && MarchYear(d) == 100 * century + 4 * quad + rest + (number + 719468) / 146097 * 400
            && MonthIndex(d.month) == (5 * day + 2) / 153
            && d.day == day - MonthStart(MonthIndex(d.month)) + 1
  {
    hide YearOfEra, YearStart, MonthStart;
    var z := number + 719468;
    FloorByShift(z, 146097);
    YearRecovered(century, quad, rest, day);
    DayOfMonthIsNatural(day);
  }

  lemma CivilIsValid(number: int, century: nat, quad: nat, rest: nat, day: nat)
    requires century <= 3 && quad <= 24 && rest <= 3
    requires day <= 364 || (day == 365 && LongYear(century, quad, rest))
    requires (number + 719468) % 146097 == 36524 * century + 1461 * quad + 365 * rest + day
    ensures ValidDate(CivilFromDays(number))
  {
    hide CivilFromDays;
    CivilParts(number, century, quad, rest, day);
    var d := CivilFromDays(number);
    var y := 100 * century + 4 * quad + rest;
    MonthLengths(d.month, d.year);
    DayOfMonthIsNatural(day);
    EraUnique(MarchYear(d), (number + 719468) / 146097, y);
    if MonthIndex(d.month) == 11 {
      LongYearIsLeap(d.year, century, quad, rest);
    }
  }

  lemma CivilCountsBack(number: int, century: nat, quad: nat, rest: nat, day: nat)
    requires century <= 3 && quad <= 24 && rest <= 3
    requires day <= 364 || (day == 365 && LongYear(century, quad, rest))
    requires (number + 719468) % 146097 == 36524 * century + 1461 * quad + 365 * rest + day
    ensures DaysFromCivil(CivilFromDays(number)) == number
  {
    hide CivilFromDays, DaysFromCivil, YearStart, MonthStart, MonthIndex, LongYear;
    CivilParts(number, century, quad, rest, day);
    var d := CivilFromDays(number);
    var era := (number + 719468) / 146097;
    EraUnique(MarchYear(d), era, 100 * century + 4 * quad + rest);
    DaysByEra(d);
    EraAndDay(number + 719468);
    YearStartOf(century, quad, rest);
  }

  lemma EraAndDay(z: int)
    ensures z == z / 146097 * 146097 + z % 146097
  {
  }

  lemma DaysByEra(d: Date)
    ensures var y := MarchYear(d);
            0 <= y - y / 400 * 400
            && DaysFromCivil(d) ==
               y / 400 * 146097 + YearStart(y - y / 400 * 400) + MonthStart(MonthIndex(d.month)) + d.day - 1 - 719468
  {
    hide YearStart, MonthStart, MonthIndex;
    FloorByShift(MarchYear(d), 400);
  }

  /** Converting a number to a date and back gives the number, and the date is valid. */
  lemma CivilThenDays(number: int)
    ensures ValidDate(CivilFromDays(number)) && DaysFromCivil(CivilFromDays(number)) == number
  {
    hide CivilFromDays, DaysFromCivil;
    var century, quad, rest, day := DayOfEraSplit((number + 719468) % 146097);
    CivilIsValid(number, century, quad, rest, day);
    CivilCountsBack(number, century, quad, rest, day);
  }

  lemma EraUnique(y: int, era: int, rest: nat)
    requires y == era * 400 + rest && rest < 400
    ensures y / 400 == era && y % 400 == rest
  {
  }

  /** Converting a valid date to its number and back gives the date. */
  lemma DaysThenCivil(d: Date)
    requires ValidDate(d)
    ensures CivilFromDays(DaysFromCivil(d)) == d
  {
    CivilThenDays(DaysFromCivil(d));
    OneDatePerNumber(CivilFromDays(DaysFromCivil(d)), d);
  }

  lemma OneDatePerNumber(a: Date, b: Date)
    requires ValidDate(a) && ValidDate(b) && DaysFromCivil(a) == DaysFromCivil(b)
    ensures a == b
  {
    if Before(a, b) {
      EarlierIsSmaller(a, b);
    } else if Before(b, a) {
      EarlierIsSmaller(b, a);
    }
  }

  // ------------------------------------------------------------ order and succession

  function YearDays(y: int): int {
    365 * y + y / 4 - y / 100 + y / 400
  }

  lemma YearDaysStep(y: int)
    ensures YearDays(y + 1) == YearDays(y) + (if IsLeapYear(y + 1) then 366 else 365)
  {
    StepDivide(y, 4);
    StepDivide(y, 100);
    StepDivide(y, 400);
    LeapDivisors(y + 1);
  }

  lemma StepDivide(y: int, b: int)
    requires b > 1
    ensures (y + 1) / b == y / b + (if (y + 1) % b == 0 then 1 else 0)
  {
    var q, r := y / b, y % b;
    assert y == q * b + r;
    if r == b - 1 {
      assert y + 1 == (q + 1) * b + 0;
      DivideUnique(y + 1, b, q + 1, 0);
      ModulusUnique(y + 1, b, q + 1, 0);
    } else {
      DivideUnique(y + 1, b, q, r + 1);
      ModulusUnique(y + 1, b, q, r + 1);
    }
  }

  lemma ModulusUnique(n: int, b: int, q: int, r: int)
    requires b > 0 && n == q * b + r && 0 <= r < b
    ensures n % b == r
  {
    DivideUnique(n, b, q, r);
    assert n == (n / b) * b + n % b;
  }

  lemma LeapDivisors(year: int)
    ensures year % 400 == 0 ==> year % 100 == 0
    ensures year % 100 == 0 ==> year % 4 == 0
  {
  }

  lemma {:induction false} YearDaysGrow(a: int, b: int)
    requires a <= b
    ensures YearDays(b) >= YearDays(a)
    decreases b - a
  {
    hide YearDays;
    if a < b {
      YearDaysGrow(a, b - 1);
      YearDaysStep(b - 1);
    }
  }

  /** The number of days since the last first of March. */
  function DayOfYear(d: Date): int {
    MonthStart(MonthIndex(d.month)) + d.day - 1
  }

  lemma DayOfYearBounds(d: Date)
    requires ValidDate(d)
    ensures 0 <= DayOfYear(d) < if IsLeapYear(MarchYear(d) + 1) then 366 else 365
  {
    MonthLengths(d.month, d.year);
  }

  lemma SameYearOrder(a: Date, b: Date)
    requires ValidDate(a) && ValidDate(b) && MarchYear(a) == MarchYear(b) && Before(a, b)
    ensures DayOfYear(a) < DayOfYear(b)
  {
    MonthLengths(a.month, a.year);
  }

  /** Day numbers are strictly monotone. */
  lemma EarlierIsSmaller(a: Date, b: Date)
    requires ValidDate(a) && ValidDate(b) && Before(a, b)
    ensures DaysFromCivil(a) < DaysFromCivil(b)
  {
    hide DaysFromCivil, DayOfYear;
    DaysAsYearAndDay(a);
    DaysAsYearAndDay(b);
    DayOfYearBounds(a);
    DayOfYearBounds(b);
    if MarchYear(a) == MarchYear(b) {
      SameYearOrder(a, b);
    } else {
      YearDaysStep(MarchYear(a));
      YearDaysGrow(MarchYear(a) + 1, MarchYear(b));
    }
  }

  lemma DaysAsYearAndDay(d: Date)
    ensures DaysFromCivil(d) == YearDays(MarchYear(d)) + DayOfYear(d) - 719468
  {
    ClosedForm(d);
  }

  /** The day number is the count of days: zero on the first day of 1970, and one more every next day. */
  lemma CountsDays(d: Date)
    requires ValidDate(d)
    ensures DaysFromCivil(Date(1970, 1, 1)) == 0
    ensures ValidDate(NextDay(d)) && DaysFromCivil(NextDay(d)) == DaysFromCivil(d) + 1
  {
    hide DaysFromCivil, YearDays;
    EpochIsZero();
    DaysAsYearAndDay(d);
    DaysAsYearAndDay(NextDay(d));
    MonthLengths(d.month, d.year);
    YearDaysStep(MarchYear(d));
  }

  lemma EpochIsZero()
    ensures DaysFromCivil(Date(1970, 1, 1)) == 0
  {
    ClosedForm(Date(1970, 1, 1));
  }

  /** The same month and day in an earlier year have a smaller number, whether they exist or not. */
  lemma EarlierYearIsSmaller(d: Date, years: nat)
    requires years > 0
    ensures DaysFromCivil(Date(d.year - years, d.month, d.day)) < DaysFromCivil(d)
  {
    hide DaysFromCivil;
    ClosedForm(d);
    ClosedForm(Date(d.year - years, d.month, d.day));
    FloorSumGrows(MarchYear(d) - years, years);
  }

  lemma FloorSumGrows(y: int, years: nat)
    requires years > 0
    ensures var z := y + years;
            365 * y + y / 4 - y / 100 + y / 400 < 365 * z + z / 4 - z / 100 + z / 400
  {
  }
}
