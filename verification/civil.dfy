/** Days since 1970-01-01 to a Gregorian date, and the time stamp of a manifest. */
module Civil {

  datatype Date = Date(year: int, month: int, day: int)

  /** The year of a 400-year era that a day of the era falls in; years start in March. */
  function YearOfEra(doe: int): int {
    (doe - doe / 1460 + doe / 36524 - doe / 146096) / 365
  }

  /** The date of a day of such a year, months counted from March. */
  function DayOfYear(year: int, doy: int): Date {
    var mp := (5 * doy + 2) / 153;
    var month := if mp < 10 then mp + 3 else mp - 9;
    Date(if month <= 2 then year + 1 else year, month, doy - (153 * mp + 2) / 5 + 1)
  }

  /** The date of a day since 1970-01-01. */
  function FromDays(days: int): Date {
    var z := days + 719468;
    var era, doe := z / 146097, z % 146097;
    var yoe := YearOfEra(doe);
    DayOfYear(yoe + era * 400, doe - (365 * yoe + yoe / 4 - yoe / 100))
  }

  // ----- The calendar

  predicate Leap(year: int) {
    year % 4 == 0 && (year % 100 != 0 || year % 400 == 0)
  }

  function DaysIn(year: int, month: int): int {
    if month == 2 then (if Leap(year) then 29 else 28)
    else if month == 4 || month == 6 || month == 9 || month == 11 then 30
    else 31
  }

  predicate Valid(d: Date) {
    1 <= d.month <= 12 && 1 <= d.day <= DaysIn(d.year, d.month)
  }

  /** The next day of the calendar. */
  function Successor(d: Date): Date {
    if d.day < DaysIn(d.year, d.month) then Date(d.year, d.month, d.day + 1)
    else if d.month < 12 then Date(d.year, d.month + 1, 1)
    else Date(d.year + 1, 1, 1)
  }

  /** `n` days after 1970-01-01, counted one by one. */
  function Counted(n: nat): Date {
    if n == 0 then Date(1970, 1, 1) else Successor(Counted(n - 1))
  }

  // ----- The arithmetic agrees with the calendar

  /** Days before the year that starts in March of `y`. */
  function Before(y: int): int {
    365 * y + y / 4 - y / 100 + y / 400
  }

  /** The century, the four years and the day in them that make up a day of an era. */
  lemma EraParts(doe: int) returns (c: int, q: int, s: int)
    requires 0 <= doe < 146096
    ensures 0 <= c <= 3 && 0 <= q <= 24 && 0 <= s <= 1460 && (q == 24 ==> s <= 1459)
    ensures doe == 36524 * c + 1461 * q + s
  {
    c := doe / 36524;
    q := (doe - 36524 * c) / 1461;
    s := doe - 36524 * c - 1461 * q;
  }

  lemma YearOfEraIs(doe: int, c: int, q: int, s: int, k: int)
    requires 0 <= c <= 3 && 0 <= q <= 24 && 0 <= s <= 1460 && (q == 24 ==> s <= 1459)
    requires doe == 36524 * c + 1461 * q + s
    requires k == if s >= 1095 then 3 else s / 365
    ensures YearOfEra(doe) == 100 * c + 4 * q + k
  {
    var e := if 24 * c + q + s >= 1460 then 1 else 0;
    assert doe / 1460 == 25 * c + q + e;
    assert doe / 36524 == c;
    assert doe / 146096 == 0;
    assert doe - doe / 1460 + doe / 36524 - doe / 146096 == 365 * (100 * c + 4 * q) + s - e;
    assert 365 * k <= s - e < 365 * (k + 1);
  }

  lemma BeforeParts(c: int, q: int, k: int)
    requires 0 <= c <= 3 && 0 <= q <= 24 && 0 <= k <= 3
    ensures Before(100 * c + 4 * q + k) == 36524 * c + 1461 * q + 365 * k
  {
    var y := 100 * c + 4 * q + k;
    assert y / 4 == 25 * c + q;
    assert y / 100 == c;
    assert y / 400 == 0;
  }

  /** The year after one made up of these parts starts behind its days. */
  lemma BeforeNextParts(c: int, q: int, s: int, k: int)
    requires 0 <= c <= 3 && 0 <= q <= 24 && 0 <= s <= 1460 && (q == 24 ==> s <= 1459)
    requires k == if s >= 1095 then 3 else s / 365
    ensures 36524 * c + 1461 * q + s < Before(100 * c + 4 * q + k + 1)
    ensures 365 * k <= s
  {
    if k < 3 {
      BeforeParts(c, q, k + 1);
    } else if q < 24 {
      BeforeParts(c, q + 1, 0);
    } else if c < 3 {
      BeforeParts(c + 1, 0, 0);
    }
  }

  lemma YearOfEraFits(doe: int)
    requires 0 <= doe < 146097
    ensures 0 <= YearOfEra(doe) <= 399
    ensures Before(YearOfEra(doe)) <= doe < Before(YearOfEra(doe) + 1)
  {
    if doe < 146096 {
      var c, q, s := EraParts(doe);
      var k := if s >= 1095 then 3 else s / 365;
      YearOfEraIs(doe, c, q, s, k);
      BeforeParts(c, q, k);
      BeforeNextParts(c, q, s, k);
    } else {
      assert YearOfEra(146096) == 399 && Before(399) == 145731 && Before(400) == 146097;
    }
  }

  /** Eras repeat. */
  lemma BeforeEra(era: int, y: int)
    requires 0 <= y <= 400
    ensures Before(400 * era + y) == 146097 * era + Before(y)
  {
    var x := 400 * era + y;
    assert x / 4 == 100 * era + y / 4;
    assert x / 100 == 4 * era + y / 100;
    assert x / 400 == era + y / 400;
  }

  /** The days of a year follow those of the year before. */
  lemma BeforeNext(y: int)
    ensures Before(y + 1) == Before(y) + 365 + if Leap(y + 1) then 1 else 0
  {
    var next := y + 1;
    assert next / 4 == y / 4 + if next % 4 == 0 then 1 else 0;
    assert next / 100 == y / 100 + if next % 100 == 0 then 1 else 0;
    assert next / 400 == y / 400 + if next % 400 == 0 then 1 else 0;
    assert next % 100 == 0 ==> next % 4 == 0;
    assert next % 400 == 0 ==> next % 100 == 0;
  }

  lemma {:induction false} BeforeGrows(a: int, b: int)
    requires a <= b
    ensures Before(a) + 365 * (b - a) <= Before(b)
    decreases b - a
  {
    if a < b {
      BeforeNext(a);
      BeforeGrows(a + 1, b);
    }
  }

  /** `days` is day `doy` of the year that starts in March of `year`. */
  predicate FallsIn(days: int, year: int, doy: int) {
    days + 719468 == Before(year) + doy && 0 <= doy < Before(year + 1) - Before(year)
  }

  lemma FallsInEra(era: int, doe: int, y: int)
    requires 0 <= y <= 399 && Before(y) <= doe < Before(y + 1)
    ensures FallsIn(146097 * era + doe - 719468, 400 * era + y, doe - Before(y))
  {
    BeforeEra(era, y);
    BeforeEra(era, y + 1);
    assert 400 * era + y + 1 == 400 * era + (y + 1);
  }

  lemma SplitDays(z: int, era: int, doe: int)
    requires 0 <= doe < 146097 && z == 146097 * era + doe
    ensures z / 146097 == era && z % 146097 == doe
  {
  }

  lemma EraAndYear(era: int, yoe: int, doe: int)
    requires 0 <= yoe <= 399
    ensures yoe + era * 400 == 400 * era + yoe && doe - (365 * yoe + yoe / 4 - yoe / 100) == doe - Before(yoe)
  {
    assert yoe / 400 == 0;
  }

  lemma FromDaysShape(days: int, era: int, doe: int, yoe: int)
    requires 0 <= doe < 146097 && yoe == YearOfEra(doe) && 0 <= yoe <= 399
    requires days == 146097 * era + doe - 719468
    ensures FromDays(days) == DayOfYear(400 * era + yoe, doe - Before(yoe))
  {
    SplitDays(days + 719468, era, doe);
    EraAndYear(era, yoe, doe);
    FromParts(days, era, doe, yoe, 400 * era + yoe, doe - Before(yoe));
  }

  lemma FromParts(days: int, era: int, doe: int, yoe: int, year: int, doy: int)
    requires (days + 719468) / 146097 == era && (days + 719468) % 146097 == doe && yoe == YearOfEra(doe)
    requires year == yoe + era * 400 && doy == doe - (365 * yoe + yoe / 4 - yoe / 100)
    ensures FromDays(days) == DayOfYear(year, doy)
  {
  }

  lemma FromDaysFallsIn(days: int) returns (year: int, doy: int)
    ensures FallsIn(days, year, doy) && FromDays(days) == DayOfYear(year, doy)
  {
    var z := days + 719468;
    var era, doe := z / 146097, z % 146097;
    assert days == 146097 * era + doe - 719468;
    YearOfEraFits(doe);
    year, doy := 400 * era + YearOfEra(doe), doe - Before(YearOfEra(doe));
    FallsInEra(era, doe, YearOfEra(doe));
    FromDaysShape(days, era, doe, YearOfEra(doe));
  }

  /** Year and day are determined. */
  lemma FallsInOnce(days: int, y: int, i: int, y': int, i': int)
    requires FallsIn(days, y, i) && FallsIn(days, y', i')
    ensures y == y' && i == i'
  {
    if y < y' {
      BeforeGrows(y + 1, y');
    } else if y' < y {
      BeforeGrows(y' + 1, y);
    }
  }

  lemma DayOfYearIsValid(year: int, doy: int)
    requires 0 <= doy <= 364 || (doy == 365 && Leap(year + 1))
    ensures Valid(DayOfYear(year, doy))
  {
  }

  /** Days of the year before its month `mp`, counted from March. */
  function MonthDays(mp: int): int {
    (153 * mp + 2) / 5
  }

  lemma MonthOfDay(doy: int, mp: int)
    ensures MonthDays(mp) <= doy < MonthDays(mp + 1) <==> (5 * doy + 2) / 153 == mp
  {
  }

  lemma MonthLength(year: int, mp: int)
    requires 0 <= mp <= 10
    ensures MonthDays(mp + 1) - MonthDays(mp) == DaysIn(year, if mp < 10 then mp + 3 else mp - 9)
  {
  }

  /** The next day of the same year, or the first of March. */
  lemma DayOfYearSteps(year: int, doy: int)
    requires 0 <= doy < 364 || (doy == 364 && Leap(year + 1))
    ensures DayOfYear(year, doy + 1) == Successor(DayOfYear(year, doy))
  {
    var mp := (5 * doy + 2) / 153;
    MonthOfDay(doy, mp);
    if mp < 11 {
      MonthLength(if mp < 10 then year else year + 1, mp);
      MonthOfDay(doy + 1, if doy + 1 < MonthDays(mp + 1) then mp else mp + 1);
    }
  }

  lemma YearSteps(year: int)
    ensures DayOfYear(year + 1, 0) == Successor(DayOfYear(year, if Leap(year + 1) then 365 else 364))
  {
  }

  /** The day after a day of a year, by its place in the year. */
  lemma NextDayOfYear(days: int, year: int, doy: int, year': int, doy': int)
    requires FallsIn(days, year, doy) && FallsIn(days + 1, year', doy')
    ensures DayOfYear(year', doy') == Successor(DayOfYear(year, doy))
    ensures Valid(DayOfYear(year, doy))
  {
    BeforeNext(year);
    BeforeNext(year + 1);
    DayOfYearIsValid(year, doy);
    if doy + 1 < Before(year + 1) - Before(year) {
      FallsInOnce(days + 1, year', doy', year, doy + 1);
      DayOfYearSteps(year, doy);
    } else {
      FallsInOnce(days + 1, year', doy', year + 1, 0);
      YearSteps(year);
    }
  }

  /** One day later is the calendar's next day. */
  lemma NextDay(days: int)
    ensures FromDays(days + 1) == Successor(FromDays(days))
    ensures Valid(FromDays(days))
  {
    var year, doy := FromDaysFallsIn(days);
    var year', doy' := FromDaysFallsIn(days + 1);
    NextDayOfYear(days, year, doy, year', doy');
  }

  lemma Epoch()
    ensures FromDays(0) == Date(1970, 1, 1)
  {
    assert YearOfEra(135080) == 369 && Before(369) == 134774;
    FromDaysShape(0, 4, 135080, 369);
    assert DayOfYear(1969, 306) == Date(1970, 1, 1);
  }

  /** The arithmetic gives the date that counting days on the calendar gives. */
  lemma {:induction false} FromDaysIsCounted(n: nat)
    ensures FromDays(n) == Counted(n) && Valid(FromDays(n))
  {
    NextDay(n);
    if n == 0 {
      Epoch();
    } else {
      FromDaysIsCounted(n - 1);
      NextDay(n - 1);
    }
  }

  // ----- Day numbers

  function YearDays(year: int): int {
    if Leap(year) then 366 else 365
  }

  /** Days from 1970-01-01 to the first of January. */
  function YearStart(year: int): int
    decreases year
  {
    if year <= 1970 then 0 else YearStart(year - 1) + YearDays(year - 1)
  }

  /** Days from the first of January to the first of the month. */
  function MonthStart(year: int, month: int): int
    decreases month
  {
    if month <= 1 then 0 else MonthStart(year, month - 1) + DaysIn(year, month - 1)
  }

  /** The number of a date: the days of the years and months before it, and its own. */
  function DayNumber(d: Date): int {
    YearStart(d.year) + MonthStart(d.year, d.month) + d.day - 1
  }

  lemma MonthsMakeTheYear(year: int)
    ensures MonthStart(year, 12) + 31 == YearDays(year)
  {
    assert MonthStart(year, 4) == 59 + 31 + if Leap(year) then 1 else 0;
    assert MonthStart(year, 7) == MonthStart(year, 4) + 91;
    assert MonthStart(year, 10) == MonthStart(year, 7) + 92;
  }

  lemma SuccessorCounts(d: Date)
    requires Valid(d) && d.year >= 1970
    ensures DayNumber(Successor(d)) == DayNumber(d) + 1
    ensures Valid(Successor(d)) && Successor(d).year >= 1970
  {
    MonthsMakeTheYear(d.year);
  }

  lemma {:induction false} CountedNumber(n: nat)
    ensures DayNumber(Counted(n)) == n && Valid(Counted(n)) && Counted(n).year >= 1970
  {
    if n > 0 {
      CountedNumber(n - 1);
      SuccessorCounts(Counted(n - 1));
    }
  }

  /** The number of the computed date is the day count it was computed from. */
  lemma DayNumberInverts(n: nat)
    ensures Valid(FromDays(n)) && DayNumber(FromDays(n)) == n
  {
    FromDaysIsCounted(n);
    CountedNumber(n);
  }
}
