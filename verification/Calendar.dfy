/**
  The English calendar of dconv.c: ordinal days and dates, with the changeover of September 1752.
*/
module Calendar {

  // ---------------------------------------------------------------------
  // The calendar
  // ---------------------------------------------------------------------

  datatype Date = Date(y: int, m: int, d: int)

  /** Every fourth year; after 1752 three centuries in four are left out. */
  predicate Leap(y: int) {
    y % 4 == 0 && (y <= 1752 || y % 100 != 0 || y % 400 == 0)
  }

  /** The number of days in a month; September 1752 had 19. */
  function MonthLength(y: int, m: int): (n: int)
    ensures 19 <= n <= 31
  {
    if m == 9 && y == 1752 then 19
    else if m == 2 then (if Leap(y) then 29 else 28)
    else if m == 4 || m == 6 || m == 9 || m == 11 then 30
    else 31
  }

  predicate Valid(t: Date) {
    && t.y >= 1 && 1 <= t.m <= 12 && t.d >= 1
    && if t.y == 1752 && t.m == 9 then t.d <= 2 || 14 <= t.d <= 30 else t.d <= MonthLength(t.y, t.m)
  }

  /** The day after. */
  function Next(t: Date): Date {
    if t == Date(1752, 9, 2) then Date(1752, 9, 14)
    else if t.d < (if t.y == 1752 && t.m == 9 then 30 else MonthLength(t.y, t.m)) then Date(t.y, t.m, t.d + 1)
    else if t.m < 12 then Date(t.y, t.m + 1, 1)
    else Date(t.y + 1, 1, 1)
  }

  function YearLength(y: int): (n: int)
    ensures n == 355 || n == 365 || n == 366
  {
    if y == 1752 then 355 else if Leap(y) then 366 else 365
  }

  function DaysBeforeYear(y: int): (n: nat)
    decreases y
  {
    if y <= 1 then 0 else DaysBeforeYear(y - 1) + YearLength(y - 1)
  }

  function DaysBeforeMonth(y: int, m: int): (n: nat)
    decreases m
  {
    if m <= 1 then 0 else DaysBeforeMonth(y, m - 1) + MonthLength(y, m - 1)
  }

  /** The place of a date in its month. */
  function DayInMonth(t: Date): int {
    if t.y == 1752 && t.m == 9 && t.d >= 14 then t.d - 11 else t.d
  }

  /** The place of a date in history; 1 January of the year 1 is 1. */
  function Ordinal(t: Date): int {
    DaysBeforeYear(t.y) + DaysBeforeMonth(t.y, t.m) + DayInMonth(t)
  }

  lemma MonthsMakeYear(y: int)
    ensures DaysBeforeMonth(y, 13) == YearLength(y)
  {
    assert DaysBeforeMonth(y, 4) == 31 + MonthLength(y, 2) + 31;
    assert DaysBeforeMonth(y, 8) == DaysBeforeMonth(y, 4) + 122;
    assert DaysBeforeMonth(y, 12) == DaysBeforeMonth(y, 8) + 31 + MonthLength(y, 9) + 31 + 30;
  }

  lemma {:induction false} MonthsGrow(y: int, m: int, m': int)
    requires 1 <= m <= m'
    ensures DaysBeforeMonth(y, m) + (if m < m' then MonthLength(y, m) else 0) <= DaysBeforeMonth(y, m')
    decreases m'
  {
    if m < m' { MonthsGrow(y, m, m' - 1); }
  }

  lemma {:induction false} YearsGrow(y: int, y': int)
    requires 1 <= y <= y'
    ensures DaysBeforeYear(y) + (if y < y' then YearLength(y) else 0) <= DaysBeforeYear(y')
    decreases y'
  {
    if y < y' { YearsGrow(y, y' - 1); }
  }

  lemma DayInMonthRange(t: Date)
    requires Valid(t)
    ensures 1 <= DayInMonth(t) <= MonthLength(t.y, t.m)
  {
  }

  /** Where a date lies in its year. */
  lemma InYear(t: Date)
    requires Valid(t)
    ensures DaysBeforeYear(t.y) < Ordinal(t) <= DaysBeforeYear(t.y) + YearLength(t.y)
  {
    DayInMonthRange(t);
    MonthsGrow(t.y, t.m, 13);
    MonthsMakeYear(t.y);
  }

  /** Consecutive dates have consecutive numbers. */
  lemma Consecutive(t: Date)
    requires Valid(t)
    ensures Valid(Next(t)) && Ordinal(Next(t)) == Ordinal(t) + 1
  {
    if t.m == 12 && t.d == 31 { MonthsMakeYear(t.y); }
  }

  predicate Earlier(t: Date, u: Date) {
    t.y < u.y || (t.y == u.y && (t.m < u.m || (t.m == u.m && t.d < u.d)))
  }

  /** Ordinals are in the order of dates, so that no two dates have the same. */
  lemma OrdinalOrder(t: Date, u: Date)
    requires Valid(t) && Valid(u) && Earlier(t, u)
    ensures Ordinal(t) < Ordinal(u)
  {
    if t.y < u.y {
      InYear(t);
      InYear(u);
      YearsGrow(t.y, u.y);
    } else if t.m < u.m {
      DayInMonthRange(t);
      DayInMonthRange(u);
      MonthsGrow(t.y, t.m, u.m);
    }
  }

  lemma SameOrdinal(t: Date, u: Date)
    requires Valid(t) && Valid(u) && Ordinal(t) == Ordinal(u)
    ensures t == u
  {
    if t != u {
      if Earlier(t, u) { OrdinalOrder(t, u); } else { OrdinalOrder(u, t); }
    }
  }

  // ---------------------------------------------------------------------
  // The tables
  // ---------------------------------------------------------------------

  const NORM_UPTO: seq<int> := [0, 0, 31, 59, 90, 120, 151, 181, 212, 243, 273, 304, 334, 365]
  const LEAP_UPTO: seq<int> := [0, 0, 31, 60, 91, 121, 152, 182, 213, 244, 274, 305, 335, 366]
  const Y1752_UPTO: seq<int> := [0, 0, 31, 60, 91, 121, 152, 182, 213, 244, 263, 294, 324, 355]

  function TableOf(y: int): (upto: seq<int>)
    ensures |upto| == 14
  {
    if y == 1752 then Y1752_UPTO else if Leap(y) then LEAP_UPTO else NORM_UPTO
  }

  lemma TableIs(y: int, m: int)
    requires 1 <= m <= 13
    ensures TableOf(y)[m] == DaysBeforeMonth(y, m)
  {
    TableStart(y);
    assert DaysBeforeMonth(y, 8) == DaysBeforeMonth(y, 4) + 122;
    assert DaysBeforeMonth(y, 7) == DaysBeforeMonth(y, 4) + 91;
    assert DaysBeforeMonth(y, 6) == DaysBeforeMonth(y, 4) + 61;
    assert DaysBeforeMonth(y, 5) == DaysBeforeMonth(y, 4) + 30;
    assert DaysBeforeMonth(y, 9) == DaysBeforeMonth(y, 8) + 31;
    assert DaysBeforeMonth(y, 10) == DaysBeforeMonth(y, 9) + MonthLength(y, 9);
    assert DaysBeforeMonth(y, 11) == DaysBeforeMonth(y, 10) + 31;
    assert DaysBeforeMonth(y, 12) == DaysBeforeMonth(y, 11) + 30;
    assert DaysBeforeMonth(y, 13) == DaysBeforeMonth(y, 12) + 31;
  }

  lemma TableStart(y: int)
    ensures DaysBeforeMonth(y, 1) == 0 && DaysBeforeMonth(y, 2) == 31
    ensures DaysBeforeMonth(y, 3) == 31 + MonthLength(y, 2) && DaysBeforeMonth(y, 4) == 62 + MonthLength(y, 2)
  {
  }

  // ---------------------------------------------------------------------
  // to_day
  // ---------------------------------------------------------------------

  /** Days before 1 January of year y, as to_day counts them. */
  function YearBase(y: int): int {
    (y - 1) * 365 + (y - 1) / 4 - (if y > 1800 then (y - 1701) / 100 - (y - 1601) / 400 else 0) - (if y > 1752 then 11 else 0)
  }

  lemma {:induction false} YearBaseIs(y: int)
    requires y >= 1
    ensures DaysBeforeYear(y) == YearBase(y)
    decreases y
  {
    if y > 1 {
      YearBaseIs(y - 1);
      YearBaseStep(y - 1);
    }
  }

  lemma Fours(x: int)
    ensures x / 4 - (x - 1) / 4 == if x % 4 == 0 then 1 else 0
  {
  }

  lemma Hundreds(x: int)
    ensures x / 100 - (x - 1) / 100 == if x % 100 == 0 then 1 else 0
  {
  }

  lemma FourHundreds(x: int)
    ensures x / 400 - (x - 1) / 400 == if x % 400 == 0 then 1 else 0
  {
  }

  lemma Multiples(y: int)
    ensures (y - 1700) % 100 == y % 100 && (y - 1600) % 400 == y % 400
    ensures y % 100 == 0 ==> y % 4 == 0
    ensures y % 400 == 0 ==> y % 100 == 0
  {
    assert y - 1700 == y - 17 * 100 && y - 1600 == y - 4 * 400;
    assert y == 100 * (y / 100) + y % 100 && y == 400 * (y / 400) + y % 400;
  }

  lemma YearBaseStep(y: int)
    requires y >= 1
    ensures YearBase(y + 1) == YearBase(y) + YearLength(y)
  {
    Fours(y);
    if y >= 1800 {
      Hundreds(y - 1700);
      FourHundreds(y - 1600);
      Multiples(y);
    }
  }

  /** to_day, with the greatest year it accepts. */
  method ToDay(m: int, d: int, y: int, cap: int) returns (r: int)
    ensures r == if y <= cap && Valid(Date(y, m, d)) then Ordinal(Date(y, m, d)) else -1
  {
    if y < 1 || y > cap || m < 1 || m > 12 || d < 1 || d > 31 {
      return -1;
    }
    var upto, dd := NORM_UPTO, d;
    var day := (y - 1) * 365;
    day := day + (y - 1) / 4;
    if y > 1800 {
      day := day - (y - 1701) / 100;
      day := day + (y - 1601) / 400;
    }
    if y < 1752 {
      if y % 4 == 0 {
        upto := LEAP_UPTO;
      }
    } else if y > 1752 {
      if y % 4 == 0 && (y % 100 != 0 || y % 400 == 0) {
        upto := LEAP_UPTO;
      }
      day := day - 11;
    } else {
      upto := Y1752_UPTO;
      if m == 9 {
        if d > 2 && d < 14 {
          return -1;
        } else if d >= 14 {
          dd := d - 11;
        }
      }
    }
    ToDayIs(Date(y, m, d), upto, day);
    if dd > upto[m + 1] - upto[m] {
      return -1;
    }
    r := day + upto[m] + dd;
  }

  /** The last test of to_day, and its sum. */
  lemma ToDayIs(t: Date, upto: seq<int>, day: int)
    requires t.y >= 1 && 1 <= t.m <= 12 && t.d >= 1 && upto == TableOf(t.y) && day == YearBase(t.y)
    requires !(t.y == 1752 && t.m == 9 && 2 < t.d < 14)
    ensures DayInMonth(t) <= upto[t.m + 1] - upto[t.m] <==> Valid(t)
    ensures day + upto[t.m] + DayInMonth(t) == Ordinal(t)
  {
    TableIs(t.y, t.m);
    TableIs(t.y, t.m + 1);
    YearBaseIs(t.y);
  }

  // ---------------------------------------------------------------------
  // to_date
  // ---------------------------------------------------------------------

  /** Days before relative year r, when year f and every fourth year after it is a leap year. */
  function JulianBefore(f: nat, r: nat): nat {
    365 * r + (if r > f then (r - f + 3) / 4 else 0)
  }

  predicate JulianLeap(f: nat, r: nat) {
    r >= f && (r - f) % 4 == 0
  }

  /** doleap */
  method DoLeap(days0: int, year0: int, firstleap: nat) returns (days: int, year: int)
    requires days0 >= 0
    ensures year >= year0 && days0 == JulianBefore(firstleap, year - year0) + days
    ensures 0 <= days < if JulianLeap(firstleap, year - year0) then 366 else 365
  {
    days, year := days0, year0;
    if days < firstleap * 365 {
      year := year + days / 365;
      days := days % 365;
      return;
    } else {
      year := year + firstleap;
      days := days - 365 * firstleap;
    }
    var nquad := days / (365 * 4 + 1);
    var nrem := days % (365 * 4 + 1);
    var nyear := 0;
    if nrem > 366 - 1 {
      nyear := (nrem - 366) / 365 + 1;
    }
    assert 0 <= nyear <= 3;
    Quads(firstleap, nquad, nyear);
    year := year + (nquad * 4 + nyear);
    days := nrem - 365 * nyear - (if nyear == 0 then 0 else 1);
  }

  lemma Quads(f: nat, q: nat, n: nat)
    requires n <= 3
    ensures JulianBefore(f, f + 4 * q + n) == 365 * (f + 4 * q + n) + q + (if n == 0 then 0 else 1)
    ensures JulianLeap(f, f + 4 * q + n) <==> n == 0
  {
    assert (4 * q + n + 3) / 4 == q + (n + 3) / 4;
    assert (4 * q + n) % 4 == n;
  }

  /** do100 */
  method Do100(days0: int, year0: int) returns (days: int, year: int, ghost n: nat, ghost r: nat)
    requires days0 >= 0
    ensures n == days0 / 36524 && year == year0 + 100 * n + r && r < 100
    ensures days0 == 36524 * n + JulianBefore(4, r) + days
    ensures 0 <= days < if JulianLeap(4, r) then 366 else 365
  {
    var ncentury := days0 / (100 * 365 + 100 / 4 - 1);
    days := days0 % (100 * 365 + 100 / 4 - 1);
    year := year0 + 100 * ncentury;
    days, year := DoLeap(days, year, 4);
    n, r := ncentury, year - (year0 + 100 * ncentury);
  }

  /** do400 */
  method Do400(days0: int, year0: int) returns (days: int, year: int, ghost a: nat, ghost b: nat, ghost r: nat)
    requires days0 >= 0
    ensures year == year0 + 400 * a + 100 * b + r && b <= 3 && (r < 100 || (r == 100 && b == 0 && days == 0))
    ensures days0 == 146097 * a + (if b == 0 then 0 else 36524 * b + 1) + JulianBefore(if b == 0 then 0 else 4, r) + days
    ensures 0 <= days < if JulianLeap(if b == 0 then 0 else 4, r) then 366 else 365
  {
    var n100 := 0;
    var n400 := days0 / (400 * 365 + 400 / 4 - 4 + 1);
    days := days0 % (400 * 365 + 400 / 4 - 4 + 1);
    if days > 100 * 365 + 100 / 4 {
      n100 := (days - (100 * 365 + 100 / 4)) / (100 * 365 + 100 / 4 - 1) + 1;
      days := days - (n100 * (100 * 365 + 100 / 4 - 1) + 1);
    }
    year := year0 + (100 * n100 + 400 * n400);
    a, b := n400, n100;
    days, year := DoLeap(days, year, if n100 == 0 then 0 else 4);
    r := year - (year0 + 400 * a + 100 * b);
  }

  /** Day number x of history lies in year y, with `day` days of it in front. */
  ghost predicate InYearOf(x: int, day: int, y: int) {
    y >= 1 && x == DaysBeforeYear(y) + day && 0 <= day < YearLength(y)
  }

  /** A year before 1752 or, with the missing days put back, one from 1753 to 1800. */
  lemma JulianYear(r: nat)
    requires r < 1751 || 1752 <= r <= 1799
    ensures DaysBeforeYear(r + 1) == JulianBefore(3, r) - (if r > 1751 then 11 else 0)
    ensures r < 1799 ==> (Leap(r + 1) <==> JulianLeap(3, r)) && (Leap(r + 1) <==> r % 4 == 3)
  {
    YearBaseIs(r + 1);
  }

  lemma Shift4(q: int, x: int)
    ensures (4 * q + x) / 4 == q + x / 4 && (4 * q + x) % 4 == x % 4
  {
  }

  lemma Shift100(q: int, x: int)
    ensures (100 * q + x) / 100 == q + x / 100 && (100 * q + x) % 100 == x % 100
  {
  }

  lemma Shift400(q: int, x: int)
    ensures (400 * q + x) / 400 == q + x / 400 && (400 * q + x) % 400 == x % 400
  {
  }

  lemma CenturyBase(n: nat, r: nat)
    requires n <= 1 && r < 100
    ensures YearBase(1800 + 100 * n + r) == 1799 * 365 + 449 - 11 + 36524 * n + JulianBefore(4, r)
  {
    Shift4(449 + 25 * n, 3 + r);
    Shift100(n, 99 + r);
    assert (r + 3) / 4 == if r > 0 then (r - 1) / 4 + 1 else 0;
    assert (100 * n + 199 + r) / 400 == 0;
  }

  lemma CenturyLeap(y: int, r: nat)
    requires (y == 1800 + r || y == 1900 + r) && r < 100
    ensures Leap(y) <==> JulianLeap(4, r)
  {
    assert y % 4 == r % 4;
    Shift100(if y == 1800 + r then 18 else 19, r);
    Multiples(y);
  }

  lemma CenturyYear(n: nat, r: nat)
    requires n <= 1 && r < 100
    ensures DaysBeforeYear(1800 + 100 * n + r) == 1799 * 365 + 449 - 11 + 36524 * n + JulianBefore(4, r)
    ensures Leap(1800 + 100 * n + r) <==> JulianLeap(4, r)
  {
    YearBaseIs(1800 + 100 * n + r);
    CenturyBase(n, r);
    CenturyLeap(1800 + 100 * n + r, r);
  }

  /** Days before year r of a group of centuries that begins with a leap year, century b. */
  function GroupBefore(b: nat, r: nat): nat {
    if b == 0 then JulianBefore(0, r) else 36524 * b + 1 + JulianBefore(4, r)
  }

  lemma GregorianBase(a: nat, b: nat, r: nat)
    requires b <= 3 && (r < 100 || (r == 100 && b == 0))
    ensures YearBase(2000 + 400 * a + 100 * b + r) == 1999 * 365 + 499 - 2 - 11 + 146097 * a + GroupBefore(b, r)
  {
    Shift4(499 + 100 * a + 25 * b, 3 + r);
    Shift100(2 + 4 * a + b, 99 + r);
    Shift400(a, 399 + 100 * b + r);
    assert (99 + r) / 100 == if r == 0 then 0 else 1;
    assert (399 + 100 * b + r) / 400 == if b == 0 && r == 0 then 0 else 1;
    assert (r + 3) / 4 == if r > 0 then (r - 1) / 4 + 1 else 0;
  }

  lemma GregorianLeap(a: nat, b: nat, r: nat)
    requires b <= 3 && r < 100
    ensures Leap(2000 + 400 * a + 100 * b + r) <==> JulianLeap(if b == 0 then 0 else 4, r)
  {
    Shift4(500 + 100 * a + 25 * b, r);
    Shift100(20 + 4 * a + b, r);
    Shift400(5 + a, 100 * b + r);
  }

  lemma Gregorian(a: nat, b: nat, r: nat)
    requires b <= 3 && (r < 100 || (r == 100 && b == 0))
    ensures DaysBeforeYear(2000 + 400 * a + 100 * b + r) == 1999 * 365 + 499 - 2 - 11 + 146097 * a + GroupBefore(b, r)
    ensures r < 100 ==> (Leap(2000 + 400 * a + 100 * b + r) <==> JulianLeap(if b == 0 then 0 else 4, r))
  {
    YearBaseIs(2000 + 400 * a + 100 * b + r);
    GregorianBase(a, b, r);
    if r < 100 { GregorianLeap(a, b, r); }
  }

  /** The year of a day number, and the days of the year in front of it; years are counted from 0. */
  method FindYear(day0: int) returns (day: int, year: int, upto: seq<int>)
    requires day0 >= 0
    ensures InYearOf(day0, day, year + 1) && upto == TableOf(year + 1)
  {
    day, year, upto := day0, 0, NORM_UPTO;
    if day < (1752 - 1) * 365 + (1752 - 1) / 4 {
      day, year := DoLeap(day, year, 3);
      JulianYear(year);
      if year % 4 == 3 {
        upto := LEAP_UPTO;
      }
    } else if day < (1753 - 1) * 365 + (1753 - 1) / 4 - 11 {
      YearBaseIs(1752);
      day := day - ((1752 - 1) * 365 + (1752 - 1) / 4);
      year := 1752 - 1;
      upto := Y1752_UPTO;
    } else if day < (1800 - 1) * 365 + (1800 - 1) / 4 - 11 {
      day := day + 11;
      day, year := DoLeap(day, year, 1756 - 1753);
      JulianYear(year);
      if year % 4 == 3 {
        upto := LEAP_UPTO;
      }
    } else if day < (2000 - 1) * 365 + (2000 - 1) / 4 - 2 - 11 {
      day := day - ((1800 - 1) * 365 + (1800 - 1) / 4 - 11);
      year := 1799;
      ghost var n, r;
      day, year, n, r := Do100(day, year);
      CenturyFound(day0, day, year, n, r);
      if year % 4 == 3 && year % 100 != 99 {
        upto := LEAP_UPTO;
      }
    } else {
      day := day - ((2000 - 1) * 365 + (2000 - 1) / 4 - 2 - 11);
      year := 1999;
      ghost var a, b, r;
      day, year, a, b, r := Do400(day, year);
      GregorianFound(day0, day, year, a, b, r);
      if year % 4 == 3 && (year % 100 != 99 || year % 400 == 399) {
        upto := LEAP_UPTO;
      }
    }
  }

  /** Remainders of a year counted from 0. */
  lemma ZeroBased(year: int)
    ensures year % 4 == 3 <==> (year + 1) % 4 == 0
    ensures year % 100 == 99 <==> (year + 1) % 100 == 0
    ensures year % 400 == 399 <==> (year + 1) % 400 == 0
  {
    Shift4(year / 4, year % 4 + 1);
    Shift100(year / 100, year % 100 + 1);
    Shift400(year / 400, year % 400 + 1);
  }

  lemma CenturyFound(day0: int, day: int, year: int, n: nat, r: nat)
    requires year == 1799 + 100 * n + r && n <= 1 && r < 100
    requires day0 - (1799 * 365 + 449 - 11) == 36524 * n + JulianBefore(4, r) + day
    requires 0 <= day < if JulianLeap(4, r) then 366 else 365
    ensures InYearOf(day0, day, year + 1) && (Leap(year + 1) <==> year % 4 == 3 && year % 100 != 99) && year + 1 > 1752
  {
    CenturyYear(n, r);
    ZeroBased(year);
    Shift400(4, 200 + 100 * n + r);
  }

  lemma GregorianFound(day0: int, day: int, year: int, a: nat, b: nat, r: nat)
    requires year == 1999 + 400 * a + 100 * b + r && b <= 3 && (r < 100 || (r == 100 && b == 0 && day == 0))
    requires day0 - (1999 * 365 + 499 - 2 - 11) == 146097 * a + GroupBefore(b, r) + day
    requires 0 <= day < if JulianLeap(if b == 0 then 0 else 4, r) then 366 else 365
    ensures InYearOf(day0, day, year + 1) && year + 1 > 1752
    ensures Leap(year + 1) <==> year % 4 == 3 && (year % 100 != 99 || year % 400 == 399)
  {
    Gregorian(a, b, r);
    ZeroBased(year);
  }

  /** The date of a day of a year. */
  lemma MonthFound(x: int, day: int, y: int, month: int, mday: int)
    requires InYearOf(x, day, y) && 1 <= month <= 12 && TableOf(y)[month] <= day < TableOf(y)[month + 1]
    requires var d := day - TableOf(y)[month] + 1; mday == if y == 1752 && month == 9 && d > 2 then d + 11 else d
    ensures Valid(Date(y, month, mday)) && Ordinal(Date(y, month, mday)) == x + 1
  {
    TableIs(y, month);
    TableIs(y, month + 1);
  }

  /** The loop of to_date over the months. */
  method FindMonth(upto: seq<int>, day: int) returns (month: int)
    requires |upto| == 14 && upto[1] <= day < upto[13]
    ensures 1 <= month <= 12 && upto[month] <= day < upto[month + 1]
  {
    month := 2;
    while day >= upto[month]
      invariant 2 <= month <= 13 && day >= upto[month - 1]
      decreases 13 - month
    {
      month := month + 1;
    }
    month := month - 1;
  }

  /** A day of a year lies between the ends of its table. */
  lemma TableEnds(x: int, day: int, y: int)
    requires InYearOf(x, day, y)
    ensures TableOf(y)[1] <= day < TableOf(y)[13]
  {
    TableIs(y, 13);
    MonthsMakeYear(y);
  }

  /** to_date: the date with this ordinal. */
  method ToDate(day0: int) returns (month: int, mday: int, year: int)
    requires day0 >= 1
    ensures Valid(Date(year, month, mday)) && Ordinal(Date(year, month, mday)) == day0
  {
    var day, y, upto := FindYear(day0 - 1);
    TableEnds(day0 - 1, day, y + 1);
    month := FindMonth(upto, day);
    year := y + 1;
    mday := day - upto[month] + 1;
    if y == 1751 && month == 9 && mday > 2 {
      mday := mday + 11;
    }
    MonthFound(day0 - 1, day, year, month, mday);
  }

  /** weekday: 0 is Sunday, day 1 was a Saturday. */
  function Weekday(day: int): int
    requires day >= 0
  {
    (day + 5) % 7
  }

  /** The dates that there are: months of 31 and 30 days, a February of 28 or 29, and the eleven days left out. */
  lemma DatesAre(t: Date)
    ensures Valid(t) <==>
              && t.y >= 1 && t.d >= 1 && !(t.y == 1752 && t.m == 9 && 2 < t.d < 14)
              && (|| (t.d <= 31 && (t.m == 1 || t.m == 3 || t.m == 5 || t.m == 7 || t.m == 8 || t.m == 10 || t.m == 12))
                  || (t.d <= 30 && (t.m == 4 || t.m == 6 || t.m == 9 || t.m == 11))
                  || (t.m == 2 && (t.d <= 28 || (t.d == 29 && t.y % 4 == 0 && (t.y % 100 != 0 || t.y % 400 == 0 || t.y < 1753)))))
  {
  }

  /** The gap in September 1752 was between a Wednesday and a Thursday. */
  lemma GapDays(t: Date)
    requires Valid(t) && 1751 < t.y < 1753 && t.m == 9 && (t.d == 2 || t.d == 14)
    ensures Ordinal(t) == (if t.d == 2 then 639798 else 639799) && Weekday(Ordinal(t)) == if t.d == 2 then 3 else 4
  {
    OrdinalIs(t);
    assert YearBase(t.y) == 639552 && TableOf(t.y)[9] == 244;
  }

  lemma OrdinalIs(t: Date)
    requires t.y >= 1 && 1 <= t.m <= 12
    ensures Ordinal(t) == YearBase(t.y) + TableOf(t.y)[t.m] + DayInMonth(t)
  {
    YearBaseIs(t.y);
    TableIs(t.y, t.m);
  }

  /** to_day undoes to_date, and to_date undoes to_day, for all dates and all days. */
  method BackAndForth(day: int, t: Date, cap: int)
    returns (day': int, t': Date)
    requires day >= 1 && Valid(t) && t.y <= cap
    ensures day' == day || day' == -1
    ensures day' == -1 <==> exists u :: Valid(u) && Ordinal(u) == day && u.y > cap
    ensures t' == t
  {
    var m, d, y := ToDate(day);
    day' := ToDay(m, d, y, cap);
    if day' == -1 {
      assert Valid(Date(y, m, d)) && Ordinal(Date(y, m, d)) == day;
    } else {
      forall u | Valid(u) && Ordinal(u) == day ensures u.y <= cap { SameOrdinal(u, Date(y, m, d)); }
    }
    var n := ToDay(t.m, t.d, t.y, cap);
    InYear(t);
    var m', d', y' := ToDate(n);
    t' := Date(y', m', d');
    SameOrdinal(t, t');
  }
}
