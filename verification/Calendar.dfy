/**
 Calendar years in Eastern time. A zone is its offset from UTC at every instant; instants and local
 times count seconds from midnight, January 1 of year 1.
 */
module Calendar {

  const DAY := 86400

  type Zone = int -> int

  /** Days from January 1 of year 1 to January 1 of year y in the Gregorian calendar. */
  function DaysBefore(y: int): int {
    var n := y - 1;
    365 * n + n / 4 - n / 100 + n / 400
  }

  predicate IsLeap(y: int) {
    y % 4 == 0 && (y % 100 == 0 ==> y % 400 == 0)
  }

  lemma QuotientSteps(n: int)
    ensures n / 4 == (n - 1) / 4 + if n % 4 == 0 then 1 else 0
    ensures n / 100 == (n - 1) / 100 + if n % 100 == 0 then 1 else 0
    ensures n / 400 == (n - 1) / 400 + if n % 400 == 0 then 1 else 0
  {
  }

  lemma MultiplesNest(n: int)
    ensures n % 400 == 0 ==> n % 100 == 0
    ensures n % 100 == 0 ==> n % 4 == 0
  {
  }

  /** The counts of 4th, 100th and 400th years add up to the Gregorian leap rule. */
  lemma YearLength(y: int)
    ensures DaysBefore(y + 1) - DaysBefore(y) == if IsLeap(y) then 366 else 365
  {
    QuotientSteps(y);
    MultiplesNest(y);
  }

  lemma YearsAscend(y: int, z: int)
    requires y <= z
    ensures DaysBefore(y) + 365 * (z - y) <= DaysBefore(z)
    decreases z - y
  {
    if y < z {
      YearLength(y);
      YearsAscend(y + 1, z);
    }
  }

  /** The year a day falls in, found by whole 400, 100, 4 and 1 year cycles. */
  function YearOfDay(d: int): int {
    var n400 := d / 146097;
    var d400 := d % 146097;
    var n100 := if d400 / 36524 == 4 then 3 else d400 / 36524;
    var d100 := d400 - 36524 * n100;
    var n4 := d100 / 1461;
    var d4 := d100 % 1461;
    var n1 := if d4 / 365 == 4 then 3 else d4 / 365;
    400 * n400 + 100 * n100 + 4 * n4 + n1 + 1
  }

  lemma CycleQuotients(n400: int, n100: int, n4: int, n1: int)
    requires 0 <= n100 <= 3 && 0 <= n4 <= 24 && 0 <= n1 <= 3
    ensures var n := 400 * n400 + 100 * n100 + 4 * n4 + n1;
            n / 400 == n400 && n / 100 == 4 * n400 + n100 && n / 4 == 100 * n400 + 25 * n100 + n4
  {
  }

  lemma DaysBeforeCycles(n400: int, n100: int, n4: int, n1: int)
    requires 0 <= n100 <= 3 && 0 <= n4 <= 24 && 0 <= n1 <= 3
    ensures DaysBefore(400 * n400 + 100 * n100 + 4 * n4 + n1 + 1)
         == 146097 * n400 + 36524 * n100 + 1461 * n4 + 365 * n1
  {
    CycleQuotients(n400, n100, n4, n1);
  }

  lemma LastYearOfCycleIsLeap(n400: int, n100: int, n4: int)
    requires 0 <= n100 <= 3 && 0 <= n4 <= 24
    requires n4 == 24 ==> n100 == 3
    ensures IsLeap(400 * n400 + 100 * n100 + 4 * n4 + 4)
  {
    var y := 400 * n400 + 100 * n100 + 4 * n4 + 4;
    assert y == 4 * (100 * n400 + 25 * n100 + n4 + 1);
    if n4 == 24 {
      assert y == 400 * (n400 + 1);
    } else {
      assert y == 100 * (4 * n400 + n100) + 4 * (n4 + 1);
    }
  }

  /** What is left of a day number after each cycle is taken out. */
  lemma CyclesOfDay(d: int, n400: int, n100: int, n4: int, n1: int, rest: int)
    requires n400 == d / 146097
    requires var d400 := d % 146097; n100 == if d400 / 36524 == 4 then 3 else d400 / 36524
    requires var d100 := d % 146097 - 36524 * n100;
             n4 == d100 / 1461 && n1 == (if d100 % 1461 / 365 == 4 then 3 else d100 % 1461 / 365)
    requires rest == d - (146097 * n400 + 36524 * n100 + 1461 * n4 + 365 * n1)
    ensures 0 <= n100 <= 3 && 0 <= n4 <= 24 && 0 <= n1 <= 3
    ensures 0 <= rest <= 365
    ensures rest == 365 ==> n1 == 3 && (n4 == 24 ==> n100 == 3)
  {
    var d400 := d % 146097;
    var d100 := d400 - 36524 * n100;
    assert 0 <= d100 <= 36524 && (d100 == 36524 ==> n100 == 3);
    var d4 := d100 % 1461;
    assert d100 == 1461 * n4 + d4;
    assert rest == d4 - 365 * n1;
  }

  /** The cycles give the one year whose days include d. */
  lemma YearOfDayIsIt(d: int)
    ensures DaysBefore(YearOfDay(d)) <= d < DaysBefore(YearOfDay(d) + 1)
  {
    var n400, d400 := d / 146097, d % 146097;
    var n100 := if d400 / 36524 == 4 then 3 else d400 / 36524;
    var d100 := d400 - 36524 * n100;
    var n4, d4 := d100 / 1461, d100 % 1461;
    var n1 := if d4 / 365 == 4 then 3 else d4 / 365;
    var rest := d - (146097 * n400 + 36524 * n100 + 1461 * n4 + 365 * n1);
    CyclesOfDay(d, n400, n100, n4, n1, rest);
    YearInCycles(d, n400, n100, n4, n1, rest);
  }

  lemma YearInCycles(d: int, n400: int, n100: int, n4: int, n1: int, rest: int)
    requires 0 <= n100 <= 3 && 0 <= n4 <= 24 && 0 <= n1 <= 3 && 0 <= rest <= 365
    requires rest == 365 ==> n1 == 3 && (n4 == 24 ==> n100 == 3)
    requires d == 146097 * n400 + 36524 * n100 + 1461 * n4 + 365 * n1 + rest
    ensures var y := 400 * n400 + 100 * n100 + 4 * n4 + n1 + 1; DaysBefore(y) <= d < DaysBefore(y + 1)
  {
    DaysBeforeCycles(n400, n100, n4, n1);
    if n1 == 3 && (n4 == 24 ==> n100 == 3) {
      LastYearOfCycleIsLeap(n400, n100, n4);
    }
    YearLength(400 * n400 + 100 * n100 + 4 * n4 + n1 + 1);
  }

  function LocalTime(zone: Zone, t: int): int {
    t + zone(t)
  }

  /** The calendar year of an instant in the zone. */
  function YearOf(zone: Zone, t: int): int {
    YearOfDay(LocalTime(zone, t) / DAY)
  }

  /** time.Date for midnight, January 1: guess with the offset at the wall clock read as UTC, then correct once. */
  function YearStart(zone: Zone, y: int): int {
    var wall := DAY * DaysBefore(y);
    wall - zone(wall - zone(wall))
  }

  /** YearBounds: the start of the year and the start of the next one. */
  function YearBounds(zone: Zone, y: int): (bounds: (int, int)) {
    (YearStart(zone, y), YearStart(zone, y + 1))
  }

  /** Offsets stay within a day, and no change of offset falls within two days of a New Year. */
  ghost predicate SteadyNewYears(zone: Zone) {
    && (forall t :: -DAY <= zone(t) <= DAY)
    && (forall y, t :: DAY * DaysBefore(y) - 2 * DAY <= t <= DAY * DaysBefore(y) + 2 * DAY
                       ==> zone(t) == zone(DAY * DaysBefore(y)))
  }

  /** The location the program falls back to when no zone data is installed. */
  function FixedEst(t: int): int {
    -5 * 60 * 60
  }

  /** There a year begins at five in the morning UTC. */
  lemma FixedEstIsSteady()
    ensures SteadyNewYears(FixedEst)
    ensures forall y :: YearStart(FixedEst, y) - 86400 * DaysBefore(y) == 18000
  {
  }

  lemma YearStartSplitsLocalTime(zone: Zone, y: int, t: int)
    requires SteadyNewYears(zone)
    ensures YearStart(zone, y) <= t <==> DAY * DaysBefore(y) <= LocalTime(zone, t)
  {
    var wall := DAY * DaysBefore(y);
    var start := wall - zone(wall);
    assert zone(wall - zone(wall)) == zone(wall);
    if wall - 2 * DAY <= t <= wall + 2 * DAY {
      assert zone(t) == zone(wall);
    }
  }

  lemma InYearIffBetweenStarts(y: int, d: int)
    ensures YearOfDay(d) == y <==> DaysBefore(y) <= d < DaysBefore(y + 1)
  {
    YearOfDayIsIt(d);
    var k := YearOfDay(d);
    if k < y {
      YearsAscend(k + 1, y);
    } else if y < k {
      YearsAscend(y + 1, k);
    }
  }

  /** The first second of the year 1, UTC, is in the year 0 in the East. */
  lemma EasternYears()
    ensures YearOf(FixedEst, 1) == 0 && YearOf(FixedEst, 400 * DAY) == 2
  {
    InYearIffBetweenStarts(0, -1);
    InYearIffBetweenStarts(2, 399);
    assert LocalTime(FixedEst, 1) / DAY == -1 && LocalTime(FixedEst, 400 * DAY) / DAY == 399;
  }

  /** The half-open range the year filter compiles to holds exactly the instants of that Eastern year. */
  lemma YearBoundsHoldTheYear(zone: Zone, y: int, t: int)
    requires SteadyNewYears(zone)
    ensures YearOf(zone, t) == y <==> YearBounds(zone, y).0 <= t < YearBounds(zone, y).1
  {
    YearStartSplitsLocalTime(zone, y, t);
    YearStartSplitsLocalTime(zone, y + 1, t);
    InYearIffBetweenStarts(y, LocalTime(zone, t) / DAY);
  }
}
