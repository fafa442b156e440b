/** Dates of the Gregorian calendar and their Julian day numbers. */
module Dates {
  import opened Arithmetic

  datatype Date = Date(year: int, month: int, day: int)

  // ---- the conversions, as computed ----

  /** On the years below every operand is non-negative, so / is the truncating division of the source. */
  function JulianDayNumber(d: Date): int {
    var a := (14 - d.month) / 12;
    var y := d.year + 4800 - a;
    var m := d.month + 12 * a - 3;
    d.day + (153 * m + 2) / 5 + y * 365 + y / 4 - y / 100 + y / 400 - 32045
  }

  function FromJulianDay(n: int): Date {
    var a := n + 32044;
    var b := (4 * a + 3) / 146097;
    var c := a - b * 146097 / 4;
    var d := (4 * c + 3) / 1461;
    var e := c - 1461 * d / 4;
    var m := (5 * e + 2) / 153;
    Date(b * 100 + d - 4800 + m / 10, m + 3 - 12 * (m / 10), e - (153 * m + 2) / 5 + 1)
  }

  // ---- the calendar, by its rules ----

  predicate Leap(year: int) {
    year % 4 == 0 && (year % 100 != 0 || year % 400 == 0)
  }

  function MonthLength(year: int, month: int): int {
    if month == 2 then (if Leap(year) then 29 else 28)
    else if month in {4, 6, 9, 11} then 30 else 31
  }

  predicate Valid(d: Date) {
    d.year >= -4799 && 1 <= d.month <= 12 && 1 <= d.day <= MonthLength(d.year, d.month)
  }

  function Tomorrow(d: Date): Date {
    if d.day < MonthLength(d.year, d.month) then d.(day := d.day + 1)
    else if d.month < 12 then Date(d.year, d.month + 1, 1)
    else Date(d.year + 1, 1, 1)
  }

  // ---- years that begin in March ----

  /** A date as century since -4800, year in the century, month and day of the month, from March 1. */
  datatype Parts = Parts(century: nat, year: nat, month: nat, day: nat)

  /** The days of the months before m, from March 1. */
  function Before(m: nat): nat {
    (153 * m + 2) / 5
  }

  function Length(p: Parts): nat {
    if p.month == 11 then (if LastDay(p.century, p.year) then 29 else 28) else Before(p.month + 1) - Before(p.month)
  }

  /** The February that ends this year has a 29th. */
  predicate LastDay(century: nat, year: nat) {
    if year == 99 then century % 4 == 3 else year % 4 == 3
  }

  predicate Proper(p: Parts) {
    p.year < 100 && p.month < 12 && p.day < Length(p)
  }

  /** The day of the year, of the century, and since March 1, -4800. */
  function DayOfYear(p: Parts): nat { Before(p.month) + p.day }

  function DayOfCentury(p: Parts): nat { 1461 * p.year / 4 + DayOfYear(p) }

  function DayNumber(p: Parts): nat { 146097 * p.century / 4 + DayOfCentury(p) }

  function PartsOf(d: Date): Parts
    requires Valid(d)
  {
    var early := d.month < 3;
    var y := d.year + 4800 - (if early then 1 else 0);
    Parts(y / 100, y % 100, if early then d.month + 9 else d.month - 3, d.day - 1)
  }

  function DateOf(p: Parts): Date {
    var late := p.month >= 10;
    Date(100 * p.century + p.year - 4800 + (if late then 1 else 0),
         if late then p.month - 9 else p.month + 3, p.day + 1)
  }

  lemma LeapMarch(year: int)
    requires year >= -4799
    ensures var y := year + 4799; y >= 0 && (Leap(year) <==> LastDay(y / 100, y % 100))
  {
    var y := year + 4799;
    var c, r := y / 100, y % 100;
    assert year == 100 * (c - 48) + r + 1;
    LeapParts(c, r);
  }

  lemma LeapParts(c: nat, r: nat)
    requires r < 100
    ensures Leap(100 * (c - 48) + r + 1) <==> LastDay(c, r)
  {
    var year := 100 * (c - 48) + r + 1;
    if r == 99 {
      CenturyLeap(c - 47);
    } else {
      Remainder(c - 48, 100, r + 1);
      Remainder(25 * (c - 48) + (r + 1) / 4, 4, (r + 1) % 4);
    }
  }

  lemma CenturyLeap(c: int)
    ensures Leap(100 * c) <==> c % 4 == 0
  {
    var q, s := c / 4, c % 4;
    assert 100 * c == 4 * (25 * c) && 100 * c == 400 * q + 100 * s;
    Hundreds(q, s);
  }

  lemma Hundreds(q: int, s: nat)
    requires s < 4
    ensures (400 * q + 100 * s) % 400 == 0 <==> s == 0
    ensures (400 * q + 100 * s) % 100 == 0 && (400 * q + 100 * s) % 4 == 0
  {
    Remainder(q, 400, 100 * s);
    Remainder(4 * q + s, 100, 0);
    Remainder(100 * q + 25 * s, 4, 0);
  }

  lemma ProperParts(d: Date)
    requires Valid(d)
    ensures Proper(PartsOf(d)) && DateOf(PartsOf(d)) == d
    ensures JulianDayNumber(d) == DayNumber(PartsOf(d)) - 32044
  {
    if d.month < 3 {
      LeapMarch(d.year);
    }
    var a := if d.month < 3 then 1 else 0;
    assert (14 - d.month) / 12 == a;
    Centuries(d.year + 4800 - a);
  }

  lemma Centuries(y: nat)
    ensures y * 365 + y / 4 - y / 100 + y / 400 == 146097 * (y / 100) / 4 + 1461 * (y % 100) / 4
  {
    var c, r := y / 100, y % 100;
    var q, s := c / 4, c % 4;
    assert y == 400 * q + 100 * s + r;
    assert y / 4 == 100 * q + 25 * s + r / 4;
    assert y / 400 == q;
    assert 146097 * c / 4 == 146097 * q + 36524 * s + s / 4;
    assert 1461 * r / 4 == 365 * r + r / 4;
  }

  // ---- there and back ----

  lemma MonthStage(p: Parts)
    requires Proper(p)
    ensures var e := DayOfYear(p); (5 * e + 2) / 153 == p.month && e - Before(p.month) == p.day && e <= 365
    ensures DayOfYear(p) == 365 <==> p.month == 11 && p.day == 28
  {
    assert Before(11) == 337;
    assert p.month < 11 ==> Before(p.month + 1) <= Before(11);
  }

  lemma YearStage(p: Parts)
    requires Proper(p)
    ensures var c := DayOfCentury(p);
      (4 * c + 3) / 1461 == p.year && c - 1461 * p.year / 4 == DayOfYear(p) && c <= 36524
    ensures DayOfCentury(p) == 36524 ==> p.century % 4 == 3
  {
    MonthStage(p);
    var k, s, e := p.year / 4, p.year % 4, DayOfYear(p);
    assert 1461 * p.year / 4 == 1461 * k + 365 * s;
    assert 4 * DayOfCentury(p) + 3 == 1461 * p.year + (4 * e + 3 - s);
    assert e == 365 ==> s == 3;
  }

  lemma CenturyStage(p: Parts)
    requires Proper(p)
    ensures var a := DayNumber(p); (4 * a + 3) / 146097 == p.century && a - 146097 * p.century / 4 == DayOfCentury(p)
  {
    YearStage(p);
    var q, s, c := p.century / 4, p.century % 4, DayOfCentury(p);
    assert 146097 * p.century / 4 == 146097 * q + 36524 * s;
    assert 4 * DayNumber(p) + 3 == 146097 * p.century + (4 * c + 3 - s);
  }

  lemma PartsBack(p: Parts)
    requires Proper(p)
    ensures FromJulianDay(DayNumber(p) - 32044) == DateOf(p)
  {
    CenturyStage(p);
    YearStage(p);
    MonthStage(p);
  }

  /** A date turned into a day number and back is the same date. */
  lemma DateRoundTrip(d: Date)
    requires Valid(d)
    ensures FromJulianDay(JulianDayNumber(d)) == d
  {
    ProperParts(d);
    PartsBack(PartsOf(d));
  }

  /** The parts of the day after. */
  function NextParts(p: Parts): Parts
    requires Proper(p)
  {
    if p.day + 1 < Length(p) then p.(day := p.day + 1)
    else if p.month < 11 then Parts(p.century, p.year, p.month + 1, 0)
    else if p.year < 99 then Parts(p.century, p.year + 1, 0, 0)
    else Parts(p.century + 1, 0, 0, 0)
  }

  lemma NextNumber(p: Parts)
    requires Proper(p)
    ensures Proper(NextParts(p)) && DayNumber(NextParts(p)) == DayNumber(p) + 1
  {
    assert Before(11) == 337;
    if p.day + 1 == Length(p) && p.month == 11 {
      var k, s := p.year / 4, p.year % 4;
      assert 1461 * p.year / 4 == 1461 * k + 365 * s;
      assert 1461 * (p.year + 1) / 4 == 1461 * p.year / 4 + 365 + (if s == 3 then 1 else 0);
      if p.year == 99 {
        var q, t := p.century / 4, p.century % 4;
        assert 146097 * p.century / 4 == 146097 * q + 36524 * t;
        assert 146097 * (p.century + 1) / 4 == 146097 * p.century / 4 + 36524 + (if t == 3 then 1 else 0);
      }
    }
  }

  lemma NextDate(d: Date)
    requires Valid(d)
    ensures Valid(Tomorrow(d)) && PartsOf(Tomorrow(d)) == NextParts(PartsOf(d))
  {
    hide JulianDayNumber, DayNumber, LastDay, Leap;
    ProperParts(d);
    LengthOf(d);
  }

  lemma LengthOf(d: Date)
    requires Valid(d)
    ensures MonthLength(d.year, d.month) == Length(PartsOf(d))
  {
    LeapMarch(d.year);
  }

  /** Consecutive dates have consecutive numbers. */
  lemma Consecutive(d: Date)
    requires Valid(d)
    ensures Valid(Tomorrow(d)) && JulianDayNumber(Tomorrow(d)) == JulianDayNumber(d) + 1
  {
    ProperParts(d);
    NextDate(d);
    NextNumber(PartsOf(d));
    ProperParts(Tomorrow(d));
  }

  const FIRST: Date := Date(-4799, 1, 1)

  /** Every day number from that of the first date on is the number of the date it is turned into. */
  lemma {:induction false} NumberRoundTrip(n: int)
    requires n >= -31738
    ensures Valid(FromJulianDay(n)) && JulianDayNumber(FromJulianDay(n)) == n
    decreases n + 31738
  {
    if n == -31738 {
      assert JulianDayNumber(FIRST) == n && Valid(FIRST);
      DateRoundTrip(FIRST);
    } else {
      NumberRoundTrip(n - 1);
      var d := FromJulianDay(n - 1);
      Consecutive(d);
      DateRoundTrip(Tomorrow(d));
    }
  }

  const INT32_MAX: int := 0x7FFF_FFFF

  /** Up to this number nothing in the conversions leaves 32 bits. */
  lemma Fits(n: int)
    requires -31738 <= n && n + 32044 <= (INT32_MAX - 3) / 4
    ensures var a := n + 32044; var b := (4 * a + 3) / 146097; var c := a - b * 146097 / 4; var d := (4 * c + 3) / 1461;
      0 <= a && 4 * a + 3 <= INT32_MAX && 0 <= b * 146097 <= INT32_MAX && 0 <= c && 4 * c + 3 <= INT32_MAX &&
        0 <= 1461 * d <= INT32_MAX
    ensures var d := FromJulianDay(n); 0 <= (d.year + 4800) * 365 <= INT32_MAX
  {
    FitsDays(n);
    hide FromJulianDay, JulianDayNumber, PartsOf, DateOf, Valid, Proper, DayNumber;
    NumberRoundTrip(n);
    var p := PartsOf(FromJulianDay(n));
    ProperParts(FromJulianDay(n));
    YearFits(p);
    YearOf(p);
  }

  lemma FitsDays(n: int)
    requires -31738 <= n && n + 32044 <= (INT32_MAX - 3) / 4
    ensures var a := n + 32044; var b := (4 * a + 3) / 146097; var c := a - b * 146097 / 4; var d := (4 * c + 3) / 1461;
      0 <= a && 4 * a + 3 <= INT32_MAX && 0 <= b * 146097 <= INT32_MAX && 0 <= c && 4 * c + 3 <= INT32_MAX &&
        0 <= 1461 * d <= INT32_MAX
  {
    hide FromJulianDay, JulianDayNumber, PartsOf, DateOf, Valid, Proper, DayNumber;
    NumberRoundTrip(n);
    ProperParts(FromJulianDay(n));
    FitsParts(PartsOf(FromJulianDay(n)));
  }

  lemma FitsParts(p: Parts)
    requires Proper(p) && DayNumber(p) <= (INT32_MAX - 3) / 4
    ensures var a := DayNumber(p); var b := (4 * a + 3) / 146097; var c := a - b * 146097 / 4;
      var d := (4 * c + 3) / 1461;
      4 * a + 3 <= INT32_MAX && 0 <= b * 146097 <= INT32_MAX && 0 <= c && 4 * c + 3 <= INT32_MAX &&
        0 <= 1461 * d <= INT32_MAX
  {
    hide DayNumber, DayOfCentury, Proper;
    CenturyStage(p);
    YearStage(p);
    IsSmall(p);
  }

  lemma IsSmall(p: Parts)
    requires Proper(p)
    ensures p.year < 100 && p.century * 146097 <= 4 * DayNumber(p) + 3
  {
  }

  lemma YearFits(p: Parts)
    ensures (100 * p.century + p.year) * 365 <= DayNumber(p)
  {
    assert 146097 * p.century / 4 >= 36500 * p.century;
    assert 1461 * p.year / 4 >= 365 * p.year;
  }

  lemma YearOf(p: Parts)
    ensures 100 * p.century + p.year <= DateOf(p).year + 4800 <= 100 * p.century + p.year + 1
  {
  }

  /** The day count starts where the program's constant says. */
  lemma Epoch()
    ensures JulianDayNumber(Date(1970, 1, 1)) == 2440588
  {
  }
}
