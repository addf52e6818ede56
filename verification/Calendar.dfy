/**
 The two calendars the program converts between, stated the way a calendar is explained to a
 person: which years are leap, how long each month is, what day comes next. Everything here is a
 reference definition; the program's fast arithmetic lives in module `Jalali` and is proved
 against it.
 */
module Calendar {
  datatype Date = Date(y: int, m: int, d: int)

  datatype Kind = Gregorian | Jalali

  /** Lexicographic order on year, month, day. */
  predicate Before(a: Date, b: Date) {
    a.y < b.y || (a.y == b.y && (a.m < b.m || (a.m == b.m && a.d < b.d)))
  }

  predicate AtMost(a: Date, b: Date) {
    a == b || Before(a, b)
  }

  /** The Gregorian 4/100/400 rule and the Jalali 33-year rule (eight leap residues per cycle). */
  predicate Leap(k: Kind, y: int) {
    match k
    case Gregorian => y % 4 == 0 && (y % 100 != 0 || y % 400 == 0)
    case Jalali => y % 33 in {1, 5, 9, 13, 17, 22, 26, 30}
  }

  function MonthLength(k: Kind, y: int, m: int): (n: int)
    requires 1 <= m <= 12
    ensures 28 <= n <= 31
  {
    match k
    case Gregorian =>
      if m == 2 then if Leap(k, y) then 29 else 28
      else if m == 4 || m == 6 || m == 9 || m == 11 then 30 else 31
    case Jalali =>
      if m <= 6 then 31 else if m <= 11 || Leap(k, y) then 30 else 29
  }

  predicate Valid(k: Kind, t: Date) {
    1 <= t.m <= 12 && 1 <= t.d <= MonthLength(k, t.y, t.m)
  }

  /** The day after a date. */
  function Next(k: Kind, t: Date): Date
    requires 1 <= t.m <= 12
  {
    if t.d < MonthLength(k, t.y, t.m) then Date(t.y, t.m, t.d + 1)
    else if t.m < 12 then Date(t.y, t.m + 1, 1)
    else Date(t.y + 1, 1, 1)
  }

  /** The day before a date. */
  function Prev(k: Kind, t: Date): Date {
    if t.d > 1 then Date(t.y, t.m, t.d - 1)
    else if 1 < t.m <= 12 then Date(t.y, t.m - 1, MonthLength(k, t.y, t.m - 1))
    else Date(t.y - 1, 12, MonthLength(k, t.y - 1, 12))
  }

  /** Days from the start of year y to the start of month m; m = 13 gives the year's length. */
  function MonthStart(k: Kind, y: int, m: int): int
    requires 1 <= m <= 13
  {
    if m == 1 then 0 else MonthStart(k, y, m - 1) + MonthLength(k, y, m - 1)
  }

  function YearLength(k: Kind, y: int): int {
    if Leap(k, y) then 366 else 365
  }

  /** The year whose first day has number 0. */
  function EpochYear(k: Kind): int {
    match k
    case Gregorian => 1600
    case Jalali => 979
  }

  /** Days from the epoch to the start of year y, counted one year at a time. */
  function YearStart(k: Kind, y: int): int
    decreases if y < EpochYear(k) then EpochYear(k) - y else y - EpochYear(k)
  {
    if y == EpochYear(k) then 0
    else if y > EpochYear(k) then YearStart(k, y - 1) + YearLength(k, y - 1)
    else YearStart(k, y + 1) - YearLength(k, y)
  }

  /** The number of a day; d may run past the end of the month, counting on from its first day. */
  function DayNumber(k: Kind, t: Date): int
    requires 1 <= t.m <= 12
  {
    YearStart(k, t.y) + MonthStart(k, t.y, t.m) + t.d - 1
  }

  /** The date with a given number, found by walking the calendar one day at a time. */
  function DateOf(k: Kind, n: int): (t: Date)
    ensures Valid(k, t)
    decreases if n < 0 then -n else n
  {
    if n == 0 then Date(EpochYear(k), 1, 1)
    else if n > 0 then Next(k, DateOf(k, n - 1))
    else Prev(k, DateOf(k, n + 1))
  }

  // ----- counting days and walking days agree -----

  lemma YearStartStep(k: Kind, y: int)
    ensures YearStart(k, y + 1) == YearStart(k, y) + YearLength(k, y)
  {
  }

  /** All twelve months, written out once so that later proofs need not unfold the recursion. */
  lemma MonthStarts(k: Kind, y: int)
    ensures MonthStart(k, y, 1) == 0
    ensures MonthStart(k, y, 2) == 31
    ensures k == Jalali ==>
              forall m {:trigger MonthStart(k, y, m)} :: 1 <= m <= 12 ==>
                MonthStart(k, y, m) == if m <= 7 then 31 * (m - 1) else 186 + 30 * (m - 7)
    ensures k == Gregorian ==> var f := if Leap(k, y) then 1 else 0;
              MonthStart(k, y, 3) == 59 + f && MonthStart(k, y, 4) == 90 + f &&
              MonthStart(k, y, 5) == 120 + f && MonthStart(k, y, 6) == 151 + f &&
              MonthStart(k, y, 7) == 181 + f && MonthStart(k, y, 8) == 212 + f &&
              MonthStart(k, y, 9) == 243 + f && MonthStart(k, y, 10) == 273 + f &&
              MonthStart(k, y, 11) == 304 + f && MonthStart(k, y, 12) == 334 + f
    ensures MonthStart(k, y, 13) == YearLength(k, y)
  {
    assert MonthStart(k, y, 2) == 31;
    assert MonthStart(k, y, 3) == 31 + MonthLength(k, y, 2);
    assert MonthStart(k, y, 4) == MonthStart(k, y, 3) + 31;
    assert MonthStart(k, y, 5) == MonthStart(k, y, 4) + MonthLength(k, y, 4);
    assert MonthStart(k, y, 6) == MonthStart(k, y, 5) + 31;
    assert MonthStart(k, y, 7) == MonthStart(k, y, 6) + MonthLength(k, y, 6);
    assert MonthStart(k, y, 8) == MonthStart(k, y, 7) + MonthLength(k, y, 7);
    assert MonthStart(k, y, 9) == MonthStart(k, y, 8) + MonthLength(k, y, 8);
    assert MonthStart(k, y, 10) == MonthStart(k, y, 9) + 30;
    assert MonthStart(k, y, 11) == MonthStart(k, y, 10) + MonthLength(k, y, 10);
    assert MonthStart(k, y, 12) == MonthStart(k, y, 11) + 30;
  }

  lemma NextDayNumber(k: Kind, t: Date)
    requires Valid(k, t)
    ensures Valid(k, Next(k, t)) && DayNumber(k, Next(k, t)) == DayNumber(k, t) + 1
  {
    MonthStarts(k, t.y);
    MonthStarts(k, t.y + 1);
    YearStartStep(k, t.y);
  }

  lemma PrevDayNumber(k: Kind, t: Date)
    requires Valid(k, t)
    ensures Valid(k, Prev(k, t)) && DayNumber(k, Prev(k, t)) == DayNumber(k, t) - 1
  {
    MonthStarts(k, t.y);
    MonthStarts(k, t.y - 1);
    YearStartStep(k, t.y - 1);
  }

  lemma EpochHasNumberZero(k: Kind)
    ensures DayNumber(k, Date(EpochYear(k), 1, 1)) == 0
  {
  }

  lemma {:induction false} DateOfHasNumber(k: Kind, n: int)
    ensures DayNumber(k, DateOf(k, n)) == n
    decreases if n < 0 then -n else n
  {
    hide DayNumber, EpochYear, Next, Prev, Valid;
    if n == 0 {
      EpochHasNumberZero(k);
    } else if n > 0 {
      DateOfHasNumber(k, n - 1);
      NextDayNumber(k, DateOf(k, n - 1));
    } else {
      DateOfHasNumber(k, n + 1);
      PrevDayNumber(k, DateOf(k, n + 1));
    }
  }

  lemma {:induction false} YearStartGrows(k: Kind, y: int, z: int)
    requires y < z
    ensures YearStart(k, y) + YearLength(k, y) <= YearStart(k, z)
    decreases z - y
  {
    YearStartStep(k, z - 1);
    if y < z - 1 { YearStartGrows(k, y, z - 1); }
  }

  lemma {:induction false} MonthStartGrows(k: Kind, y: int, m: int, n: int)
    requires 1 <= m < n <= 13
    ensures MonthStart(k, y, m) + MonthLength(k, y, m) <= MonthStart(k, y, n)
    decreases n - m
  {
    if m < n - 1 { MonthStartGrows(k, y, m, n - 1); }
  }

  lemma EarlierHasSmallerNumber(k: Kind, a: Date, b: Date)
    requires Valid(k, a) && Valid(k, b) && Before(a, b)
    ensures DayNumber(k, a) < DayNumber(k, b)
  {
    MonthStarts(k, a.y);
    if a.m < 13 { MonthStartGrows(k, a.y, a.m, 13); }
    if b.m > 1 { MonthStartGrows(k, b.y, 1, b.m); }
    if a.y < b.y { YearStartGrows(k, a.y, b.y); }
    else if a.m < b.m { MonthStartGrows(k, a.y, a.m, b.m); }
  }

  /** Day numbers order valid dates exactly as the calendar does. */
  lemma DayNumberOrder(k: Kind, a: Date, b: Date)
    requires Valid(k, a) && Valid(k, b)
    ensures Before(a, b) <==> DayNumber(k, a) < DayNumber(k, b)
    ensures a == b <==> DayNumber(k, a) == DayNumber(k, b)
  {
    if Before(a, b) { EarlierHasSmallerNumber(k, a, b); }
    if Before(b, a) { EarlierHasSmallerNumber(k, b, a); }
  }

  /** Walking to the number of a valid date arrives at that date. */
  lemma DateOfInverts(k: Kind, t: Date)
    requires Valid(k, t)
    ensures DateOf(k, DayNumber(k, t)) == t
  {
    DateOfHasNumber(k, DayNumber(k, t));
    DayNumberOrder(k, t, DateOf(k, DayNumber(k, t)));
  }
}
