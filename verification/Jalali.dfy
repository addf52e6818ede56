/**
 The closed-form conversions of payroll/jalali.py (`_g2j` and `_j2g`, the pure Python path), and
 what they mean: they carry a date of one calendar to the date of the other that the day-by-day
 walk of module `Calendar` reaches, 79 days being the distance between the two epochs.
 Python's // and % by positive constants are Dafny's / and %.
 */
module Jalali {
  import opened Arithmetic
  import opened Calendar

  /** 1600-01-01 lies 79 days before 979/01/01. */
  const EPOCH_GAP := 79

  /** The Jalali date of a Gregorian date, by walking the calendars. */
  function ToJalali(g: Date): Date
    requires 1 <= g.m <= 12
  {
    DateOf(Calendar.Jalali, DayNumber(Gregorian, g) - EPOCH_GAP)
  }

  /** The Gregorian date of a Jalali date; a day past the end of its month counts on. */
  function ToGregorian(j: Date): Date
    requires 1 <= j.m <= 12
  {
    DateOf(Gregorian, DayNumber(Calendar.Jalali, j) + EPOCH_GAP)
  }

  // ----- closed forms for the naive year counts -----

  function GregorianYears(y: int): int {
    var z := y - 1600;
    365 * z + (z + 3) / 4 - (z + 99) / 100 + (z + 399) / 400
  }

  function JalaliYears(y: int): int {
    var z := y - 979;
    365 * z + z / 33 * 8 + (z % 33 + 3) / 4
  }

  /** One more year brings one more multiple of k exactly when the year before it was one. */
  lemma StepOf(z: int, k: int)
    requires k > 0 && 1600 % k == 0
    ensures (z + k) / k == (z + k - 1) / k + (if z % k == 0 then 1 else 0)
    ensures (z + 1600) % k == z % k
  {
    var q, r := z / k, z % k;
    Divided(z + k, k, q + 1, r);
    if r == 0 {
      Divided(z + k - 1, k, q, k - 1);
    } else {
      Divided(z + k - 1, k, q + 1, r - 1);
    }
    Divided(z + 1600, k, q + 1600 / k, r);
  }

  lemma GregorianYearsStep(y: int)
    ensures GregorianYears(y + 1) == GregorianYears(y) + YearLength(Gregorian, y)
  {
    var z := y - 1600;
    StepOf(z, 4);
    StepOf(z, 100);
    StepOf(z, 400);
    if y % 400 == 0 { Divided(y, 100, 4 * (y / 400), 0); }
    if y % 100 == 0 { Divided(y, 4, 25 * (y / 100), 0); }
  }

  lemma {:induction false} GregorianYearsClosed(y: int)
    ensures GregorianYears(y) == YearStart(Gregorian, y)
    decreases if y < 1600 then 1600 - y else y - 1600
  {
    if y > 1600 {
      GregorianYearsClosed(y - 1);
      GregorianYearsStep(y - 1);
    } else if y < 1600 {
      GregorianYearsClosed(y + 1);
      GregorianYearsStep(y);
    }
  }

  lemma JalaliYearsStep(y: int)
    ensures JalaliYears(y + 1) == JalaliYears(y) + YearLength(Calendar.Jalali, y)
  {
    var z := y - 979;
    var c, r := z / 33, z % 33;
    if r < 32 {
      Divided(z + 1, 33, c, r + 1);
    } else {
      Divided(z + 1, 33, c + 1, 0);
    }
    Divided(y, 33, if r < 11 then c + 29 else c + 30, if r < 11 then r + 22 else r - 11);
  }

  lemma {:induction false} JalaliYearsClosed(y: int)
    ensures JalaliYears(y) == YearStart(Calendar.Jalali, y)
    decreases if y < 979 then 979 - y else y - 979
  {
    if y > 979 {
      JalaliYearsClosed(y - 1);
      JalaliYearsStep(y - 1);
    } else if y < 979 {
      JalaliYearsClosed(y + 1);
      JalaliYearsStep(y);
    }
  }

  // ----- the two conversions -----

  const GREGORIAN_MONTH_OFFSETS: seq<int> := [0, 31, 59, 90, 120, 151, 181, 212, 243, 273, 304, 334]

  /** `_g2j`: a Gregorian date's day number, shifted by 79, read as a Jalali date. */
  method G2J(gy: int, gm: int, gd: int) returns (jy: int, jm: int, jd: int)
    requires Valid(Gregorian, Date(gy, gm, gd))
    ensures Date(jy, jm, jd) == ToJalali(Date(gy, gm, gd))
  {
    hide YearStart, DateOf;
    var gDayNo := GregorianDayNo(gy, gm, gd);
    var jDayNo := gDayNo - 79;
    jy, jDayNo := JalaliYearOfDay(jDayNo);
    if jDayNo < 186 {
      jm := 1 + jDayNo / 31;
      jd := 1 + jDayNo % 31;
    } else {
      jm := 7 + (jDayNo - 186) / 30;
      jd := 1 + (jDayNo - 186) % 30;
    }
    MonthStarts(Calendar.Jalali, jy);
    DateOfInverts(Calendar.Jalali, Date(jy, jm, jd));
  }

  /** The counting steps of `_g2j`. */
  method GregorianDayNo(gy: int, gm: int, gd: int) returns (gDayNo: int)
    requires 1 <= gm <= 12
    ensures gDayNo == DayNumber(Gregorian, Date(gy, gm, gd))
  {
    hide YearStart, MonthStart, Leap, GregorianYears;
    YearOffset(gy);
    MonthOffset(gy, gm);
    var gy2 := gy - 1600;
    var gm2 := gm - 1;
    var gd2 := gd - 1;
    gDayNo := 365 * gy2 + (gy2 + 3) / 4 - (gy2 + 99) / 100 + (gy2 + 399) / 400;
    gDayNo := gDayNo + GREGORIAN_MONTH_OFFSETS[gm2] + gd2;
    if gm2 > 1 && ((gy % 4 == 0 && gy % 100 != 0) || gy % 400 == 0) {
      gDayNo := gDayNo + 1;
    }
  }

  lemma YearOffset(y: int)
    ensures var z := y - 1600;
            YearStart(Gregorian, y) == 365 * z + (z + 3) / 4 - (z + 99) / 100 + (z + 399) / 400
  {
    hide YearStart;
    GregorianYearsClosed(y);
  }

  lemma MonthOffset(y: int, m: int)
    requires 1 <= m <= 12
    ensures MonthStart(Gregorian, y, m) ==
            GREGORIAN_MONTH_OFFSETS[m - 1] +
            if m > 2 && ((y % 4 == 0 && y % 100 != 0) || y % 400 == 0) then 1 else 0
  {
    hide MonthStart, MonthLength, YearLength, Leap;
    LeapTest(y);
    MonthStarts(Gregorian, y);
    if m <= 6 {
      assert m == 1 || m == 2 || m == 3 || m == 4 || m == 5 || m == 6;
    } else {
      assert m == 7 || m == 8 || m == 9 || m == 10 || m == 11 || m == 12;
    }
  }

  /** The program's leap test is the calendar's. */
  lemma LeapTest(y: int)
    ensures Leap(Gregorian, y) <==> (y % 4 == 0 && y % 100 != 0) || y % 400 == 0
  {
    if y % 400 == 0 { Divided(y, 4, 100 * (y / 400), 0); }
  }

  /** The year-splitting steps of `_g2j`: the year a day lies in and the day counted from its start. */
  method JalaliYearOfDay(n: int) returns (jy: int, jDayNo: int)
    ensures YearStart(Calendar.Jalali, jy) + jDayNo == n
    ensures 0 <= jDayNo < YearLength(Calendar.Jalali, jy)
  {
    hide YearStart;
    jDayNo := n;
    var jNp := jDayNo / 12053;
    jDayNo := jDayNo % 12053;
    ghost var q, e := jDayNo / 1461, 0;
    jy := 979 + 33 * jNp + 4 * (jDayNo / 1461);
    jDayNo := jDayNo % 1461;
    if jDayNo >= 366 {
      e := (jDayNo - 1) / 365;
      jy := jy + (jDayNo - 1) / 365;
      jDayNo := (jDayNo - 1) % 365;
    }
    JalaliYearInCycle(jNp, q, e);
  }

  /** Year e of the q-th four-year group of the c-th 33-year cycle; only e = 0 is leap. */
  lemma JalaliYearInCycle(c: int, q: int, e: int)
    requires 0 <= q <= 8 && 0 <= e <= 3 && (q == 8 ==> e == 0)
    ensures
      var y := 979 + 33 * c + 4 * q + e;
      && YearStart(Calendar.Jalali, y) == 12053 * c + 1461 * q + 365 * e + (if e == 0 then 0 else 1)
      && (Leap(Calendar.Jalali, y) <==> e == 0 && q < 8)
  {
    JalaliCycleStart(c, q, e);
    JalaliCycleLeap(c, q, e);
    JalaliYearsClosed(979 + 33 * c + 4 * q + e);
  }

  lemma JalaliCycleStart(c: int, q: int, e: int)
    requires 0 <= q <= 8 && 0 <= e <= 3 && (q == 8 ==> e == 0)
    ensures JalaliYears(979 + 33 * c + 4 * q + e) ==
            12053 * c + 1461 * q + 365 * e + (if e == 0 then 0 else 1)
  {
    var z := 33 * c + 4 * q + e;
    Divided(z, 33, c, 4 * q + e);
    assert (4 * q + e + 3) / 4 == q + (if e == 0 then 0 else 1);
  }

  lemma JalaliCycleLeap(c: int, q: int, e: int)
    requires 0 <= q <= 8 && 0 <= e <= 3 && (q == 8 ==> e == 0)
    ensures Leap(Calendar.Jalali, 979 + 33 * c + 4 * q + e) <==> e == 0 && q < 8
  {
    var y := 979 + 33 * c + 4 * q + e;
    var i := 22 + 4 * q + e;
    Divided(y, 33, if i < 33 then c + 29 else c + 30, if i < 33 then i else i - 33);
  }

  /** `_j2g`: a Jalali date's day number, shifted by 79, read as a Gregorian date. */
  method J2G(jy: int, jm: int, jd: int) returns (gy: int, gm: int, gd: int)
    requires 1 <= jm <= 12
    ensures Date(gy, gm, gd) == ToGregorian(Date(jy, jm, jd))
  {
    hide YearStart, DateOf;
    var jDayNo := JalaliDayNo(jy, jm, jd);
    var gDayNo := jDayNo + 79;
    var leap: bool;
    gy, gDayNo, leap := GregorianYearOfDay(gDayNo);
    var daysInMonth := [31, if leap then 29 else 28, 31, 30, 31, 30, 31, 31, 30, 31, 30, 31];
    ghost var dayOfYear := gDayNo;
    assert MonthStart(Gregorian, gy, 12) + 31 == YearLength(Gregorian, gy) by {
      MonthStarts(Gregorian, gy);
    }
    gm := 0;
    while gm < 12 && gDayNo >= daysInMonth[gm]
      invariant 0 <= gm < 12
      invariant gDayNo == dayOfYear - MonthStart(Gregorian, gy, gm + 1) >= 0
      decreases 12 - gm
    {
      gDayNo := gDayNo - daysInMonth[gm];
      gm := gm + 1;
    }
    gd := gDayNo + 1;
    gm := gm + 1;
    DateOfInverts(Gregorian, Date(gy, gm, gd));
  }

  /** The counting steps of `_j2g`. */
  method JalaliDayNo(jy: int, jm: int, jd: int) returns (jDayNo: int)
    requires 1 <= jm <= 12
    ensures jDayNo == DayNumber(Calendar.Jalali, Date(jy, jm, jd))
  {
    var jy2 := jy - 979;
    var jm2 := jm - 1;
    var jd2 := jd - 1;
    jDayNo := 365 * jy2 + jy2 / 33 * 8 + (jy2 % 33 + 3) / 4;
    assert jDayNo == JalaliYears(jy);
    JalaliYearsClosed(jy);
    for i := 0 to jm2
      invariant jDayNo == YearStart(Calendar.Jalali, jy) + MonthStart(Calendar.Jalali, jy, i + 1)
    {
      jDayNo := jDayNo + if i < 6 then 31 else 30;
    }
    jDayNo := jDayNo + jd2;
  }

  /** The year-splitting steps of `_j2g`, with the `leap` flag they thread through. */
  method GregorianYearOfDay(n: int) returns (gy: int, gDayNo: int, leap: bool)
    ensures YearStart(Gregorian, gy) + gDayNo == n
    ensures 0 <= gDayNo < YearLength(Gregorian, gy)
    ensures leap == Leap(Gregorian, gy)
  {
    hide YearStart;
    gDayNo := n;
    gy := 1600 + 400 * (gDayNo / 146097);
    ghost var h, r := 4 * (gDayNo / 146097), gDayNo % 146097;
    gDayNo := gDayNo % 146097;
    leap := true;
    if gDayNo >= 36525 {
      gDayNo := gDayNo - 1;
      gy := gy + 100 * (gDayNo / 36524);
      h, r := h + gDayNo / 36524, gDayNo % 36524;
      gDayNo := gDayNo % 36524;
      if gDayNo >= 365 {
        gDayNo := gDayNo + 1;
      } else {
        leap := false;
      }
    }
    ghost var rest, q, b, e := gDayNo, gDayNo / 1461, gDayNo % 1461, 0;
    gy := gy + 4 * (gDayNo / 1461);
    gDayNo := gDayNo % 1461;
    if gDayNo >= 366 {
      leap := false;
      gDayNo := gDayNo - 1;
      e := gDayNo / 365;
      gy := gy + gDayNo / 365;
      gDayNo := gDayNo % 365;
    }
    assert gy == 1600 + 100 * h + 4 * q + e;
    CenturySplit(n);
    YearInCentury(h, r, rest, q, b, e, gDayNo);
  }

  /** The 400-year and 100-year cycles: the h-th century after 1600 and the day r counted from it. */
  lemma CenturySplit(n: int)
    ensures
      var g := n % 146097;
      var e := if g >= 36525 then (g - 1) / 36524 else 0;
      var h := 4 * (n / 146097) + e;
      var r := if g >= 36525 then (g - 1) % 36524 else g;
      && YearStart(Gregorian, 1600 + 100 * h) + r == n
      && (h % 4 == 0 <==> g < 36525)
      && 0 <= r < 36524 + (if h % 4 == 0 then 1 else 0)
  {
    var c, g := n / 146097, n % 146097;
    var e := if g >= 36525 then (g - 1) / 36524 else 0;
    assert 0 <= e <= 3 && (g >= 36525 ==> e >= 1);
    Divided(4 * c + e, 4, c, e);
    Divided(4 * c + e + 3, 4, if e == 0 then c else c + 1, if e == 0 then 3 else e - 1);
    CenturyYear(4 * c + e, 0, 0);
  }

  /** The 4-year and 1-year cycles inside a century, whose first year need not be leap. */
  lemma YearInCentury(h: int, r: int, rest: int, q: int, b: int, e: int, day: int)
    requires 0 <= r < 36524 + (if h % 4 == 0 then 1 else 0)
    requires rest == if h % 4 != 0 && r >= 365 then r + 1 else r
    requires rest == 1461 * q + b && 0 <= b < 1461
    requires if b >= 366 then b - 1 == 365 * e + day && 0 <= day < 365 else e == 0 && day == b
    ensures
      var y := 1600 + 100 * h + 4 * q + e;
      && YearStart(Gregorian, y) + day == YearStart(Gregorian, 1600 + 100 * h) + r
      && 0 <= day < YearLength(Gregorian, y)
      && (Leap(Gregorian, y) <==> b < 366 && !(h % 4 != 0 && r < 365))
  {
    assert 0 <= q <= 24 && 0 <= e <= 3;
    CenturyYear(h, q, e);
    CenturyYear(h, 0, 0);
  }

  /** Year e of the q-th four-year group of the h-th century after 1600. */
  lemma CenturyYear(h: int, q: int, e: int)
    requires 0 <= q <= 24 && 0 <= e <= 3
    ensures
      var y := 1600 + 100 * h + 4 * q + e;
      && YearStart(Gregorian, y) == 36524 * h + (h + 3) / 4 + 1461 * q + 365 * e
         + (if e == 0 then 0 else 1) - (if h % 4 != 0 && (q > 0 || e > 0) then 1 else 0)
      && (Leap(Gregorian, y) <==> e == 0 && (q > 0 || h % 4 == 0))
  {
    CenturyYearStart(h, q, e);
    CenturyYearLeap(h, q, e);
    GregorianYearsClosed(1600 + 100 * h + 4 * q + e);
  }

  lemma CenturyYearStart(h: int, q: int, e: int)
    requires 0 <= q <= 24 && 0 <= e <= 3
    ensures GregorianYears(1600 + 100 * h + 4 * q + e) == 36524 * h + (h + 3) / 4 + 1461 * q + 365 * e
            + (if e == 0 then 0 else 1) - (if h % 4 != 0 && (q > 0 || e > 0) then 1 else 0)
  {
    var z := 100 * h + 4 * q + e;
    var w := 4 * q + e;
    Divided(z + 3, 4, 25 * h + q + (if e == 0 then 0 else 1), if e == 0 then 3 else e - 1);
    Divided(z + 99, 100, h + (if w == 0 then 0 else 1), if w == 0 then 99 else w - 1);
    var c, i := h / 4, h % 4;
    Divided(h + 3, 4, if i == 0 then c else c + 1, if i == 0 then 3 else i - 1);
    var first := i == 0 && w == 0;
    Divided(z + 399, 400, if first then c else c + 1, if first then 399 else 100 * i + w - 1);
  }

  lemma CenturyYearLeap(h: int, q: int, e: int)
    requires 0 <= q <= 24 && 0 <= e <= 3
    ensures Leap(Gregorian, 1600 + 100 * h + 4 * q + e) <==> e == 0 && (q > 0 || h % 4 == 0)
  {
    var y := 1600 + 100 * h + 4 * q + e;
    Divided(y, 4, 400 + 25 * h + q, e);
    Divided(y, 100, 16 + h, 4 * q + e);
    Divided(y, 400, h / 4 + 4, 100 * (h % 4) + 4 * q + e);
  }

  // ----- what the conversions guarantee -----

  /** What `normalize_jalali` lets through: any day 1..31 in any month. */
  predicate Accepted(j: Date) {
    1 <= j.m <= 12 && 1 <= j.d <= 31
  }

  /** An accepted date with the days past the end of its month carried into the next one. */
  function Rolled(j: Date): Date
    requires Accepted(j)
  {
    var len := MonthLength(Calendar.Jalali, j.y, j.m);
    if j.d <= len then j
    else if j.m < 12 then Date(j.y, j.m + 1, j.d - len)
    else Date(j.y + 1, 1, j.d - len)
  }

  lemma ToGregorianNumber(j: Date)
    requires 1 <= j.m <= 12
    ensures Valid(Gregorian, ToGregorian(j))
    ensures DayNumber(Gregorian, ToGregorian(j)) == DayNumber(Calendar.Jalali, j) + EPOCH_GAP
  {
    hide DayNumber, DateOf;
    DateOfHasNumber(Gregorian, DayNumber(Calendar.Jalali, j) + EPOCH_GAP);
  }

  lemma ToJalaliNumber(g: Date)
    requires 1 <= g.m <= 12
    ensures Valid(Calendar.Jalali, ToJalali(g))
    ensures DayNumber(Calendar.Jalali, ToJalali(g)) == DayNumber(Gregorian, g) - EPOCH_GAP
  {
    hide DayNumber, DateOf;
    DateOfHasNumber(Calendar.Jalali, DayNumber(Gregorian, g) - EPOCH_GAP);
  }

  lemma GregorianRoundTrip(g: Date)
    requires Valid(Gregorian, g)
    ensures Valid(Calendar.Jalali, ToJalali(g)) && ToGregorian(ToJalali(g)) == g
  {
    ToJalaliNumber(g);
    ToGregorianNumber(ToJalali(g));
    DayNumberOrder(Gregorian, g, ToGregorian(ToJalali(g)));
  }

  lemma JalaliRoundTrip(j: Date)
    requires Valid(Calendar.Jalali, j)
    ensures Valid(Gregorian, ToGregorian(j)) && ToJalali(ToGregorian(j)) == j
  {
    ToGregorianNumber(j);
    ToJalaliNumber(ToGregorian(j));
    DayNumberOrder(Calendar.Jalali, j, ToJalali(ToGregorian(j)));
  }

  lemma RolledIsSameDay(j: Date)
    requires Accepted(j)
    ensures Valid(Calendar.Jalali, Rolled(j))
    ensures DayNumber(Calendar.Jalali, Rolled(j)) == DayNumber(Calendar.Jalali, j)
  {
    MonthStarts(Calendar.Jalali, j.y);
    MonthStarts(Calendar.Jalali, j.y + 1);
    YearStartStep(Calendar.Jalali, j.y);
  }

  /** Converting an accepted date and back gives its rolled-over form, the date itself iff the day exists. */
  lemma AcceptedRoundTrip(j: Date)
    requires Accepted(j)
    ensures Valid(Gregorian, ToGregorian(j))
    ensures ToGregorian(j) == ToGregorian(Rolled(j))
    ensures ToJalali(ToGregorian(j)) == Rolled(j)
    ensures ToJalali(ToGregorian(j)) == j <==> j.d <= MonthLength(Calendar.Jalali, j.y, j.m)
  {
    RolledIsSameDay(j);
    JalaliRoundTrip(Rolled(j));
  }

  /** Day d of a month, existing or not, is converted to the day d-1 days after the first. */
  lemma {:induction false} CountsFromMonthStart(y: int, m: int, d: int)
    requires 1 <= m <= 12 && 1 <= d
    ensures DayNumber(Gregorian, ToGregorian(Date(y, m, d))) ==
            DayNumber(Gregorian, ToGregorian(Date(y, m, 1))) + (d - 1)
  {
    ToGregorianNumber(Date(y, m, d));
    ToGregorianNumber(Date(y, m, 1));
  }

  /** Order is kept, in both directions, on everything accepted. */
  lemma ConversionKeepsOrder(a: Date, b: Date)
    requires Accepted(a) && Accepted(b)
    ensures Before(ToGregorian(a), ToGregorian(b)) <==> Before(Rolled(a), Rolled(b))
    ensures ToGregorian(a) == ToGregorian(b) <==> Rolled(a) == Rolled(b)
  {
    RolledIsSameDay(a);
    RolledIsSameDay(b);
    ToGregorianNumber(a);
    ToGregorianNumber(b);
    DayNumberOrder(Calendar.Jalali, Rolled(a), Rolled(b));
    DayNumberOrder(Gregorian, ToGregorian(a), ToGregorian(b));
  }

  /** Tomorrow in one calendar is tomorrow in the other. */
  lemma ConversionKeepsNextDay(j: Date)
    requires Valid(Calendar.Jalali, j)
    ensures ToGregorian(Next(Calendar.Jalali, j)) == Next(Gregorian, ToGregorian(j))
  {
    var g, k := ToGregorian(j), Next(Calendar.Jalali, j);
    NextDayNumber(Calendar.Jalali, j);
    ToGregorianNumber(j);
    ToGregorianNumber(k);
    NextDayNumber(Gregorian, g);
    DayNumberOrder(Gregorian, Next(Gregorian, g), ToGregorian(k));
  }

  /**
   Nowruz of 1403 fell on 20 March 2024: the walks meet where the calendars on the wall do. (The
   years are parameters only to keep the verifier from unrolling the counts.)
   */
  lemma Nowruz1403(y: int, z: int)
    requires y == 1403 && z == 2024
    ensures ToGregorian(Date(y, 1, 1)) == Date(z, 3, 20)
  {
    assert YearStart(Calendar.Jalali, y) == 154863 by { JalaliYearsClosed(y); }
    assert YearStart(Gregorian, z) == 154863 by { GregorianYearsClosed(z); }
    assert MonthStart(Gregorian, z, 3) == 60 by { MonthStarts(Gregorian, z); }
    DateOfInverts(Gregorian, Date(z, 3, 20));
  }

  /** Positive Jalali years begin after the year 620, so only the upper bound 9999 can be passed. */
  lemma PositiveYearsConvertLate(j: Date)
    requires Accepted(j) && j.y > 0
    ensures ToGregorian(j).y > 620
  {
    hide ToGregorian, YearStart, MonthStart, Leap;
    ToGregorianNumber(j);
    JalaliYearsClosed(j.y);
    MonthStarts(Calendar.Jalali, j.y);
    GregorianYearsClosed(621);
    var g := ToGregorian(j);
    MonthStarts(Gregorian, g.y);
    if g.y < 621 {
      YearStartGrows(Gregorian, g.y, 621);
      MonthStartGrows(Gregorian, g.y, g.m, 13);
    }
  }

  /** The last day that `datetime.date` knows, in both calendars. */
  lemma LastDates(y: int, z: int)
    requires y == 9378 && z == 9999
    ensures ToGregorian(Date(y, 10, 10)) == Date(z, 12, 31)
  {
    assert YearStart(Calendar.Jalali, y) == 3067672 by { JalaliYearsClosed(y); }
    assert YearStart(Gregorian, z) == 3067672 by { GregorianYearsClosed(z); }
    assert MonthStart(Calendar.Jalali, y, 10) == 276 by { MonthStarts(Calendar.Jalali, y); }
    assert MonthStart(Gregorian, z, 12) == 334 by { MonthStarts(Gregorian, z); }
    DateOfInverts(Gregorian, Date(z, 12, 31));
  }
}
