/**
 Dates as text (payroll/jalali.py): what a user may type, the canonical "YYYY/MM/DD" kept for
 display, the ISO form kept for comparing, and the way back from ISO to Jalali.
 */
module DateText {
  import opened Calendar
  import opened Jalali
  import opened Text

  // ----- reading -----

  predicate IsSeparator(c: char) {
    c in {'/', '-', '.'} || IsSpace(c)
  }

  function TokenLength(s: string): (k: nat)
    ensures k <= |s|
    ensures forall i :: 0 <= i < k ==> !IsSeparator(s[i])
    ensures k < |s| ==> IsSeparator(s[k])
  {
    if s == "" || IsSeparator(s[0]) then 0 else 1 + TokenLength(s[1..])
  }

  /** The nonempty parts between runs of separators. */
  function Tokens(s: string): seq<string> {
    if s == "" then []
    else
      var k := TokenLength(s);
      if k == 0 then Tokens(s[1..]) else [s[..k]] + Tokens(s[k..])
  }

  /** The accepted year, month and day written in a text. */
  function ReadJalali(text: string): (j: Option<Date>)
    ensures j.Some? ==> Accepted(j.value) && j.value.y > 0
  {
    var parts := Tokens(Strip(ToEnglishDigits(text)));
    if |parts| != 3 then None
    else
      var y, m, d := ParseInt(parts[0]), ParseInt(parts[1]), ParseInt(parts[2]);
      if y == None || m == None || d == None then None
      else if 1 <= m.value <= 12 && 1 <= d.value <= 31 && y.value > 0
      then Some(Date(y.value, m.value, d.value))
      else None
  }

  // ----- writing -----

  function Slashed(y: string, m: string, d: string): string {
    y + ("/" + (m + ("/" + d)))
  }

  function JalaliText(j: Date): string
    requires j.m >= 0 && j.d >= 0
  {
    Slashed(PadInt(j.y, 4), PadDec(j.m, 2), PadDec(j.d, 2))
  }

  predicate IsoRange(g: Date) {
    Valid(Gregorian, g) && 1 <= g.y <= 9999
  }

  function IsoText(g: Date): string
    requires IsoRange(g)
  {
    PadDec(g.y, 4) + ("-" + (PadDec(g.m, 2) + ("-" + PadDec(g.d, 2))))
  }

  // ----- the program's functions -----

  function NormalizeJalali(text: Option<string>): Option<string> {
    if text == None || text.value == "" then None
    else
      match ReadJalali(text.value)
      case None => None
      case Some(j) => Some(JalaliText(j))
  }

  /** `datetime.date` refuses years outside 1..9999, and then there is no ISO date. */
  function IsoOfJalali(j: Date): Option<string>
    requires Accepted(j)
  {
    var g := ToGregorian(j);
    if 1 <= g.y <= 9999 then Some(IsoText(g)) else None
  }

  function JalaliToGregorianIso(text: Option<string>): Option<string> {
    match NormalizeJalali(text)
    case None => None
    case Some(norm) =>
      match ReadJalali(norm)
      case None => None
      case Some(j) => IsoOfJalali(j)
  }

  function ParseDateInput(text: Option<string>): (Option<string>, Option<string>) {
    match NormalizeJalali(text)
    case None => (None, None)
    case Some(norm) => (Some(norm), JalaliToGregorianIso(Some(norm)))
  }

  function ReadIso(s: string): Option<Date> {
    if |s| == 10 && s[4] == '-' && s[7] == '-' &&
       AllDigits(s[..4]) && AllDigits(s[5..7]) && AllDigits(s[8..])
    then
      var g := Date(Val(s[..4]), Val(s[5..7]), Val(s[8..]));
      if IsoRange(g) then Some(g) else None
    else None
  }

  /** Display of a stored ISO date; a text that is no ISO date is shown as it is. */
  function GregorianIsoToJalali(iso: Option<string>): string {
    if iso == None || iso.value == "" then ""
    else
      match ReadIso(if |iso.value| > 10 then iso.value[..10] else iso.value)
      case None => iso.value
      case Some(g) => JalaliText(ToJalali(g))
  }

  // ----- reading back what was written -----

  lemma {:induction false} FirstToken(a: string, rest: string)
    requires a != "" && AllDigits(a)
    requires rest == "" || IsSeparator(rest[0])
    ensures Tokens(a + rest) == [a] + Tokens(rest)
  {
    var s := a + rest;
    assert forall i :: 0 <= i < |a| ==> s[i] == a[i] && IsDigit(a[i]);
    assert rest != "" ==> s[|a|] == rest[0];
    assert TokenLength(s) == |a|;
    assert s[..|a|] == a && s[|a|..] == rest;
  }

  lemma SlashSkipped(s: string)
    ensures Tokens("/" + s) == Tokens(s)
  {
    assert ("/" + s)[1..] == s;
  }

  lemma TokensOfSlashed(y: string, m: string, d: string)
    requires y != "" && m != "" && d != "" && AllDigits(y) && AllDigits(m) && AllDigits(d)
    ensures Tokens(Slashed(y, m, d)) == [y, m, d]
  {
    FirstToken(d, "");
    assert d + "" == d;
    SlashSkipped(d);
    FirstToken(m, "/" + d);
    SlashSkipped(m + ("/" + d));
    FirstToken(y, "/" + (m + ("/" + d)));
  }

  lemma DigitsParse(n: nat, w: nat)
    ensures PadDec(n, w) != "" && AllDigits(PadDec(n, w)) && ParseInt(PadDec(n, w)) == Some(n)
  {
    PadDecMeans(n, w);
    assert IsDigit(PadDec(n, w)[0]);
  }

  /** A written date is read back exactly, whether or not its month has such a day. */
  lemma JalaliTextReadsBack(j: Date)
    requires Accepted(j) && j.y > 0
    ensures ReadJalali(JalaliText(j)) == Some(j)
  {
    hide Tokens, Strip, ToEnglishDigits, PadDec, Slashed, ParseInt;
    var y, m, d := PadDec(j.y, 4), PadDec(j.m, 2), PadDec(j.d, 2);
    var t := JalaliText(j);
    DigitsParse(j.y, 4);
    DigitsParse(j.m, 2);
    DigitsParse(j.d, 2);
    SlashedIsClean(y, m, d);
    TokensOfSlashed(y, m, d);
    assert Tokens(Strip(ToEnglishDigits(t))) == [y, m, d];
  }

  lemma SlashedIsClean(y: string, m: string, d: string)
    requires y != "" && m != "" && d != "" && AllDigits(y) && AllDigits(m) && AllDigits(d)
    ensures Strip(ToEnglishDigits(Slashed(y, m, d))) == Slashed(y, m, d)
  {
    hide ToEnglishDigits, Strip;
    var t := Slashed(y, m, d);
    assert IsDigit(y[0]) && IsDigit(d[|d| - 1]) && t[0] == y[0] && t[|t| - 1] == d[|d| - 1];
    CleanStays(t);
  }

  /** The empty text holds no date, and canonical text is never empty. */
  lemma ReadNeedsText(text: string)
    ensures ReadJalali(text).Some? ==> text != "" && JalaliText(ReadJalali(text).value) != ""
  {
    assert ToEnglishDigits("") == "" && Tokens("") == [];
  }

  /** Canonical text is a fixed point, so saving a date again keeps both its stored forms. */
  lemma NormalizeIdempotent(text: Option<string>)
    requires NormalizeJalali(text).Some?
    ensures NormalizeJalali(NormalizeJalali(text)) == NormalizeJalali(text)
    ensures ParseDateInput(NormalizeJalali(text)) == ParseDateInput(text)
  {
    hide ReadJalali, JalaliText, IsoOfJalali;
    ReadNeedsText(text.value);
    JalaliTextReadsBack(ReadJalali(text.value).value);
  }

  /** Both stored forms, in terms of the date that was typed. */
  lemma ParsedDate(text: string)
    requires ReadJalali(text).Some?
    ensures var j := ReadJalali(text).value;
            && ParseDateInput(Some(text)) == (Some(JalaliText(j)), IsoOfJalali(j))
            && (IsoOfJalali(j).Some? <==> ToGregorian(j).y <= 9999)
  {
    hide ReadJalali, JalaliText, ToGregorian;
    var j := ReadJalali(text).value;
    ReadNeedsText(text);
    JalaliTextReadsBack(j);
    assert NormalizeJalali(Some(text)) == Some(JalaliText(j));
    PositiveYearsConvertLate(j);
  }

  /** The day that a Jalali text stands for, if it has an ISO form: its year converts to at most 9999. */
  function ComparableDay(text: Option<string>): (j: Option<Date>)
    ensures j.Some? ==> Accepted(j.value) && j.value.y > 0
  {
    if text == None then None
    else
      match ReadJalali(text.value)
      case None => None
      case Some(j) => if ToGregorian(j).y <= 9999 then Some(j) else None
  }

  lemma IsoOfText(text: Option<string>)
    ensures ParseDateInput(text).1 ==
            if ComparableDay(text).Some? then IsoOfJalali(ComparableDay(text).value) else None
    ensures ParseDateInput(text).1.Some? <==> ComparableDay(text).Some?
  {
    hide ReadJalali, JalaliText, IsoOfJalali, ToGregorian;
    if text.Some? && ReadJalali(text.value).Some? { ParsedDate(text.value); }
  }

  // ----- ISO text keeps the order of days -----

  lemma TwoAndFourPlaces()
    ensures Pow10(2) == 100 && Pow10(4) == 10000
  {
  }

  lemma IsoOrder(a: Date, b: Date)
    requires IsoRange(a) && IsoRange(b)
    ensures StrLess(IsoText(a), IsoText(b)) <==> Before(a, b)
    ensures IsoText(a) == IsoText(b) <==> a == b
  {
    TwoAndFourPlaces();
    PaddedOrder(a.y, b.y, 4);
    PaddedOrder(a.m, b.m, 2);
    PaddedOrder(a.d, b.d, 2);
    var dayA, dayB := "-" + PadDec(a.d, 2), "-" + PadDec(b.d, 2);
    var restA, restB := PadDec(a.m, 2) + dayA, PadDec(b.m, 2) + dayB;
    PieceOrder("-", PadDec(a.d, 2), "-", PadDec(b.d, 2));
    PieceOrder(PadDec(a.m, 2), dayA, PadDec(b.m, 2), dayB);
    PieceOrder("-", restA, "-", restB);
    PieceOrder(PadDec(a.y, 4), "-" + restA, PadDec(b.y, 4), "-" + restB);
    StrLessTotal("-", "-");
  }

  /**
   Comparing stored ISO text, as the reports do, compares the Jalali days that were typed, days
   past the end of a month counting on into the next.
   */
  lemma IsoComparesJalali(a: Date, b: Date)
    requires Accepted(a) && Accepted(b)
    requires IsoOfJalali(a).Some? && IsoOfJalali(b).Some?
    ensures StrAtMost(IsoOfJalali(a).value, IsoOfJalali(b).value) <==> AtMost(Rolled(a), Rolled(b))
  {
    AcceptedRoundTrip(a);
    AcceptedRoundTrip(b);
    ConversionKeepsOrder(a, b);
    IsoOrder(ToGregorian(a), ToGregorian(b));
  }

  lemma IsoReadsBack(g: Date)
    requires IsoRange(g)
    ensures |IsoText(g)| == 10 && ReadIso(IsoText(g)) == Some(g)
  {
    hide PadDec, Pow10, Val, MonthLength;
    var s := IsoText(g);
    TwoAndFourPlaces();
    PadDecMeans(g.y, 4);
    PadDecMeans(g.m, 2);
    PadDecMeans(g.d, 2);
    PadDecWidth(g.y, 4);
    PadDecWidth(g.m, 2);
    PadDecWidth(g.d, 2);
    assert s[..4] == PadDec(g.y, 4) && s[5..7] == PadDec(g.m, 2) && s[8..] == PadDec(g.d, 2);
  }

  /**
   The Jalali date shown for a stored ISO date is the rolled-over form of the typed one, and is the
   stored Jalali text exactly when the typed day exists.
   */
  lemma ShownDate(j: Date)
    requires Accepted(j) && j.y > 0 && IsoOfJalali(j).Some?
    ensures GregorianIsoToJalali(IsoOfJalali(j)) == JalaliText(Rolled(j))
    ensures GregorianIsoToJalali(IsoOfJalali(j)) == JalaliText(j) <==>
            j.d <= MonthLength(Calendar.Jalali, j.y, j.m)
  {
    AcceptedRoundTrip(j);
    IsoReadsBack(ToGregorian(j));
    assert GregorianIsoToJalali(IsoOfJalali(j)) == JalaliText(Rolled(j));
    if JalaliText(Rolled(j)) == JalaliText(j) {
      JalaliTextReadsBack(j);
      JalaliTextReadsBack(Rolled(j));
    }
  }

  // ----- which days have an ISO form, and what becomes of the others -----

  const LAST_ISO_DAY := Date(9378, 10, 10)

  /** A typed day has an ISO form exactly up to the last day of the Gregorian year 9999. */
  lemma IsoFormExactly(j: Date)
    requires Accepted(j) && j.y > 0
    ensures IsoOfJalali(j).Some? <==> AtMost(Rolled(j), LAST_ISO_DAY)
  {
    hide ToGregorian, IsoText;
    LastDates(9378, 9999);
    AcceptedRoundTrip(j);
    ConversionKeepsOrder(j, LAST_ISO_DAY);
    PositiveYearsConvertLate(j);
    assert Rolled(LAST_ISO_DAY) == LAST_ISO_DAY;
    assert ToGregorian(j).y <= 9999 <==> AtMost(ToGregorian(j), Date(9999, 12, 31));
  }

  /** At an input: 1403/07/31, in a month of 30 days, is kept as typed and shown as 1403/08/01. */
  lemma ThirtyFirstOfMehr()
    ensures ParseDateInput(Some(JalaliText(Date(1403, 7, 31)))).0 == Some(JalaliText(Date(1403, 7, 31)))
    ensures GregorianIsoToJalali(ParseDateInput(Some(JalaliText(Date(1403, 7, 31)))).1) == JalaliText(Date(1403, 8, 1))
    ensures JalaliText(Date(1403, 8, 1)) != JalaliText(Date(1403, 7, 31))
  {
    hide ReadJalali, JalaliText, IsoOfJalali, GregorianIsoToJalali;
    var j := Date(1403, 7, 31);
    assert Rolled(j) == Date(1403, 8, 1);
    JalaliTextReadsBack(j);
    ParsedDate(JalaliText(j));
    IsoFormExactly(j);
    ShownDate(j);
  }

  /** At an input: 9999/01/01 is a date, but too distant to bound a report. */
  lemma DistantDay()
    ensures ReadJalali(JalaliText(Date(9999, 1, 1))) == Some(Date(9999, 1, 1))
    ensures ComparableDay(Some(JalaliText(Date(9999, 1, 1)))) == None
  {
    hide ReadJalali, JalaliText;
    var j := Date(9999, 1, 1);
    assert Rolled(j) == j;
    JalaliTextReadsBack(j);
    IsoFormExactly(j);
    PositiveYearsConvertLate(j);
  }
}
