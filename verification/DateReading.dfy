/**
 Exactly which texts are dates (`normalize_jalali` in payroll/jalali.py): three numbers of any width, in
 ASCII, Persian or Arabic digits, between runs of slashes, hyphens, points and blanks. The same for the
 ISO texts that are shown again as Jalali dates, and the layout of both.
 */
module DateReading {
  import opened Calendar
  import opened DateText
  import opened Jalali
  import opened Text

  // ----- the shape of a typed date -----

  /** A run of slashes, hyphens, points and blanks, possibly empty. */
  predicate Gap(s: string) {
    forall i :: 0 <= i < |s| ==> s[i] == '/' || s[i] == '-' || s[i] == '.' || s[i] in BLANKS
  }

  function Unsigned(p: string): string {
    if p != "" && p[0] == '+' then p[1..] else p
  }

  /** ASCII digits, at least one, with or without a plus sign. */
  predicate Number(p: string) {
    Unsigned(p) != "" && AllDigits(Unsigned(p))
  }

  /** Year, month and day, told apart by nonempty gaps and standing between possibly empty ones. */
  datatype Spelling = Spelling(before: string, year: string, first: string, month: string, second: string,
                               day: string, behind: string)

  predicate SpellsDate(w: Spelling) {
    && Gap(w.before) && Gap(w.first) && Gap(w.second) && Gap(w.behind) && w.first != "" && w.second != ""
    && Number(w.year) && Number(w.month) && Number(w.day)
  }

  function TextOf(w: Spelling): string {
    w.before + (w.year + (w.first + (w.month + (w.second + (w.day + w.behind)))))
  }

  function SpelledDate(w: Spelling): Date {
    Date(Val(Unsigned(w.year)), Val(Unsigned(w.month)), Val(Unsigned(w.day)))
  }

  // ----- splitting -----

  lemma GapChar(c: char)
    ensures IsSeparator(c) <==> c == '/' || c == '-' || c == '.' || c in BLANKS
  {
    BlankTable(c);
  }

  lemma GapIsSeparators(s: string)
    ensures Gap(s) <==> forall i :: 0 <= i < |s| ==> IsSeparator(s[i])
  {
    hide IsSeparator;
    forall i | 0 <= i < |s|
      ensures IsSeparator(s[i]) <==> s[i] == '/' || s[i] == '-' || s[i] == '.' || s[i] in BLANKS
    {
      GapChar(s[i]);
    }
  }

  /** What stands between gaps when a text is split. */
  predicate Part(p: string) {
    p != "" && forall i :: 0 <= i < |p| ==> !IsSeparator(p[i])
  }

  lemma {:induction false} GapSkipped(g: string, rest: string)
    requires forall i :: 0 <= i < |g| ==> IsSeparator(g[i])
    ensures Tokens(g + rest) == Tokens(rest)
  {
    hide IsSeparator;
    if g == "" {
      assert g + rest == rest;
    } else {
      assert (g + rest)[1..] == g[1..] + rest;
      GapSkipped(g[1..], rest);
    }
  }

  lemma FirstPart(p: string, rest: string)
    requires Part(p) && (rest == "" || IsSeparator(rest[0]))
    ensures Tokens(p + rest) == [p] + Tokens(rest)
  {
    hide IsSeparator;
    var s := p + rest;
    assert forall i :: 0 <= i < |p| ==> s[i] == p[i];
    assert rest != "" ==> s[|p|] == rest[0];
    assert TokenLength(s) == |p|;
    assert s[..|p|] == p && s[|p|..] == rest;
  }

  lemma {:induction false} GapBehind(s: string, g: string)
    requires forall i :: 0 <= i < |g| ==> IsSeparator(g[i])
    ensures Tokens(s + g) == Tokens(s)
    decreases |s|
  {
    hide IsSeparator;
    if s == "" {
      GapSkipped(g, "");
      assert g + "" == g && s + g == g;
    } else {
      var k := TokenLength(s);
      if k == 0 {
        assert (s + g)[1..] == s[1..] + g && (s + g)[0] == s[0];
        GapBehind(s[1..], g);
      } else {
        var p, rest := s[..k], s[k..];
        assert s == p + rest && s + g == p + (rest + g);
        assert rest != "" ==> rest[0] == s[k];
        assert rest == "" && g != "" ==> (rest + g)[0] == g[0];
        assert rest != "" ==> (rest + g)[0] == rest[0];
        FirstPart(p, rest);
        FirstPart(p, rest + g);
        GapBehind(rest, g);
      }
    }
  }

  /** Stripping takes off blanks only, which splitting would drop anyway. */
  lemma StripKeepsTokens(s: string)
    ensures Tokens(Strip(s)) == Tokens(s)
  {
    hide Strip, Tokens, IsSeparator, BLANKS;
    var a, b := StripSplits(s);
    forall i | 0 <= i < |a| ensures IsSeparator(a[i]) { GapChar(a[i]); }
    forall i | 0 <= i < |b| ensures IsSeparator(b[i]) { GapChar(b[i]); }
    assert s == a + (Strip(s) + b);
    GapSkipped(a, Strip(s) + b);
    GapBehind(Strip(s), b);
  }

  lemma NumberIsPart(p: string)
    requires Number(p)
    ensures Part(p) && ParseInt(p) == Some(Val(Unsigned(p)))
  {
    var u := Unsigned(p);
    forall i | 0 <= i < |p| ensures !IsSeparator(p[i]) {
      if p[0] == '+' && i > 0 { assert p[i] == u[i - 1]; }
    }
  }

  lemma TokensOfSpelling(w: Spelling)
    requires SpellsDate(w)
    ensures Tokens(TextOf(w)) == [w.year, w.month, w.day]
  {
    hide Tokens, IsSeparator, Number, Unsigned, Gap;
    NumberIsPart(w.year);
    NumberIsPart(w.month);
    NumberIsPart(w.day);
    GapIsSeparators(w.before);
    GapIsSeparators(w.first);
    GapIsSeparators(w.second);
    GapIsSeparators(w.behind);
    var c := w.day + w.behind;
    var b := w.month + (w.second + c);
    FirstPart(w.day, w.behind);
    GapSkipped(w.behind, "");
    assert w.behind + "" == w.behind;
    assert Tokens("") == [] by { NoTokens(); }
    GapSkipped(w.second, c);
    FirstPart(w.month, w.second + c);
    GapSkipped(w.first, b);
    FirstPart(w.year, w.first + b);
    GapSkipped(w.before, w.year + (w.first + b));
  }

  lemma NoTokens()
    ensures Tokens("") == []
  {
  }

  // ----- reading -----

  lemma SpellingIsAscii(w: Spelling)
    requires SpellsDate(w)
    ensures forall i :: 0 <= i < |TextOf(w)| ==> !ForeignDigit(TextOf(w)[i])
  {
    hide ForeignDigit, Gap, Number;
    GapIsAscii(w.before);
    GapIsAscii(w.first);
    GapIsAscii(w.second);
    GapIsAscii(w.behind);
    NumberIsAscii(w.year);
    NumberIsAscii(w.month);
    NumberIsAscii(w.day);
  }

  lemma GapIsAscii(s: string)
    requires Gap(s)
    ensures forall i :: 0 <= i < |s| ==> !ForeignDigit(s[i])
  {
  }

  lemma NumberIsAscii(p: string)
    requires Number(p)
    ensures forall i :: 0 <= i < |p| ==> !ForeignDigit(p[i])
  {
    var u := Unsigned(p);
    forall i | 0 <= i < |p| ensures !ForeignDigit(p[i]) {
      if p[0] == '+' && i > 0 { assert p[i] == u[i - 1]; }
    }
  }

  /**
   Three numbers with gaps between them are read as that date, in whatever digits they are written, if the
   month is 1..12, the day 1..31 and the year positive; otherwise nothing is read.
   */
  lemma DateIsRead(text: string, w: Spelling)
    requires SpellsDate(w) && InAnyDigits(text, TextOf(w))
    ensures ReadJalali(text) ==
            var j := SpelledDate(w);
            if 1 <= j.m <= 12 && 1 <= j.d <= 31 && j.y > 0 then Some(j) else None
  {
    hide Tokens, Strip, ToEnglishDigits, TextOf, InAnyDigits, Number, Unsigned, Gap, ForeignDigit, ParseInt, Val;
    SpellingIsAscii(w);
    TranslatedBack(text, TextOf(w));
    StripKeepsTokens(TextOf(w));
    TokensOfSpelling(w);
    NumberIsPart(w.year);
    NumberIsPart(w.month);
    NumberIsPart(w.day);
  }

  /** The first part of a text that has one, and what stands before and behind it. */
  lemma {:induction false} SplitOff(s: string) returns (gap: string, part: string, rest: string)
    requires Tokens(s) != []
    ensures s == gap + (part + rest) && Part(part) && (forall i :: 0 <= i < |gap| ==> IsSeparator(gap[i]))
    ensures (rest == "" || IsSeparator(rest[0])) && Tokens(s) == [part] + Tokens(rest)
    decreases |s|
  {
    hide IsSeparator;
    var k := TokenLength(s);
    if k == 0 {
      var g, p, r := SplitOff(s[1..]);
      gap, part, rest := [s[0]] + g, p, r;
      assert s == [s[0]] + s[1..];
      assert s == gap + (part + rest);
    } else {
      gap, part, rest := "", s[..k], s[k..];
      assert s == gap + (part + rest);
    }
  }

  lemma {:induction false} NoPartsIsGap(s: string)
    requires Tokens(s) == []
    ensures forall i :: 0 <= i < |s| ==> IsSeparator(s[i])
  {
    hide IsSeparator;
    if s != "" {
      NoPartsIsGap(s[1..]);
      assert forall i :: 0 < i < |s| ==> s[i] == s[1..][i - 1];
    }
  }

  /** And nothing else is a date: whatever is read was spelled like that. */
  lemma ReadTextSpellsDate(text: string) returns (w: Spelling)
    requires ReadJalali(text).Some?
    ensures SpellsDate(w) && InAnyDigits(text, TextOf(w)) && ReadJalali(text) == Some(SpelledDate(w))
  {
    hide Tokens, Strip, ToEnglishDigits, InAnyDigits, IsSeparator, ParseInt, Val, Gap;
    var e := ToEnglishDigits(text);
    TranslatedFrom(text);
    StripKeepsTokens(e);
    var before, year, s := SplitOff(e);
    var first, month, t := SplitOff(s);
    var second, day, behind := SplitOff(t);
    assert |Tokens(behind)| == 0;
    NoPartsIsGap(behind);
    GapIsSeparators(before);
    GapIsSeparators(first);
    GapIsSeparators(second);
    GapIsSeparators(behind);
    assert ParseInt(year).Some? && ParseInt(month).Some? && ParseInt(day).Some?;
    IntIsNumber(year);
    IntIsNumber(month);
    IntIsNumber(day);
    assert first != "" by { GapNeeded(s, first, month, t); }
    assert second != "" by { GapNeeded(t, second, day, behind); }
    w := Spelling(before, year, first, month, second, day, behind);
    assert TextOf(w) == e;
  }

  lemma GapNeeded(s: string, gap: string, part: string, rest: string)
    requires s == gap + (part + rest) && Part(part) && (s == "" || IsSeparator(s[0]))
    ensures gap != ""
  {
    hide IsSeparator;
    assert (part + rest)[0] == part[0];
    assert "" + (part + rest) == part + rest;
  }

  lemma IntIsNumber(p: string)
    requires ParseInt(p).Some?
    ensures Number(p) && ParseInt(p) == Some(Val(Unsigned(p)))
  {
  }

  // ----- canonical text, in any digits -----

  lemma CanonicalSpelling(j: Date)
    requires Accepted(j) && j.y > 0
    ensures var w := Spelling("", PadDec(j.y, 4), "/", PadDec(j.m, 2), "/", PadDec(j.d, 2), "");
            SpellsDate(w) && TextOf(w) == JalaliText(j) && SpelledDate(w) == j
  {
    hide PadDec, Val;
    PadDecMeans(j.y, 4);
    PadDecMeans(j.m, 2);
    PadDecMeans(j.d, 2);
    var d := PadDec(j.d, 2);
    assert d + "" == d;
    PlainIsUnsigned(PadDec(j.y, 4));
    PlainIsUnsigned(PadDec(j.m, 2));
    PlainIsUnsigned(d);
  }

  lemma PlainIsUnsigned(p: string)
    requires p != "" && AllDigits(p)
    ensures Unsigned(p) == p && Number(p)
  {
    assert IsDigit(p[0]);
  }

  /** A canonical date is read back in Persian and Arabic digits too, even in mixed ones. */
  lemma AnyDigitsReadBack(j: Date, text: string)
    requires Accepted(j) && j.y > 0 && InAnyDigits(text, JalaliText(j))
    ensures ReadJalali(text) == Some(j)
    ensures ParseDateInput(Some(text)) == (Some(JalaliText(j)), IsoOfJalali(j))
  {
    hide ReadJalali, PadDec, JalaliText, SpellsDate, SpelledDate, InAnyDigits, IsoOfJalali, TextOf;
    CanonicalSpelling(j);
    DateIsRead(text, Spelling("", PadDec(j.y, 4), "/", PadDec(j.m, 2), "/", PadDec(j.d, 2), ""));
    ParsedDate(text);
  }

  /** The example that the form shows, typed in Persian or in Arabic digits. */
  lemma PlaceholderIsRead()
    ensures JalaliText(Date(1403, 3, 29)) == "1403/03/29"
    ensures ReadJalali("\U{6F1}\U{6F4}\U{6F0}\U{6F3}/\U{6F0}\U{6F3}/\U{6F2}\U{6F9}") == Some(Date(1403, 3, 29))
    ensures ReadJalali("\U{661}\U{664}\U{660}\U{663}/\U{660}\U{663}/\U{662}\U{669}") == Some(Date(1403, 3, 29))
  {
    hide ReadJalali, Val, PadDec, InAnyDigits, JalaliText;
    TypedPlaceholder();
    PlaceholderText();
    AnyDigitsReadBack(Date(1403, 3, 29), "\U{6F1}\U{6F4}\U{6F0}\U{6F3}/\U{6F0}\U{6F3}/\U{6F2}\U{6F9}");
    AnyDigitsReadBack(Date(1403, 3, 29), "\U{661}\U{664}\U{660}\U{663}/\U{660}\U{663}/\U{662}\U{669}");
  }

  lemma PlaceholderText()
    ensures JalaliText(Date(1403, 3, 29)) == "1403/03/29"
  {
    hide Val, PadDec;
    PlaceholderNumbers();
    DigitsOf(1403, 4, "1403");
    DigitsOf(3, 2, "03");
    DigitsOf(29, 2, "29");
    assert "1403" + ("/" + ("03" + ("/" + "29"))) == "1403/03/29";
  }

  lemma TypedPlaceholder()
    ensures InAnyDigits("\U{6F1}\U{6F4}\U{6F0}\U{6F3}/\U{6F0}\U{6F3}/\U{6F2}\U{6F9}", "1403/03/29")
    ensures InAnyDigits("\U{661}\U{664}\U{660}\U{663}/\U{660}\U{663}/\U{662}\U{669}", "1403/03/29")
  {
  }

  lemma PlaceholderNumbers()
    ensures Val("1403") == 1403 && Val("03") == 3 && Val("29") == 29
  {
    ValSnoc("", '1');
    ValSnoc("1", '4');
    ValSnoc("14", '0');
    ValSnoc("140", '3');
    ValSnoc("", '0');
    ValSnoc("0", '3');
    ValSnoc("", '2');
    ValSnoc("2", '9');
    assert "" + ['1'] == "1" && "1" + ['4'] == "14" && "14" + ['0'] == "140" && "140" + ['3'] == "1403";
    assert "" + ['0'] == "0" && "0" + ['3'] == "03" && "" + ['2'] == "2" && "2" + ['9'] == "29";
  }

  // ----- layout -----

  /** Ten characters, the separators in their places, and the three numbers with leading zeros around them. */
  lemma JalaliLayout(j: Date)
    requires Accepted(j) && 1 <= j.y <= 9999
    ensures var t := JalaliText(j);
            && |t| == 10 && t[4] == '/' && t[7] == '/'
            && AllDigits(t[..4]) && AllDigits(t[5..7]) && AllDigits(t[8..])
            && Date(Val(t[..4]), Val(t[5..7]), Val(t[8..])) == j
  {
    hide PadDec, Val, Pow10;
    TwoAndFourPlaces();
    DatePieces(j);
    var t := JalaliText(j);
    assert t[..4] == PadDec(j.y, 4) && t[5..7] == PadDec(j.m, 2) && t[8..] == PadDec(j.d, 2);
  }

  lemma DatePieces(t: Date)
    requires 0 <= t.y <= 9999 && 0 <= t.m <= 99 && 0 <= t.d <= 99
    ensures |PadDec(t.y, 4)| == 4 && |PadDec(t.m, 2)| == 2 && |PadDec(t.d, 2)| == 2
    ensures AllDigits(PadDec(t.y, 4)) && AllDigits(PadDec(t.m, 2)) && AllDigits(PadDec(t.d, 2))
    ensures Val(PadDec(t.y, 4)) == t.y && Val(PadDec(t.m, 2)) == t.m && Val(PadDec(t.d, 2)) == t.d
  {
    hide PadDec, Val, Pow10;
    TwoAndFourPlaces();
    PadDecMeans(t.y, 4);
    PadDecMeans(t.m, 2);
    PadDecMeans(t.d, 2);
    PadDecWidth(t.y, 4);
    PadDecWidth(t.m, 2);
    PadDecWidth(t.d, 2);
  }

  lemma IsoLayout(g: Date)
    requires IsoRange(g)
    ensures var t := IsoText(g);
            && |t| == 10 && t[4] == '-' && t[7] == '-'
            && AllDigits(t[..4]) && AllDigits(t[5..7]) && AllDigits(t[8..])
            && Date(Val(t[..4]), Val(t[5..7]), Val(t[8..])) == g
  {
    hide PadDec, Val, Pow10, MonthLength;
    DatePieces(g);
    var t := IsoText(g);
    assert t[..4] == PadDec(g.y, 4) && t[5..7] == PadDec(g.m, 2) && t[8..] == PadDec(g.d, 2);
  }

  /** A text is an ISO date exactly when it is the print of one. */
  lemma IsoIsItsPrint(s: string, g: Date)
    ensures ReadIso(s) == Some(g) <==> IsoRange(g) && s == IsoText(g)
  {
    hide PadDec, Val, MonthLength;
    if ReadIso(s) == Some(g) {
      DigitsOf(g.y, 4, s[..4]);
      DigitsOf(g.m, 2, s[5..7]);
      DigitsOf(g.d, 2, s[8..]);
      assert s == s[..4] + ("-" + (s[5..7] + ("-" + s[8..])));
    }
    if IsoRange(g) && s == IsoText(g) { IsoReadsBack(g); }
  }

  /** What is shown for a stored text: the Jalali date of the ISO date it begins with, else the text itself. */
  lemma ShownText(iso: string, g: Date)
    ensures IsoRange(g) && |iso| >= 10 && iso[..10] == IsoText(g) ==>
              GregorianIsoToJalali(Some(iso)) == JalaliText(ToJalali(g))
    ensures (forall h: Date :: IsoRange(h) && |iso| >= 10 ==> iso[..10] != IsoText(h)) ==>
              GregorianIsoToJalali(Some(iso)) == iso
  {
    hide ReadIso, IsoText, JalaliText, IsoRange, ToJalali;
    var s := if |iso| > 10 then iso[..10] else iso;
    assert |iso| >= 10 ==> s == iso[..10] by { if |iso| == 10 { assert iso[..10] == iso; } }
    IsoIsItsPrint(s, g);
    if ReadIso(s).Some? {
      IsoIsItsPrint(s, ReadIso(s).value);
      if IsoRange(ReadIso(s).value) { IsoLayout(ReadIso(s).value); }
    }
  }
}
