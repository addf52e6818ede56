/**
 Amounts and percents as text: what the server reads (`parse_amount`, `parse_percent`), what it
 prints (`format_money`, `format_money_fa`, `format_percent`), and the browser's formatting of a
 money field (`digits`, `group`, `fmt` in static/js/app.js).
 */
module MoneyText {
  import opened Arithmetic
  import opened Rounding
  import opened Text

  // ----- the server reads -----

  /** Separators the parser deletes: the two commas and the blank. */
  const AMOUNT_NOISE: set<char> := {',', '\U{60C}', ' '}

  const PERCENT_SIGNS: set<char> := {'%', '\U{66A}'}

  function ParseAmount(text: Option<string>): (a: Option<int>)
    ensures a.Some? ==> a.value >= 0
  {
    if text == None then None
    else
      var s := Without(Strip(ToEnglishDigits(text.value)), AMOUNT_NOISE);
      if s == "" then None
      else
        match ParseFloat(s)
        case None => None
        case Some(v) => AmountOf(v)
  }

  /** Negative numbers are refused (minus zero is none), fractions rounded. */
  function AmountOf(v: Decimal): (a: Option<int>)
    ensures a.Some? ==> a.value >= 0
  {
    if v.negative && v.num > 0 then None else Some(RoundHalfEven(v.num, Pow10(v.scale)))
  }

  /** The percent, scaled: None outside 0..100, rounded to four decimals inside. */
  function ParsePercent(text: Option<string>): (p: Option<int>)
    ensures p.Some? ==> p.value >= 0
  {
    if text == None || Strip(text.value) == "" then None
    else
      match ParseFloat(Without(Strip(ToEnglishDigits(text.value)), PERCENT_SIGNS))
      case None => None
      case Some(v) => PercentOf(v)
  }

  function PercentOf(v: Decimal): (p: Option<int>)
    ensures p.Some? ==> p.value >= 0
  {
    if (v.negative && v.num > 0) || v.num > 100 * Pow10(v.scale) then None
    else Some(RoundHalfEven(v.num * PERCENT_SCALE, Pow10(v.scale)))
  }

  lemma PercentAtMostWhole(v: Decimal)
    requires PercentOf(v).Some?
    ensures 0 <= PercentOf(v).value <= WHOLE
  {
    var d := Pow10(v.scale);
    RoundingIsMonotone(v.num * PERCENT_SCALE, WHOLE * d, d);
    RoundingIsExact(WHOLE, d);
  }

  // ----- the server prints -----

  /** Commas before every third digit, counted from the right. */
  function GroupThousands(s: string): string {
    if |s| <= 3 then s else GroupThousands(s[..|s| - 3]) + "," + s[|s| - 3..]
  }

  function FormatMoney(n: int): string {
    if n >= 0 then GroupThousands(Dec(n)) else "-" + GroupThousands(Dec(-n))
  }

  function FormatMoneyFa(n: int): string {
    ToPersianDigits(FormatMoney(n))
  }

  function TrimZeros(s: string): string {
    if s != "" && s[|s| - 1] == '0' then TrimZeros(s[..|s| - 1]) else s
  }

  /** `%g` never needs more than its six digits for a percent of four decimals. */
  function FormatPercent(p: nat): string {
    var whole, frac := p / PERCENT_SCALE, p % PERCENT_SCALE;
    if frac == 0 then Dec(whole) else Dec(whole) + "." + TrimZeros(PadDec(frac, 4))
  }

  // ----- the browser -----

  predicate IsWord(c: char) {
    IsDigit(c) || 'a' <= c <= 'z' || 'A' <= c <= 'Z' || c == '_'
  }

  /** `s.replace(/[^0-9]/g, "")` */
  function Digits(s: string): (t: string)
    ensures AllDigits(t)
  {
    Keep(s, IsDigit)
  }

  /** Length of the run of digits that s begins with. */
  function DigitRun(s: string): (k: nat)
    ensures k <= |s|
  {
    if s == "" || !IsDigit(s[0]) then 0 else 1 + DigitRun(s[1..])
  }

  /**
   Where `/\B(?=(\d{3})+(?!\d))/g` matches: at position i no word boundary, and from i on a whole
   number of digit triples up to the end of the run of digits.
   */
  predicate CommaAt(s: string, i: nat)
    requires i < |s|
  {
    i > 0 && IsWord(s[i - 1]) && DigitRun(s[i..]) > 0 && DigitRun(s[i..]) % 3 == 0
  }

  function GroupFrom(s: string, i: nat): string
    requires i <= |s|
    decreases |s| - i
  {
    if i == |s| then ""
    else (if CommaAt(s, i) then "," else "") + [s[i]] + GroupFrom(s, i + 1)
  }

  function ClientGroup(s: string): string {
    GroupFrom(s, 0)
  }

  function Num(s: string): nat {
    Val(Digits(s))
  }

  /** What a money field shows after each keystroke. */
  function Fmt(s: string): string {
    if Digits(s) == "" then "" else ClientGroup(Digits(s))
  }

  // ----- grouping -----

  predicate DigitsAndCommas(s: string) {
    forall i :: 0 <= i < |s| ==> IsDigit(s[i]) || s[i] == ','
  }

  /** Grouping adds commas, strictly inside. */
  lemma {:induction false} GroupShape(s: string)
    requires AllDigits(s) && s != ""
    ensures var g := GroupThousands(s);
            DigitsAndCommas(g) && g != "" && IsDigit(g[0]) && IsDigit(g[|g| - 1])
  {
    if |s| > 3 {
      GroupShape(s[..|s| - 3]);
    }
  }

  /** Deleting the commas restores the digits. */
  lemma {:induction false} GroupKeepsDigits(s: string, noise: set<char>)
    requires AllDigits(s) && ',' in noise && forall c :: c in noise ==> !IsDigit(c)
    ensures Without(GroupThousands(s), noise) == s
  {
    hide Without;
    if |s| <= 3 {
      WithoutNothing(s, noise);
    } else {
      var a, b := s[..|s| - 3], s[|s| - 3..];
      var tail := "," + b;
      GroupKeepsDigits(a, noise);
      WithoutNothing(b, noise);
      WithoutCons(',', b, noise);
      WithoutConcat(GroupThousands(a), tail, noise);
      assert GroupThousands(s) == GroupThousands(a) + tail;
      assert s == a + b;
    }
  }

  /** The browser reads the digits back out of a grouped number. */
  lemma DigitsOfGrouped(d: string)
    requires AllDigits(d)
    ensures Digits(GroupThousands(d)) == d
  {
    hide GroupThousands, Keep, Without;
    GroupKeepsDigits(d, {','});
    KeepIgnoresDropped(GroupThousands(d), {','}, IsDigit);
    KeepAll(d, IsDigit);
  }

  lemma {:induction false} RunOfDigits(s: string)
    requires AllDigits(s)
    ensures DigitRun(s) == |s|
  {
    if s != "" { RunOfDigits(s[1..]); }
  }

  /** In a string of digits a comma stands where a whole number of triples remains. */
  lemma GroupStep(s: string, i: nat)
    requires AllDigits(s) && i < |s|
    ensures GroupFrom(s, i) ==
            (if i > 0 && (|s| - i) % 3 == 0 then "," else "") + [s[i]] + GroupFrom(s, i + 1)
  {
    RunOfDigits(s[i..]);
    assert CommaAt(s, i) <==> i > 0 && (|s| - i) % 3 == 0;
  }

  /** Fewer than three remaining digits take no comma, nor do three at the very start. */
  lemma {:induction false} PlainTail(s: string, i: nat)
    requires AllDigits(s) && i <= |s| && (|s| - i < 3 || (i == 0 && |s| == 3))
    ensures GroupFrom(s, i) == s[i..]
    decreases |s| - i
  {
    if i < |s| {
      GroupStep(s, i);
      PlainTail(s, i + 1);
      assert s[i..] == [s[i]] + s[i + 1..];
    }
  }

  lemma LastTriple(s: string, i: nat)
    requires AllDigits(s) && 0 < i && |s| == i + 3
    ensures GroupFrom(s, i) == "," + s[i..]
  {
    hide GroupFrom;
    GroupStep(s, i);
    PlainTail(s, i + 1);
    assert s[i..] == [s[i]] + s[i + 1..];
  }

  /** Three more digits at the end leave the commas before them in place and add one. */
  lemma {:induction false} GroupFromSplit(a: string, b: string, i: nat)
    requires AllDigits(a) && AllDigits(b) && |b| == 3 && i <= |a| && a != ""
    ensures GroupFrom(a + b, i) == GroupFrom(a, i) + ("," + b)
    decreases |a| - i
  {
    hide CommaAt, AllDigits, GroupFrom;
    var s := a + b;
    DigitsJoined(a, b);
    if i < |a| {
      GroupFromSplit(a, b, i + 1);
      GroupStep(s, i);
      GroupStep(a, i);
      assert s[i] == a[i];
    } else {
      LastTriple(s, i);
      NothingLeft(a);
      assert s[i..] == b && "" + ("," + b) == "," + b;
    }
  }

  lemma DigitsJoined(a: string, b: string)
    requires AllDigits(a) && AllDigits(b)
    ensures AllDigits(a + b)
  {
  }

  lemma NothingLeft(a: string)
    ensures GroupFrom(a, |a|) == ""
  {
  }

  /** The browser's regular expression and the server's format group every digit string alike. */
  lemma {:induction false} ClientGroupsLikeServer(s: string)
    requires AllDigits(s)
    ensures ClientGroup(s) == GroupThousands(s)
  {
    hide GroupFrom;
    if |s| <= 3 {
      PlainTail(s, 0);
    } else {
      var a, b := s[..|s| - 3], s[|s| - 3..];
      ClientGroupsLikeServer(a);
      GroupFromSplit(a, b, 0);
      assert s == a + b;
      assert GroupThousands(a) + "," + b == GroupThousands(a) + ("," + b);
    }
  }

  lemma {:induction false} SignedGroupFrom(s: string, i: nat)
    requires AllDigits(s) && i <= |s|
    ensures GroupFrom("-" + s, i + 1) == GroupFrom(s, i)
    decreases |s| - i
  {
    var t := "-" + s;
    if i < |s| {
      SignedGroupFrom(s, i + 1);
      assert t[i + 1..] == s[i..];
      assert i > 0 ==> t[i] == s[i - 1];
      assert CommaAt(t, i + 1) <==> CommaAt(s, i) by {
        assert i > 0 ==> IsDigit(s[i - 1]);
      }
    }
  }

  /** For every integer, also a negative shop share, the browser shows what the server prints. */
  lemma ClientShowsMoney(n: int)
    ensures ClientGroup(PadInt(n, 1)) == FormatMoney(n)
  {
    hide PadDec, GroupThousands, AllDigits;
    if n >= 0 {
      PadDecMeans(n, 1);
      ClientGroupsLikeServer(Dec(n));
    } else {
      PadDecMeans(-n, 0);
      PadDecMeans(-n, 1);
      NoPaddingNeeded(-n);
      var s := Dec(-n);
      ClientGroupsLikeServer(s);
      SignedGroupFrom(s, 0);
      assert !CommaAt("-" + s, 0);
    }
  }

  lemma NoPaddingNeeded(n: nat)
    ensures PadDec(n, 0) == PadDec(n, 1)
    decreases n
  {
    if n >= 10 { NoPaddingNeeded(n / 10); }
  }

  // ----- reading back -----

  lemma ParseCleanAmount(s: string, v: Decimal)
    requires Clean(s) && Without(s, AMOUNT_NOISE) != ""
    requires ParseFloat(Without(s, AMOUNT_NOISE)) == Some(v)
    ensures ParseAmount(Some(s)) == AmountOf(v)
  {
    CleanStays(s);
  }

  lemma WholeAmount(negative: bool, n: nat)
    ensures AmountOf(Decimal(negative, n, 0)) == if negative && n > 0 then None else Some(n)
  {
    assert Pow10(0) == 1;
    RoundingIsExact(n, 1);
  }

  lemma ParseGrouped(d: string)
    requires d != "" && AllDigits(d)
    ensures Clean(GroupThousands(d)) && ParseAmount(Some(GroupThousands(d))) == Some(Val(d))
  {
    hide ParseAmount, ParseFloat;
    GroupShape(d);
    GroupKeepsDigits(d, AMOUNT_NOISE);
    ParseFloatOfDigits(d);
    ParseCleanAmount(GroupThousands(d), Decimal(false, Val(d), 0));
    WholeAmount(false, Val(d));
  }

  lemma ParseSignedGrouped(d: string)
    requires d != "" && AllDigits(d)
    ensures Clean("-" + GroupThousands(d))
    ensures ParseAmount(Some("-" + GroupThousands(d))) == if Val(d) == 0 then Some(0) else None
  {
    hide ParseAmount, ParseFloat, Without, GroupThousands, Val;
    var g := GroupThousands(d);
    var m := "-" + g;
    GroupShape(d);
    assert m[|m| - 1] == g[|g| - 1];
    GroupKeepsDigits(d, AMOUNT_NOISE);
    WithoutCons('-', g, AMOUNT_NOISE);
    ParseFloatOfDigits(d);
    ParseCleanAmount(m, Decimal(true, Val(d), 0));
    WholeAmount(true, Val(d));
  }

  /** Every amount is read back from its print; a negative number is printed but refused. */
  lemma MoneyReadsBack(n: int)
    ensures ParseAmount(Some(FormatMoney(n))) == if n >= 0 then Some(n) else None
  {
    hide ParseAmount;
    var k := if n >= 0 then n else -n;
    PadDecMeans(k, 1);
    ParseGrouped(Dec(k));
    ParseSignedGrouped(Dec(k));
  }

  lemma NoAmount()
    ensures ParseAmount(None) == None && ParseAmount(Some("")) == None
  {
    assert Strip(ToEnglishDigits("")) == "";
  }

  /** The texts that the examples below and in other modules type. */
  lemma SmallAmounts()
    ensures ParseAmount(Some("0")) == Some(0) && ParseAmount(Some("1")) == Some(1)
    ensures ParseAmount(Some("3")) == Some(3) && ParseAmount(Some("5")) == Some(5)
  {
    hide ParseAmount;
    ParseGrouped("0");
    ParseGrouped("1");
    ParseGrouped("3");
    ParseGrouped("5");
    ValSnoc("", '0');
    ValSnoc("", '1');
    ValSnoc("", '3');
    ValSnoc("", '5');
  }

  lemma PersianAndBack(s: string)
    requires Clean(s)
    ensures ToEnglishDigits(ToPersianDigits(s)) == ToEnglishDigits(s)
  {
    var t := ToEnglishDigits(ToPersianDigits(s));
    CleanStays(s);
    forall i | 0 <= i < |s| ensures t[i] == s[i] {
      if IsDigit(s[i]) {
        assert EnglishDigit(PersianDigit(s[i])) == DigitChar(DigitValue(s[i]));
      }
    }
  }

  /** The same in Persian digits, the form shown on every page. */
  lemma PersianMoneyReadsBack(n: int)
    ensures ParseAmount(Some(FormatMoneyFa(n))) == if n >= 0 then Some(n) else None
  {
    var k := if n >= 0 then n else -n;
    PadDecMeans(k, 1);
    ParseGrouped(Dec(k));
    ParseSignedGrouped(Dec(k));
    MoneyReadsBack(n);
    PersianAndBack(FormatMoney(n));
  }

  /** The field formatter reaches its fixed point in one step and keeps the number typed. */
  lemma FmtKeepsNumber(s: string)
    ensures Num(Fmt(s)) == Num(s) && Fmt(Fmt(s)) == Fmt(s)
  {
    hide Keep, GroupThousands, ClientGroup;
    var d := Digits(s);
    if d == "" {
      KeepNothing("", IsDigit);
    } else {
      ClientGroupsLikeServer(d);
      DigitsOfGrouped(d);
    }
  }

  /** Whatever was typed, what the field shows is read by the server as the number the browser uses. */
  lemma FieldReadsAsNumber(s: string)
    ensures ParseAmount(Some(Fmt(s))) == if Digits(s) == "" then None else Some(Num(s))
  {
    hide GroupThousands;
    if Digits(s) == "" {
      assert Strip(ToEnglishDigits("")) == "";
    } else {
      ClientGroupsLikeServer(Digits(s));
      ParseGrouped(Digits(s));
    }
  }

  /**
   The server reads Persian digits, the browser's field does not: an amount pasted the way every
   page shows it is wiped, although posting it directly would have worked.
   */
  lemma PastedPersianIsWiped(n: nat)
    ensures Fmt(FormatMoneyFa(n)) == ""
    ensures ParseAmount(Some(Fmt(FormatMoneyFa(n)))) == None && ParseAmount(Some(FormatMoneyFa(n))) == Some(n)
  {
    hide ParseAmount, FormatMoney;
    var s := FormatMoneyFa(n);
    forall i | 0 <= i < |s| ensures !IsDigit(s[i]) {
      assert s[i] == PersianDigit(FormatMoney(n)[i]);
    }
    KeepNothing(s, IsDigit);
    FieldReadsAsNumber(s);
    PersianMoneyReadsBack(n);
  }

  // ----- when the field keeps what the server would have read -----

  /** The numeral the server finds in an amount, before the sign and the fraction are dealt with. */
  function NumeralOf(s: string): Option<Decimal> {
    ParseFloat(Without(Strip(ToEnglishDigits(s)), AMOUNT_NOISE))
  }

  lemma AmountOfNumeral(s: string)
    ensures ParseAmount(Some(s)) == if NumeralOf(s).Some? then AmountOf(NumeralOf(s).value) else None
  {
    hide AmountOf, ToEnglishDigits, Without;
    assert Strip("") == "";
    assert ParseFloat("") == None;
  }

  /** All its digits, Persian and Arabic ones included, spell the number. */
  lemma NumeralDigits(s: string)
    requires NumeralOf(s).Some?
    ensures Digits(ToEnglishDigits(s)) != "" && Num(ToEnglishDigits(s)) == NumeralOf(s).value.num
  {
    hide Keep, ParseFloat, Strip, Without, Val, ToEnglishDigits;
    var e := ToEnglishDigits(s);
    NumeralSpells(Without(Strip(e), AMOUNT_NOISE));
    KeepIgnoresDropped(Strip(e), AMOUNT_NOISE, IsDigit);
    KeepIgnoresStrip(e, IsDigit);
  }

  lemma WholeScale()
    ensures Pow10(0) == 1
  {
  }

  lemma TenAtLeast(scale: nat)
    requires scale > 0
    ensures Pow10(scale) >= 10
  {
  }

  /** Only nothing and whole numbers are what is left of their digits after rounding the fraction. */
  lemma RoundsToOwnDigits(num: nat, scale: nat)
    ensures RoundHalfEven(num, Pow10(scale)) == num <==> scale == 0 || num == 0
  {
    var d := Pow10(scale);
    hide RoundHalfEven, Pow10;
    if scale == 0 {
      assert d == 1 by { WholeScale(); }
      RoundingIsExact(num, 1);
    } else if num == 0 {
      RoundingIsExact(0, d);
    } else {
      TenAtLeast(scale);
      RoundsToNearest(num, d);
      MulOrder(d - 1, 1, num);
      assert (d - 1) * num == d * num - num;
    }
  }

  /**
   The server reads from the field what it would have read from the text itself exactly when the
   ASCII digits alone spell the rounded number that all the digits stand for; a text the server
   refuses must not hold any ASCII digit.
   */
  lemma FieldKeepsAmount(s: string)
    ensures ParseAmount(Some(Fmt(s))) == ParseAmount(Some(s)) <==>
            if ParseAmount(Some(s)) == None then Digits(s) == ""
            else
              && NumeralOf(s).Some? && Digits(s) != ""
              && Num(s) == RoundHalfEven(Num(ToEnglishDigits(s)), Pow10(NumeralOf(s).value.scale))
  {
    hide ParseAmount, NumeralOf, Digits, Val, RoundHalfEven, ToEnglishDigits;
    FieldReadsAsNumber(s);
    AmountOfNumeral(s);
    if NumeralOf(s).Some? { NumeralDigits(s); }
  }

  /** Without Persian or Arabic digits: the text is refused and holds no digit, or its number is whole or zero. */
  lemma AsciiFieldKeepsAmount(s: string)
    requires ToEnglishDigits(s) == s
    ensures ParseAmount(Some(Fmt(s))) == ParseAmount(Some(s)) <==>
            if ParseAmount(Some(s)) == None then Digits(s) == ""
            else NumeralOf(s).Some? && (NumeralOf(s).value.scale == 0 || NumeralOf(s).value.num == 0)
  {
    hide ParseAmount, NumeralOf, Digits, Val, RoundHalfEven, ToEnglishDigits;
    FieldKeepsAmount(s);
    AmountOfNumeral(s);
    if NumeralOf(s).Some? {
      NumeralDigits(s);
      RoundsToOwnDigits(NumeralOf(s).value.num, NumeralOf(s).value.scale);
    }
  }

  /** Without ASCII digits, only a text that the server refuses anyway is kept: the field wipes every other. */
  lemma ForeignFieldKeepsAmount(s: string)
    requires Digits(s) == ""
    ensures ParseAmount(Some(Fmt(s))) == ParseAmount(Some(s)) <==> ParseAmount(Some(s)) == None
  {
    hide ParseAmount, Digits;
    FieldReadsAsNumber(s);
  }

  lemma ValOfTwelveFive()
    ensures Val("12" + "5") == 125
  {
    ValSnoc("", '1');
    ValSnoc("1", '2');
    ValSnoc("12", '5');
  }

  lemma TwelveAndAHalfRounds()
    ensures AmountOf(Decimal(false, 125, 1)) == Some(12)
  {
    assert Pow10(1) == 10;
  }

  lemma TwelveAndAHalf()
    ensures ParseAmount(Some("12.5")) == Some(12)
    ensures Digits("12.5") == "125" && Num("12.5") == 125
  {
    hide ParseAmount, ParseFloat, Keep, Without, Val, AmountOf;
    ValOfTwelveFive();
    TwelveAndAHalfRounds();
    ParseFloatOfPoint("12", "5");
    assert "12" + "." + "5" == "12.5" && "12" + "5" == "125" && "12" + ("." + "5") == "12.5";
    WithoutNothing("12.5", AMOUNT_NOISE);
    ParseCleanAmount("12.5", Decimal(false, 125, 1));
    DigitsAroundPoint("12", "5");
  }

  lemma MinusFive()
    ensures ParseAmount(Some("-5")) == None
    ensures Digits("-5") == "5" && Num("-5") == 5
  {
    hide ParseAmount, Keep;
    ValSnoc("", '5');
    ParseSignedGrouped("5");
    KeepNothing("-", IsDigit);
    KeepDigits("5");
    KeepConcat("-", "5", IsDigit);
    assert "-" + "5" == "-5";
  }

  /** A typed point is lost, and so is a typed sign. */
  lemma FieldChangesAmounts()
    ensures ParseAmount(Some("12.5")) == Some(12) && ParseAmount(Some(Fmt("12.5"))) == Some(125)
    ensures ParseAmount(Some("-5")) == None && ParseAmount(Some(Fmt("-5"))) == Some(5)
  {
    hide ParseAmount, Keep, Val, Pow10;
    TwelveAndAHalf();
    MinusFive();
    FieldReadsAsNumber("12.5");
    FieldReadsAsNumber("-5");
  }

  /** A prefilled amount passes through the field formatter unchanged. */
  lemma FmtKeepsPrint(n: nat)
    ensures Fmt(FormatMoney(n)) == FormatMoney(n)
  {
    PadDecMeans(n, 1);
    DigitsOfGrouped(Dec(n));
    ClientGroupsLikeServer(Dec(n));
  }

  // ----- percents -----

  lemma {:induction false} TrimmedValue(s: string)
    requires AllDigits(s)
    ensures |TrimZeros(s)| <= |s| && AllDigits(TrimZeros(s))
    ensures Val(s) == Val(TrimZeros(s)) * Pow10(|s| - |TrimZeros(s)|)
  {
    var t := TrimZeros(s);
    if s != "" && s[|s| - 1] == '0' {
      var front := s[..|s| - 1];
      TrimmedValue(front);
      ShiftTen(Val(t), Pow10(|front| - |t|));
    }
  }

  predicate PlainNumber(s: string) {
    s != "" && forall i :: 0 <= i < |s| ==> IsDigit(s[i]) || s[i] == '.'
  }

  lemma ParsePlainPercent(s: string, v: Decimal)
    requires PlainNumber(s)
    requires ParseFloat(s) == Some(v)
    ensures ParsePercent(Some(s)) == PercentOf(v)
  {
    hide ParseFloat;
    assert IsDigit(s[0]) || s[0] == '.';
    CleanStays(s);
    WithoutNothing(s, PERCENT_SIGNS);
  }

  /** Every percent the parser can produce is read back from its print. */
  lemma PercentReadsBack(p: nat)
    requires p <= WHOLE
    ensures ParsePercent(Some(FormatPercent(p))) == Some(p)
  {
    hide ParsePercent;
    var whole, frac := p / PERCENT_SCALE, p % PERCENT_SCALE;
    assert p == whole * PERCENT_SCALE + frac;
    if frac == 0 {
      WholeReadsBack(whole);
    } else {
      FractionReadsBack(whole, frac);
    }
  }

  lemma PlainIsClean(s: string)
    requires PlainNumber(s)
    ensures Clean(s)
  {
    assert IsDigit(s[0]) || s[0] == '.';
    assert IsDigit(s[|s| - 1]) || s[|s| - 1] == '.';
  }

  /** A printed percent holds digits and at most a point. */
  lemma PercentPrintIsPlain(p: nat)
    requires p <= WHOLE
    ensures PlainNumber(FormatPercent(p))
  {
    hide PadDec, TrimZeros, ParseFloat;
    var whole, frac := p / PERCENT_SCALE, p % PERCENT_SCALE;
    PadDecMeans(whole, 1);
    if frac != 0 { FractionText(whole, frac, Dec(whole), TrimZeros(PadDec(frac, 4))); }
  }

  /** The same in Persian digits, the form in which the pages show percents. */
  lemma PersianPercentReadsBack(p: nat)
    requires p <= WHOLE
    ensures ParsePercent(Some(ToPersianDigits(FormatPercent(p)))) == Some(p)
  {
    hide FormatPercent, ParseFloat, Without, Strip, ToEnglishDigits, PlainNumber;
    var s := FormatPercent(p);
    PercentPrintIsPlain(p);
    PlainIsClean(s);
    PercentReadsBack(p);
    PersianAndBack(s);
    PersianIsInk(s);
    CleanStays(s);
  }

  lemma PersianIsInk(s: string)
    requires Clean(s)
    ensures Strip(ToPersianDigits(s)) != ""
  {
    var t := ToPersianDigits(s);
    assert !IsSpace(t[0]);
    assert FirstInk(t, 0) == 0;
    assert !IsSpace(t[|t| - 1]);
  }

  lemma WholeReadsBack(whole: nat)
    requires whole <= 100
    ensures ParsePercent(Some(Dec(whole))) == Some(whole * PERCENT_SCALE)
  {
    PadDecMeans(whole, 1);
    ParseFloatOfDigits(Dec(whole));
    var v := Decimal(false, whole, 0);
    ParsePlainPercent(Dec(whole), v);
    assert Pow10(v.scale) == 1;
    RoundingIsExact(whole * PERCENT_SCALE, 1);
  }

  lemma ZeroReads()
    ensures ParsePercent(Some("0")) == Some(0)
  {
    hide ParsePercent;
    assert Dec(0) == "0";
    WholeReadsBack(0);
  }

  lemma FiftyReads()
    ensures ParsePercent(Some("50")) == Some(500_000)
  {
    hide ParsePercent;
    assert Dec(50) == "50" by { assert PadDec(5, 1) == "5"; }
    WholeReadsBack(50);
  }

  lemma FractionReadsBack(whole: nat, frac: nat)
    requires whole < 100 && 0 < frac < PERCENT_SCALE
    ensures ParsePercent(Some(Dec(whole) + "." + TrimZeros(PadDec(frac, 4)))) ==
            Some(whole * PERCENT_SCALE + frac)
  {
    hide *;
    var a, t := Dec(whole), TrimZeros(PadDec(frac, 4));
    FractionText(whole, frac, a, t);
    var v := Decimal(false, Val(a + t), |t|);
    ParsePlainPercent(a + "." + t, v);
    FractionOf(whole, frac, a, t);
  }

  lemma FractionText(whole: nat, frac: nat, a: string, t: string)
    requires whole < 100 && 0 < frac < PERCENT_SCALE
    requires a == Dec(whole) && t == TrimZeros(PadDec(frac, 4))
    ensures PlainNumber(a + "." + t)
    ensures ParseFloat(a + "." + t) == Some(Decimal(false, Val(a + t), |t|))
  {
    hide ParseFloat, TrimZeros, Val, Pow10;
    PadDecMeans(whole, 1);
    FractionDigits(frac, t);
    ParseFloatOfPoint(a, t);
  }

  lemma FractionOf(whole: nat, frac: nat, a: string, t: string)
    requires whole < 100 && 0 < frac < PERCENT_SCALE
    requires a == Dec(whole) && t == TrimZeros(PadDec(frac, 4))
    ensures PercentOf(Decimal(false, Val(a + t), |t|)) == Some(whole * PERCENT_SCALE + frac)
  {
    hide RoundHalfEven, Val, TrimZeros;
    PadDecMeans(whole, 1);
    FractionDigits(frac, t);
    ValConcat(a, t);
    FractionRounds(whole, frac, Val(t), Pow10(|t|), Pow10(4 - |t|));
  }

  /** The trimmed digits of a fraction of four decimals. */
  lemma FractionDigits(frac: nat, t: string)
    requires 0 < frac < PERCENT_SCALE && t == TrimZeros(PadDec(frac, 4))
    ensures 0 < |t| <= 4 && AllDigits(t) && Val(t) < Pow10(|t|)
    ensures Val(t) * Pow10(4 - |t|) == frac && Pow10(|t|) * Pow10(4 - |t|) == PERCENT_SCALE
  {
    assert PERCENT_SCALE == Pow10(4);
    PadDecMeans(frac, 4);
    PadDecWidth(frac, 4);
    TrimmedValue(PadDec(frac, 4));
    assert Val("") == 0;
    ValBounded(t);
    Pow10Adds(|t|, 4 - |t|);
  }

  lemma FractionRounds(whole: nat, frac: nat, v: nat, d: nat, e: nat)
    requires whole < 100 && v < d && d * e == PERCENT_SCALE && v * e == frac
    ensures whole * d + v <= 100 * d
    ensures RoundHalfEven((whole * d + v) * PERCENT_SCALE, d) == whole * PERCENT_SCALE + frac
  {
    MulOrder(d, whole + 1, 100);
    FractionScales(whole, frac, v, d, e);
    RoundingIsExact(whole * PERCENT_SCALE + frac, d);
  }

  lemma FractionScales(whole: nat, frac: nat, v: nat, d: nat, e: nat)
    requires d * e == PERCENT_SCALE && v * e == frac
    ensures (whole * d + v) * PERCENT_SCALE == (whole * PERCENT_SCALE + frac) * d
  {
    assert v * PERCENT_SCALE == v * (e * d) == v * e * d;
  }

  // ----- exactly which texts are amounts and percents -----

  /** `float` looks at the stripped text only. */
  lemma FloatIgnoresStrip(s: string, t: string)
    requires Strip(s) == Strip(t)
    ensures ParseFloat(s) == ParseFloat(t)
  {
  }

  /**
   A numeral with commas of either kind and blanks anywhere in it, in any digits, is read as its number, to
   the nearest whole amount; only a negative one is refused.
   */
  lemma AmountReads(text: string, s: string, a: string, sign: string, whole: string, point: bool, frac: string,
                    b: string)
    requires InAnyDigits(text, s) && forall i :: 0 <= i < |s| ==> !ForeignDigit(s[i])
    requires AllBlank(a) && AllBlank(b) && NumeralPieces(sign, whole, point, frac)
    requires Without(s, {',', '\U{60C}', ' '}) == a + NumeralText(sign, whole, point, frac) + b
    ensures ParseAmount(Some(text)) ==
            if sign == "-" && Val(whole + frac) > 0 then None
            else Some(RoundHalfEven(Val(whole + frac), Pow10(|frac|)))
  {
    hide ParseFloat, Strip, Without, InAnyDigits, ForeignDigit, NumeralText, NumeralPieces, Val, BLANKS, AllBlank,
         ToEnglishDigits;
    TranslatedBack(text, s);
    StripWithout(s, AMOUNT_NOISE);
    FloatReads(a, sign, whole, point, frac, b);
    FloatIgnoresStrip(Without(Strip(s), AMOUNT_NOISE), Without(s, AMOUNT_NOISE));
    if Without(Strip(s), AMOUNT_NOISE) == "" { NoNumber(); }
  }

  lemma NoNumber()
    ensures ParseFloat("") == None
  {
  }

  /** And nothing else is an amount. */
  lemma AmountIsNumeral(text: string)
    returns (s: string, a: string, sign: string, whole: string, point: bool, frac: string, b: string)
    requires ParseAmount(Some(text)).Some?
    ensures InAnyDigits(text, s) && forall i :: 0 <= i < |s| ==> !ForeignDigit(s[i])
    ensures AllBlank(a) && AllBlank(b) && NumeralPieces(sign, whole, point, frac)
    ensures Without(s, {',', '\U{60C}', ' '}) == a + NumeralText(sign, whole, point, frac) + b
  {
    hide ParseFloat, Strip, Without, InAnyDigits, ForeignDigit, NumeralText, NumeralPieces, Val, BLANKS, AllBlank,
         ToEnglishDigits;
    s := ToEnglishDigits(text);
    TranslatedFrom(text);
    StripWithout(s, AMOUNT_NOISE);
    FloatIgnoresStrip(Without(Strip(s), AMOUNT_NOISE), Without(s, AMOUNT_NOISE));
    a, sign, whole, point, frac, b := ReadFloatIsNumeral(Without(s, AMOUNT_NOISE));
  }

  /** A numeral with percent signs of either kind in it is read the same way, and refused outside 0..100. */
  lemma PercentReads(text: string, s: string, a: string, sign: string, whole: string, point: bool, frac: string,
                     b: string)
    requires InAnyDigits(text, s) && forall i :: 0 <= i < |s| ==> !ForeignDigit(s[i])
    requires AllBlank(a) && AllBlank(b) && NumeralPieces(sign, whole, point, frac)
    requires Without(s, {'%', '\U{66A}'}) == a + NumeralText(sign, whole, point, frac) + b
    ensures var n, d := Val(whole + frac), Pow10(|frac|);
            ParsePercent(Some(text)) ==
            if (sign == "-" && n > 0) || n > 100 * d then None else Some(RoundHalfEven(n * 10_000, d))
  {
    hide ParseFloat, Strip, Without, InAnyDigits, ForeignDigit, NumeralText, NumeralPieces, Val, BLANKS, AllBlank,
         ToEnglishDigits;
    TranslatedBack(text, s);
    StripWithout(s, PERCENT_SIGNS);
    FloatReads(a, sign, whole, point, frac, b);
    FloatIgnoresStrip(Without(Strip(s), PERCENT_SIGNS), Without(s, PERCENT_SIGNS));
    BlankStaysBlank(text);
    if Strip(text) == "" {
      NoNumber();
      assert Without("", PERCENT_SIGNS) == "" by { WithoutNothing("", PERCENT_SIGNS); }
    }
  }

  /** Translating digits leaves blanks alone. */
  lemma BlankStaysBlank(text: string)
    ensures Strip(text) == "" ==> Strip(ToEnglishDigits(text)) == ""
  {
    if Strip(text) == "" {
      var a, b := StripSplits(text);
      assert text == a + b;
      BlanksJoin(a, b);
      var e := ToEnglishDigits(text);
      assert forall i :: 0 <= i < |text| ==> text[i] in BLANKS && e[i] == text[i];
      StripOfBlanks(e);
    }
  }

  lemma PercentIsNumeral(text: string)
    returns (s: string, a: string, sign: string, whole: string, point: bool, frac: string, b: string)
    requires ParsePercent(Some(text)).Some?
    ensures InAnyDigits(text, s) && forall i :: 0 <= i < |s| ==> !ForeignDigit(s[i])
    ensures AllBlank(a) && AllBlank(b) && NumeralPieces(sign, whole, point, frac)
    ensures Without(s, {'%', '\U{66A}'}) == a + NumeralText(sign, whole, point, frac) + b
  {
    hide ParseFloat, Strip, Without, InAnyDigits, ForeignDigit, NumeralText, NumeralPieces, Val, BLANKS, AllBlank,
         ToEnglishDigits;
    s := ToEnglishDigits(text);
    TranslatedFrom(text);
    StripWithout(s, PERCENT_SIGNS);
    FloatIgnoresStrip(Without(Strip(s), PERCENT_SIGNS), Without(s, PERCENT_SIGNS));
    a, sign, whole, point, frac, b := ReadFloatIsNumeral(Without(s, PERCENT_SIGNS));
  }

  /** A printed percent has a point exactly when it is not whole, and then no zero at its end. */
  lemma PercentPrintIsShort(p: nat)
    requires p <= WHOLE
    ensures '.' in FormatPercent(p) <==> p % PERCENT_SCALE != 0
    ensures p % PERCENT_SCALE != 0 ==> FormatPercent(p)[|FormatPercent(p)| - 1] in "123456789"
  {
    hide PadDec, TrimZeros, Val, Pow10;
    var whole, frac := p / PERCENT_SCALE, p % PERCENT_SCALE;
    PadDecMeans(whole, 1);
    if frac == 0 {
      assert forall c :: c in Dec(whole) ==> IsDigit(c);
    } else {
      var t := TrimZeros(PadDec(frac, 4));
      FractionDigits(frac, t);
      TrimmedEnd(PadDec(frac, 4));
      var s := Dec(whole) + "." + t;
      assert s[|Dec(whole)|] == '.' && s[|s| - 1] == t[|t| - 1] && IsDigit(t[|t| - 1]);
      DigitNotZero(t[|t| - 1]);
    }
  }

  lemma DigitNotZero(c: char)
    requires IsDigit(c) && c != '0'
    ensures c in "123456789"
  {
    var i := c as int - '1' as int;
    assert "123456789"[i] == c;
  }

  lemma {:induction false} TrimmedEnd(s: string)
    ensures var t := TrimZeros(s); t != "" ==> t[|t| - 1] != '0'
  {
    if s != "" && s[|s| - 1] == '0' { TrimmedEnd(s[..|s| - 1]); }
  }
}
