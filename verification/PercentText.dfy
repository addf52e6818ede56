/**
 One percent field of the project form as its two readers see it: the browser's preview (static/js/
 app.js) strips everything but ASCII digits and points, the server (`parse_percent`) translates
 Persian and Arabic digits first.
 */
module PercentText {
  import opened Arithmetic
  import opened MoneyText
  import opened Rounding
  import opened Text

  predicate IsDigitOrPoint(c: char) {
    IsDigit(c) || c == '.'
  }

  /** `s.replace(/[^\d.]/g, "")` */
  function KeepDecimal(s: string): string {
    Keep(s, IsDigitOrPoint)
  }

  /** `parseFloat(s) || 0` on digits and points: the longest numeral that s begins with, else zero. */
  function LeadingDecimal(s: string): Decimal {
    var k := DigitRun(s);
    if k < |s| && s[k] == '.' then
      var frac := s[k + 1..][..DigitRun(s[k + 1..])];
      Decimal(false, Val(s[..k] + frac), |frac|)
    else Decimal(false, Val(s[..k]), 0)
  }

  function ClientPercent(text: string): Decimal {
    LeadingDecimal(KeepDecimal(if text == "" then "0" else text))
  }

  /** The decimal the server reads in a percent field. */
  function ServerPercent(text: string): Option<Decimal> {
    ParseFloat(Without(Strip(ToEnglishDigits(text)), PERCENT_SIGNS))
  }

  // ----- around the point -----

  function BeforePoint(s: string): string {
    s[..IndexOf(s, '.')]
  }

  function AfterPoint(s: string): string {
    var k := IndexOf(s, '.');
    if k < |s| then s[k + 1..] else ""
  }

  /** Without a point, the browser's filter keeps the digits. */
  lemma {:induction false} KeepPointless(s: string)
    requires '.' !in s
    ensures KeepDecimal(s) == Digits(s)
  {
    if s != "" { KeepPointless(s[1..]); }
  }

  lemma {:induction false} KeepHolds(s: string, c: char, keep: char -> bool)
    requires c in s && keep(c)
    ensures c in Keep(s, keep)
  {
    if s[0] != c { KeepHolds(s[1..], c, keep); }
  }

  lemma PointSplits(s: string)
    ensures '.' !in BeforePoint(s)
    ensures '.' in s ==> s == BeforePoint(s) + ("." + AfterPoint(s))
    ensures '.' !in s ==> BeforePoint(s) == s && AfterPoint(s) == ""
  {
  }

  /** The digits before the point, the point, the rest as filtered. */
  lemma KeepAroundPoint(s: string)
    requires '.' in s
    ensures KeepDecimal(s) == Digits(BeforePoint(s)) + ("." + KeepDecimal(AfterPoint(s)))
  {
    hide Keep, BeforePoint, AfterPoint;
    PointSplits(s);
    KeepPointless(BeforePoint(s));
    KeepConcat(BeforePoint(s), "." + AfterPoint(s), IsDigitOrPoint);
    KeepConcat(".", AfterPoint(s), IsDigitOrPoint);
    KeepAll(".", IsDigitOrPoint);
  }

  /** Translating digits moves no point. */
  lemma TranslatedSplits(s: string)
    ensures '.' in ToEnglishDigits(s) <==> '.' in s
    ensures BeforePoint(ToEnglishDigits(s)) == ToEnglishDigits(BeforePoint(s))
    ensures AfterPoint(ToEnglishDigits(s)) == ToEnglishDigits(AfterPoint(s))
  {
    hide IndexOf;
    var e := ToEnglishDigits(s);
    assert forall i :: 0 <= i < |s| ==> (e[i] == '.' <==> s[i] == '.');
    var k, m := IndexOf(s, '.'), IndexOf(e, '.');
    assert k == m;
    if k < |s| { assert s[k] == '.' && e[k] == '.'; }
  }

  // ----- what each side reads -----

  /** The unsigned numeral inside a text that `float` reads is what the browser's filter leaves of it. */
  lemma NumeralKept(s: string)
    requires ParseFloat(s).Some?
    ensures ParseUnsigned(ParseFloat(s).value.negative, KeepDecimal(s)) == ParseFloat(s)
  {
    hide Keep, ParseUnsigned, Strip;
    var t := Strip(s);
    KeepIgnoresStrip(s, IsDigitOrPoint);
    if t != "" && t[0] in {'+', '-'} {
      assert t == [t[0]] + t[1..];
      KeepConcat([t[0]], t[1..], IsDigitOrPoint);
      KeepNothing([t[0]], IsDigitOrPoint);
      UnsignedKept(t[0] == '-', t[1..]);
      assert "" + KeepDecimal(t[1..]) == KeepDecimal(t[1..]);
    } else {
      UnsignedKept(false, t);
    }
  }

  lemma UnsignedKept(negative: bool, u: string)
    requires ParseUnsigned(negative, u).Some?
    ensures KeepDecimal(u) == u && ParseUnsigned(negative, u).value.negative == negative
  {
    hide Keep, Val, IndexOf;
    var k := IndexOf(u, '.');
    var whole, frac := u[..k], if k < |u| then u[k + 1..] else "";
    assert forall i :: 0 <= i < k ==> u[i] == whole[i];
    assert forall i :: k < i < |u| ==> u[i] == frac[i - k - 1];
    KeepAll(u, IsDigitOrPoint);
  }

  /** The server reads the digits on both sides of the only point, translated. */
  lemma ServerReads(text: string)
    requires ServerPercent(text).Some?
    ensures '.' !in AfterPoint(text)
    ensures var v, e := ServerPercent(text).value, ToEnglishDigits(text);
            var whole, frac := Digits(BeforePoint(e)), Digits(AfterPoint(e));
            v.num == Val(whole + frac) && v.scale == |frac|
  {
    hide Keep, ParseFloat, Strip, Without, ToEnglishDigits, BeforePoint, AfterPoint, Val, ParseUnsigned;
    var e := ToEnglishDigits(text);
    var u := KeepDecimal(e);
    var v := ServerPercent(text).value;
    NumeralKept(Without(Strip(e), PERCENT_SIGNS));
    KeepIgnoresDropped(Strip(e), PERCENT_SIGNS, IsDigitOrPoint);
    KeepIgnoresStrip(e, IsDigitOrPoint);
    assert ParseUnsigned(v.negative, u) == Some(v);
    TranslatedSplits(text);
    if '.' in e {
      KeepAroundPoint(e);
      NumeralParts(v.negative, Digits(BeforePoint(e)), KeepDecimal(AfterPoint(e)));
      if '.' in AfterPoint(e) { KeepHolds(AfterPoint(e), '.', IsDigitOrPoint); }
      KeepPointless(AfterPoint(e));
      TranslatedSplits(AfterPoint(text));
    } else {
      PointSplits(e);
      PointSplits(text);
      KeepPointless(e);
      KeepNothing("", IsDigit);
      WholeNumeral(v.negative, u);
      assert u + "" == u;
    }
  }

  lemma PointAfter(whole: string, frac: string)
    requires AllDigits(whole)
    ensures IndexOf(whole + ("." + frac), '.') == |whole|
  {
    hide IndexOf;
    var u := whole + ("." + frac);
    assert forall i :: 0 <= i < |whole| ==> u[i] == whole[i] && IsDigit(whole[i]);
    assert u[|whole|] == '.';
  }

  lemma NumeralParts(negative: bool, whole: string, frac: string)
    requires AllDigits(whole) && ParseUnsigned(negative, whole + ("." + frac)).Some?
    ensures AllDigits(frac) && '.' !in frac
    ensures var v := ParseUnsigned(negative, whole + ("." + frac)).value;
            v.num == Val(whole + frac) && v.scale == |frac|
  {
    hide Val, IndexOf, AllDigits;
    var u := whole + ("." + frac);
    PointAfter(whole, frac);
    assert u[..|whole|] == whole && u[|whole| + 1..] == frac;
    DigitsArePointless(frac);
  }

  lemma DigitsArePointless(s: string)
    requires AllDigits(s)
    ensures '.' !in s
  {
  }

  lemma WholeNumeral(negative: bool, u: string)
    requires AllDigits(u) && ParseUnsigned(negative, u).Some?
    ensures var v := ParseUnsigned(negative, u).value; v.num == Val(u) && v.scale == 0
  {
    hide Val;
    assert IndexOf(u, '.') == |u|;
    assert u[..|u|] == u && u + "" == u;
  }

  /** The browser reads the ASCII digits on both sides of the only point. */
  lemma ClientReads(text: string)
    requires text != "" && '.' !in AfterPoint(text)
    ensures var whole, frac := Digits(BeforePoint(text)), Digits(AfterPoint(text));
            ClientPercent(text) == Decimal(false, Val(whole + frac), |frac|)
  {
    hide Keep, BeforePoint, AfterPoint, Val, LeadingDecimal;
    PointSplits(text);
    var whole, frac := Digits(BeforePoint(text)), Digits(AfterPoint(text));
    if '.' in text {
      KeepAroundPoint(text);
      KeepPointless(AfterPoint(text));
      LeadingOfParts(whole, frac);
    } else {
      KeepPointless(text);
      KeepNothing("", IsDigit);
      LeadingOfWhole(whole);
      assert whole + "" == whole;
    }
  }

  lemma LeadingOfParts(whole: string, frac: string)
    requires AllDigits(whole) && AllDigits(frac)
    ensures LeadingDecimal(whole + ("." + frac)) == Decimal(false, Val(whole + frac), |frac|)
  {
    hide DigitRun, Val;
    var u := whole + ("." + frac);
    assert forall i :: 0 <= i < |whole| ==> u[i] == whole[i];
    assert u[|whole|] == '.';
    RunStops(u, |whole|);
    RunOfDigits(frac);
    assert u[..|whole|] == whole && u[|whole| + 1..] == frac && frac[..|frac|] == frac;
  }

  /** What follows the longest numeral is ignored, as in 12.5.7. */
  lemma RestIsIgnored(whole: string, frac: string, rest: string)
    requires AllDigits(whole) && AllDigits(frac) && rest != "" && !IsDigit(rest[0])
    ensures LeadingDecimal(whole + ("." + (frac + rest))) == Decimal(false, Val(whole + frac), |frac|)
  {
    hide DigitRun, Val;
    var u, tail := whole + ("." + (frac + rest)), frac + rest;
    assert forall i :: 0 <= i < |whole| ==> u[i] == whole[i];
    assert u[|whole|] == '.';
    RunStops(u, |whole|);
    assert forall i :: 0 <= i < |frac| ==> tail[i] == frac[i];
    assert tail[|frac|] == rest[0];
    RunStops(tail, |frac|);
    assert u[..|whole|] == whole && u[|whole| + 1..] == tail && tail[..|frac|] == frac;
  }

  lemma LeadingOfWhole(whole: string)
    requires AllDigits(whole)
    ensures LeadingDecimal(whole) == Decimal(false, Val(whole), 0)
  {
    hide DigitRun, Val;
    RunOfDigits(whole);
    assert whole[..|whole|] == whole;
  }

  lemma {:induction false} RunStops(u: string, k: nat)
    requires k <= |u| && (forall i :: 0 <= i < k ==> IsDigit(u[i])) && (k == |u| || !IsDigit(u[k]))
    ensures DigitRun(u) == k
  {
    if k > 0 { RunStops(u[1..], k - 1); }
  }

  // ----- when they read the same -----

  /** The same number, written with any number of decimals. */
  predicate SameNumber(a: Decimal, b: Decimal) {
    a.num * Pow10(b.scale) == b.num * Pow10(a.scale)
  }

  /** The digits after a point that make the same fraction. */
  predicate SameFraction(f: string, g: string) {
    Val(f) * Pow10(|g|) == Val(g) * Pow10(|f|)
  }

  /** Two numbers with proper fractions are equal exactly when their parts are. */
  lemma PartsCompare(w: nat, f: nat, d: nat, w': nat, f': nat, d': nat)
    requires f < d && f' < d'
    ensures (w * d + f) * d' == (w' * d' + f') * d <==> w == w' && f * d' == f' * d
  {
    var x := w - w';
    assert (w * d + f) * d' - (w' * d' + f') * d == d * d' * x + (f * d' - f' * d) by { Expand(w, f, d, w', f', d'); }
    MulOrder(d', f, d - 1);
    MulOrder(d, f', d' - 1);
    MulOrder(d', 0, f);
    MulOrder(d, 0, f');
    assert d * d' > 0 by { MulOrder(d, 1, d'); }
    assert f * d' < d * d' && f' * d < d * d' by { MulDistributes(d', d, 1); MulDistributes(d, d', 1); }
    MultipleIsFar(d * d', x);
  }

  lemma Expand(w: int, f: int, d: int, w': int, f': int, d': int)
    ensures (w * d + f) * d' - (w' * d' + f') * d == d * d' * (w - w') + (f * d' - f' * d)
  {
    MulDistributes(d', w * d, f);
    MulDistributes(d, w' * d', f');
    MulDistributes(d * d', w, w');
  }

  /**
   For any text the server reads as a number, the browser reads the same number exactly when the ASCII
   digits before the point spell the same whole number as all digits there, and those after it the same
   fraction.
   */
  lemma PercentsAgree(text: string)
    requires ServerPercent(text).Some?
    ensures SameNumber(ClientPercent(text), ServerPercent(text).value) <==>
            && Num(BeforePoint(text)) == Num(ToEnglishDigits(BeforePoint(text)))
            && SameFraction(Digits(AfterPoint(text)), Digits(ToEnglishDigits(AfterPoint(text))))
  {
    hide ServerPercent, ClientPercent, BeforePoint, AfterPoint, Keep, Val, Pow10, ToEnglishDigits;
    SomethingRead(text);
    ServerReads(text);
    ClientReads(text);
    TranslatedSplits(text);
    var w, f := Digits(BeforePoint(text)), Digits(AfterPoint(text));
    var w', f' := Digits(ToEnglishDigits(BeforePoint(text))), Digits(ToEnglishDigits(AfterPoint(text)));
    ValConcat(w, f);
    ValConcat(w', f');
    ValBounded(f);
    ValBounded(f');
    PartsCompare(Val(w), Val(f), Pow10(|f|), Val(w'), Val(f'), Pow10(|f'|));
  }

  lemma SomethingRead(text: string)
    requires ServerPercent(text).Some?
    ensures text != ""
  {
    assert Strip(ToEnglishDigits("")) == "" && ParseFloat("") == None;
  }

  /** Typed in ASCII digits, with any number of decimals, the numerals are the same. */
  lemma AsciiPercentsAgree(text: string)
    requires ServerPercent(text).Some? && ToEnglishDigits(text) == text
    ensures var v := ServerPercent(text).value; ClientPercent(text) == Decimal(false, v.num, v.scale)
  {
    hide ServerPercent, ClientPercent, BeforePoint, AfterPoint, Keep, Val, Pow10, ToEnglishDigits;
    SomethingRead(text);
    ServerReads(text);
    ClientReads(text);
  }

  /** Without ASCII digits the browser reads nothing, so the two agree on zero only. */
  lemma ForeignPercentsAgree(text: string)
    requires ServerPercent(text).Some? && Digits(text) == ""
    ensures ClientPercent(text) == Decimal(false, 0, 0)
    ensures SameNumber(ClientPercent(text), ServerPercent(text).value) <==> ServerPercent(text).value.num == 0
  {
    hide ServerPercent, ClientPercent, BeforePoint, AfterPoint, Keep, ToEnglishDigits;
    SomethingRead(text);
    ServerReads(text);
    ClientReads(text);
    PointSplits(text);
    if '.' in text {
      KeepConcat(BeforePoint(text), "." + AfterPoint(text), IsDigit);
      KeepConcat(".", AfterPoint(text), IsDigit);
    } else {
      KeepNothing("", IsDigit);
    }
    assert Pow10(0) == 1;
  }

  /** A percent copied from a page, in Persian digits, is itself to the server and zero to the browser. */
  lemma PastedPercentIsZero(p: nat)
    requires p <= WHOLE
    ensures ParsePercent(Some(ToPersianDigits(FormatPercent(p)))) == Some(p)
    ensures ClientPercent(ToPersianDigits(FormatPercent(p))) == Decimal(false, 0, 0)
  {
    hide FormatPercent, ParseFloat, ClientPercent, Strip, Without;
    var s := FormatPercent(p);
    var t := ToPersianDigits(s);
    PersianPercentReadsBack(p);
    PercentPrintIsPlain(p);
    forall i | 0 <= i < |t| ensures !IsDigit(t[i]) {
      assert t[i] == PersianDigit(s[i]);
    }
    KeepNothing(t, IsDigit);
    ForeignPercentsAgree(t);
  }
}
