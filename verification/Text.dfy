/**
 Text as the program reads and prints it: ASCII, Persian and Arabic digits, surrounding blanks,
 decimal numerals with zero padding, plain decimal text such as "12.5", and the character order
 by which both Python and SQLite compare strings.
 */
module Text {
  datatype Option<+T> = None | Some(value: T)

  // ----- characters -----

  predicate IsDigit(c: char) {
    '0' <= c <= '9'
  }

  predicate AllDigits(s: string) {
    forall i :: 0 <= i < |s| ==> IsDigit(s[i])
  }

  function DigitValue(c: char): nat {
    if IsDigit(c) then c as int - '0' as int else 0
  }

  function DigitChar(d: nat): (c: char)
    requires d < 10
    ensures IsDigit(c) && DigitValue(c) == d
  {
    (d + '0' as int) as char
  }

  function EnglishDigit(c: char): char {
    if '\U{6F0}' <= c <= '\U{6F9}' then DigitChar(c as int - 0x6F0)
    else if '\U{660}' <= c <= '\U{669}' then DigitChar(c as int - 0x660)
    else c
  }

  function PersianDigit(c: char): char {
    if IsDigit(c) then (DigitValue(c) + 0x6F0) as char else c
  }

  function ToEnglishDigits(s: string): string {
    seq(|s|, i requires 0 <= i < |s| => EnglishDigit(s[i]))
  }

  function ToPersianDigits(s: string): string {
    seq(|s|, i requires 0 <= i < |s| => PersianDigit(s[i]))
  }

  /** The characters Python's `str.strip` and the pattern `\s` treat as blank. */
  predicate IsSpace(c: char) {
    var n := c as int;
    0x09 <= n <= 0x0D || 0x1C <= n <= 0x20 || n == 0x85 || n == 0xA0 || n == 0x1680 ||
    0x2000 <= n <= 0x200A || n == 0x2028 || n == 0x2029 || n == 0x202F || n == 0x205F || n == 0x3000
  }

  function FirstInk(s: string, i: nat): (k: nat)
    requires i <= |s|
    ensures i <= k <= |s|
    ensures k < |s| ==> !IsSpace(s[k])
    decreases |s| - i
  {
    if i == |s| || !IsSpace(s[i]) then i else FirstInk(s, i + 1)
  }

  function LastInk(s: string, i: nat): (k: nat)
    requires i <= |s|
    ensures k <= i
    ensures k > 0 ==> !IsSpace(s[k - 1])
    ensures forall j :: k <= j < i ==> IsSpace(s[j])
  {
    if i == 0 || !IsSpace(s[i - 1]) then i else LastInk(s, i - 1)
  }

  /** `str.strip`: the text between the first and the last character that is no blank. */
  function Strip(s: string): (t: string)
    ensures t == "" || (!IsSpace(t[0]) && !IsSpace(t[|t| - 1]))
  {
    var first := FirstInk(s, 0);
    if first == |s| then "" else s[first..LastInk(s, |s|)]
  }

  /** No blanks at the ends and no foreign digits: reading starts from the text as it stands. */
  predicate Clean(s: string) {
    && s != "" && !IsSpace(s[0]) && !IsSpace(s[|s| - 1])
    && forall i :: 0 <= i < |s| ==> s[i] < '\U{660}'
  }

  lemma CleanStays(s: string)
    requires Clean(s)
    ensures ToEnglishDigits(s) == s && Strip(s) == s
  {
  }

  lemma StripIdempotent(s: string)
    ensures Strip(Strip(s)) == Strip(s)
  {
  }

  /** The blanks one by one: what `str.isspace` accepts. */
  const BLANKS: set<char> := {
    '\U{9}', '\U{A}', '\U{B}', '\U{C}', '\U{D}', '\U{1C}', '\U{1D}', '\U{1E}', '\U{1F}', ' ', '\U{85}', '\U{A0}',
    '\U{1680}', '\U{2000}', '\U{2001}', '\U{2002}', '\U{2003}', '\U{2004}', '\U{2005}', '\U{2006}', '\U{2007}',
    '\U{2008}', '\U{2009}', '\U{200A}', '\U{2028}', '\U{2029}', '\U{202F}', '\U{205F}', '\U{3000}'}

  lemma BlankTable(c: char)
    ensures IsSpace(c) <==> c in BLANKS
  {
  }

  predicate AllBlank(s: string) {
    forall i :: 0 <= i < |s| ==> s[i] in BLANKS
  }

  lemma FirstInkIs(s: string, i: nat, k: nat)
    requires i <= k <= |s| && (forall j :: i <= j < k ==> IsSpace(s[j])) && (k < |s| ==> !IsSpace(s[k]))
    ensures FirstInk(s, i) == k
    decreases k - i
  {
    if i < k { FirstInkIs(s, i + 1, k); }
  }

  lemma LastInkIs(s: string, i: nat, k: nat)
    requires k <= i <= |s| && (forall j :: k <= j < i ==> IsSpace(s[j])) && (k > 0 ==> !IsSpace(s[k - 1]))
    ensures LastInk(s, i) == k
    decreases i - k
  {
    if k < i { LastInkIs(s, i - 1, k); }
  }

  /** `Strip` takes off exactly the blanks on both sides. */
  lemma StripOf(a: string, core: string, b: string)
    requires AllBlank(a) && AllBlank(b)
    requires core != "" && core[0] !in BLANKS && core[|core| - 1] !in BLANKS
    ensures Strip(a + core + b) == core
  {
    hide FirstInk, LastInk, IsSpace;
    var s := a + core + b;
    forall j | 0 <= j < |s| ensures IsSpace(s[j]) <==> s[j] in BLANKS { BlankTable(s[j]); }
    assert forall j :: 0 <= j < |a| ==> s[j] == a[j];
    assert forall j :: |a| + |core| <= j < |s| ==> s[j] == b[j - |a| - |core|];
    assert s[|a|] == core[0] && s[|a| + |core| - 1] == core[|core| - 1];
    FirstInkIs(s, 0, |a|);
    LastInkIs(s, |s|, |a| + |core|);
    assert s[|a|..|a| + |core|] == core;
  }

  lemma StripOfBlanks(s: string)
    requires AllBlank(s)
    ensures Strip(s) == ""
  {
    hide FirstInk, LastInk, IsSpace;
    forall j | 0 <= j < |s| ensures IsSpace(s[j]) { BlankTable(s[j]); }
    FirstInkIs(s, 0, |s|);
  }

  /** Every text is its stripped core between blanks. */
  lemma StripSplits(s: string) returns (a: string, b: string)
    ensures s == a + Strip(s) + b && AllBlank(a) && AllBlank(b)
    ensures Strip(s) != "" ==> Strip(s)[0] !in BLANKS && Strip(s)[|Strip(s)| - 1] !in BLANKS
  {
    hide FirstInk, LastInk, IsSpace, BLANKS;
    forall j | 0 <= j < |s| ensures IsSpace(s[j]) <==> s[j] in BLANKS { BlankTable(s[j]); }
    var first, last := FirstInk(s, 0), LastInk(s, |s|);
    FirstInkSkipsBlanks(s, 0);
    if first == |s| {
      a, b := s, "";
    } else {
      assert !IsSpace(s[first]) && first < last;
      a, b := s[..first], s[last..];
      assert s[first..last][0] == s[first] && s[first..last][last - first - 1] == s[last - 1];
    }
  }

  lemma BlanksJoin(a: string, b: string)
    requires AllBlank(a) && AllBlank(b)
    ensures AllBlank(a + b)
  {
  }

  /** More blanks around a text do not change what stripping leaves. */
  lemma StripIgnoresBlanks(a: string, s: string, b: string)
    requires AllBlank(a) && AllBlank(b)
    ensures Strip(a + s + b) == Strip(s)
  {
    hide Strip, AllBlank, BLANKS;
    var x, y := StripSplits(s);
    if Strip(s) == "" {
      assert s == x + y;
      BlanksJoin(x, y);
      BlanksJoin(a, x + y);
      BlanksJoin(a + (x + y), b);
      StripOfBlanks(a + s + b);
    } else {
      BlanksJoin(a, x);
      BlanksJoin(y, b);
      StripOf(a + x, Strip(s), y + b);
      assert a + s + b == a + x + Strip(s) + (y + b);
    }
  }

  lemma {:induction false} FirstInkSkipsBlanks(s: string, i: nat)
    requires i <= |s|
    ensures forall j :: i <= j < FirstInk(s, i) ==> IsSpace(s[j])
    decreases |s| - i
  {
    if i < |s| && IsSpace(s[i]) { FirstInkSkipsBlanks(s, i + 1); }
  }

  // ----- the three sets of digits -----

  predicate ForeignDigit(c: char) {
    '\U{660}' <= c <= '\U{669}' || '\U{6F0}' <= c <= '\U{6F9}'
  }

  /** `t` is `s` with any of its digits written in Persian or Arabic ones. */
  predicate InAnyDigits(t: string, s: string) {
    && |t| == |s|
    && forall i :: 0 <= i < |s| ==>
         || t[i] == s[i]
         || (IsDigit(s[i]) && t[i] as int - 0x6F0 == s[i] as int - '0' as int)
         || (IsDigit(s[i]) && t[i] as int - 0x660 == s[i] as int - '0' as int)
  }

  /** However the digits are written, translating them gives the ASCII text back, and nothing else is touched. */
  lemma TranslatedBack(t: string, s: string)
    requires InAnyDigits(t, s) && forall i :: 0 <= i < |s| ==> !ForeignDigit(s[i])
    ensures ToEnglishDigits(t) == s
  {
    forall i | 0 <= i < |s| ensures EnglishDigit(t[i]) == s[i] { }
  }

  /** A translated text has no foreign digits, and was that text in some digits. */
  lemma TranslatedFrom(t: string)
    ensures InAnyDigits(t, ToEnglishDigits(t))
    ensures forall i :: 0 <= i < |t| ==> !ForeignDigit(ToEnglishDigits(t)[i])
  {
  }

  /** Persian print: each digit becomes the Persian one of its value, everything else stays. */
  lemma PersianPrint(s: string)
    ensures InAnyDigits(ToPersianDigits(s), s)
    ensures |ToPersianDigits(s)| == |s|
    ensures forall i :: 0 <= i < |s| ==>
              if IsDigit(s[i]) then ToPersianDigits(s)[i] as int == 0x6F0 + (s[i] as int - '0' as int)
              else ToPersianDigits(s)[i] == s[i]
  {
  }

  /** `s` with every character of `drop` deleted. */
  function Without(s: string, drop: set<char>): string {
    if s == "" then ""
    else (if s[0] in drop then "" else [s[0]]) + Without(s[1..], drop)
  }

  lemma WithoutCons(c: char, s: string, drop: set<char>)
    ensures Without([c] + s, drop) == (if c in drop then "" else [c]) + Without(s, drop)
  {
    assert ([c] + s)[1..] == s;
  }

  lemma {:induction false} WithoutNothing(s: string, drop: set<char>)
    requires forall i :: 0 <= i < |s| ==> s[i] !in drop
    ensures Without(s, drop) == s
  {
    if s != "" { WithoutNothing(s[1..], drop); }
  }

  lemma {:induction false} WithoutConcat(a: string, b: string, drop: set<char>)
    ensures Without(a + b, drop) == Without(a, drop) + Without(b, drop)
  {
    if a == "" {
      assert a + b == b;
    } else {
      assert (a + b)[1..] == a[1..] + b;
      WithoutConcat(a[1..], b, drop);
    }
  }

  lemma {:induction false} WithoutFrom(s: string, drop: set<char>)
    ensures forall i :: 0 <= i < |Without(s, drop)| ==> Without(s, drop)[i] in s && Without(s, drop)[i] !in drop
  {
    if s != "" { WithoutFrom(s[1..], drop); }
  }

  lemma {:induction false} WithoutTwice(s: string, a: set<char>, b: set<char>)
    ensures Without(Without(s, a), b) == Without(s, a + b)
  {
    hide Without;
    if s == "" {
      WithoutNothing(s, a);
      WithoutNothing(s, b);
      WithoutNothing(s, a + b);
    } else {
      var c, rest := s[0], s[1..];
      assert s == [c] + rest;
      WithoutTwice(rest, a, b);
      WithoutCons(c, rest, a);
      WithoutCons(c, rest, a + b);
      if c in a {
        assert "" + Without(rest, a) == Without(rest, a) && "" + Without(rest, a + b) == Without(rest, a + b);
      } else {
        WithoutCons(c, Without(rest, a), b);
      }
    }
  }

  /** Deleting characters before or after stripping leaves the same, up to blanks at the ends. */
  lemma StripWithout(s: string, drop: set<char>)
    ensures Strip(Without(Strip(s), drop)) == Strip(Without(s, drop))
  {
    hide Strip, BLANKS, Without;
    var a, b := StripSplits(s);
    WithoutConcat(a + Strip(s), b, drop);
    WithoutConcat(a, Strip(s), drop);
    WithoutFrom(a, drop);
    WithoutFrom(b, drop);
    StripIgnoresBlanks(Without(a, drop), Without(Strip(s), drop), Without(b, drop));
  }

  /** The characters of `s` that `keep` accepts, in order. */
  function Keep(s: string, keep: char -> bool): (t: string)
    ensures forall i :: 0 <= i < |t| ==> keep(t[i])
  {
    if s == "" then "" else (if keep(s[0]) then [s[0]] else "") + Keep(s[1..], keep)
  }

  lemma {:induction false} KeepConcat(a: string, b: string, keep: char -> bool)
    ensures Keep(a + b, keep) == Keep(a, keep) + Keep(b, keep)
  {
    if a == "" {
      assert a + b == b;
    } else {
      assert (a + b)[1..] == a[1..] + b;
      KeepConcat(a[1..], b, keep);
    }
  }

  lemma {:induction false} KeepNothing(s: string, keep: char -> bool)
    requires forall i :: 0 <= i < |s| ==> !keep(s[i])
    ensures Keep(s, keep) == ""
  {
    if s != "" { KeepNothing(s[1..], keep); }
  }

  lemma {:induction false} KeepAll(s: string, keep: char -> bool)
    requires forall i :: 0 <= i < |s| ==> keep(s[i])
    ensures Keep(s, keep) == s
  {
    if s != "" { KeepAll(s[1..], keep); }
  }

  /** A filter that keeps no blank sees through `Strip`. */
  lemma KeepIgnoresStrip(s: string, keep: char -> bool)
    requires forall c :: IsSpace(c) ==> !keep(c)
    ensures Keep(Strip(s), keep) == Keep(s, keep)
  {
    hide Keep, FirstInk, LastInk, IsSpace;
    var first, last := FirstInk(s, 0), LastInk(s, |s|);
    FirstInkSkipsBlanks(s, 0);
    if first == |s| {
      KeepNothing(s, keep);
      KeepNothing("", keep);
    } else {
      var a, b, c := s[..first], s[first..last], s[last..];
      assert s == a + (b + c);
      KeepNothing(a, keep);
      KeepNothing(c, keep);
      KeepConcat(a, b + c, keep);
      KeepConcat(b, c, keep);
      assert "" + (Keep(b, keep) + "") == Keep(b, keep);
    }
  }

  /** Nor does it miss what was deleted, if it keeps none of that. */
  lemma {:induction false} KeepIgnoresDropped(s: string, drop: set<char>, keep: char -> bool)
    requires forall c :: c in drop ==> !keep(c)
    ensures Keep(Without(s, drop), keep) == Keep(s, keep)
  {
    if s != "" {
      KeepIgnoresDropped(s[1..], drop, keep);
      var head := if s[0] in drop then "" else [s[0]];
      KeepConcat(head, Without(s[1..], drop), keep);
      assert [s[0]][1..] == "";
    }
  }

  // ----- decimal numerals -----

  function Pow10(k: nat): (p: nat)
    ensures p > 0
  {
    if k == 0 then 1 else 10 * Pow10(k - 1)
  }

  lemma {:induction false} Pow10Adds(j: nat, k: nat)
    ensures Pow10(j + k) == Pow10(j) * Pow10(k)
  {
    if j > 0 { Pow10Adds(j - 1, k); }
  }

  function Val(s: string): nat {
    if s == "" then 0 else 10 * Val(s[..|s| - 1]) + DigitValue(s[|s| - 1])
  }

  /** Python's "%0wd" for a non-negative number: at least w digits, zeros in front. */
  function PadDec(n: nat, w: nat): string
    decreases w, n
  {
    (if n < 10 && w <= 1 then "" else PadDec(n / 10, if w <= 1 then w else w - 1)) + [DigitChar(n % 10)]
  }

  /** The same for any integer: the sign takes one of the w places. */
  function PadInt(n: int, w: nat): string {
    if n >= 0 then PadDec(n, w) else "-" + PadDec(-n, if w == 0 then 0 else w - 1)
  }

  function Dec(n: nat): string {
    PadDec(n, 1)
  }

  lemma ValSnoc(s: string, c: char)
    ensures Val(s + [c]) == 10 * Val(s) + DigitValue(c)
    ensures AllDigits(s) && IsDigit(c) ==> AllDigits(s + [c])
  {
    assert (s + [c])[..|s|] == s;
  }

  lemma {:induction false} PadDecMeans(n: nat, w: nat)
    ensures AllDigits(PadDec(n, w)) && Val(PadDec(n, w)) == n && |PadDec(n, w)| >= 1
    decreases w, n
  {
    var last := n < 10 && w <= 1;
    var w' := if w <= 1 then w else w - 1;
    if !last { PadDecMeans(n / 10, w'); }
    var front, c := if last then "" else PadDec(n / 10, w'), DigitChar(n % 10);
    ValSnoc(front, c);
    assert PadDec(n, w) == front + [c];
  }

  lemma {:induction false} PadDecWidth(n: nat, w: nat)
    requires w >= 1 && n < Pow10(w)
    ensures |PadDec(n, w)| == w
    decreases w
  {
    if w > 1 {
      assert n / 10 < Pow10(w - 1);
      PadDecWidth(n / 10, w - 1);
    } else {
      assert n < 10;
    }
  }

  lemma ShiftTen(x: int, y: int)
    ensures 10 * (x * y) == x * (10 * y)
  {
  }

  lemma {:induction false} ValConcat(a: string, b: string)
    ensures Val(a + b) == Val(a) * Pow10(|b|) + Val(b)
  {
    if b == "" {
      assert a + b == a;
    } else {
      var n := |b| - 1;
      assert a + b == a + b[..n] + [b[n]] && b == b[..n] + [b[n]];
      ValSnoc(a + b[..n], b[n]);
      ValSnoc(b[..n], b[n]);
      ValConcat(a, b[..n]);
      ShiftTen(Val(a), Pow10(n));
    }
  }

  lemma {:induction false} ValBounded(s: string)
    ensures Val(s) < Pow10(|s|)
  {
    if s != "" { ValBounded(s[..|s| - 1]); }
  }

  function ParseDigits(s: string): Option<nat> {
    if s != "" && AllDigits(s) then Some(Val(s)) else None
  }

  /** Python's `int` on plain text: digits with an optional plus sign (a minus never gets here). */
  function ParseInt(s: string): Option<nat> {
    if s != "" && s[0] == '+' then ParseDigits(s[1..]) else ParseDigits(s)
  }

  // ----- plain decimal text -----

  /** The number (negative ? -1 : 1) * num / 10^scale. */
  datatype Decimal = Decimal(negative: bool, num: nat, scale: nat)

  function IndexOf(s: string, c: char): (k: nat)
    ensures k <= |s|
    ensures k < |s| ==> s[k] == c
    ensures forall i :: 0 <= i < k ==> s[i] != c
  {
    if s == "" || s[0] == c then 0 else 1 + IndexOf(s[1..], c)
  }

  /** Python's `float` on plain decimal text: sign, digits, optionally a point and more digits. */
  function ParseFloat(s: string): Option<Decimal> {
    var t := Strip(s);
    var signed := t != "" && t[0] in {'+', '-'};
    ParseUnsigned(signed && t[0] == '-', if signed then t[1..] else t)
  }

  function ParseUnsigned(negative: bool, u: string): Option<Decimal> {
    var k := IndexOf(u, '.');
    var whole := u[..k];
    var frac := if k < |u| then u[k + 1..] else "";
    if AllDigits(whole) && AllDigits(frac) && |whole| + |frac| > 0
    then Some(Decimal(negative, Val(whole + frac), |frac|))
    else None
  }

  lemma UnsignedDigits(negative: bool, u: string)
    requires u != "" && AllDigits(u)
    ensures ParseUnsigned(negative, u) == Some(Decimal(negative, Val(u), 0))
  {
    assert IndexOf(u, '.') == |u|;
    assert u[..|u|] == u && u + "" == u;
  }

  lemma KeepDigits(s: string)
    requires AllDigits(s)
    ensures Keep(s, IsDigit) == s
  {
    KeepAll(s, IsDigit);
  }

  lemma DigitsAroundPoint(whole: string, frac: string)
    requires AllDigits(whole) && AllDigits(frac)
    ensures Keep(whole + ("." + frac), IsDigit) == whole + frac
  {
    hide Keep, AllDigits;
    KeepDigits(whole);
    KeepDigits(frac);
    KeepNothing(".", IsDigit);
    KeepConcat(".", frac, IsDigit);
    KeepConcat(whole, "." + frac, IsDigit);
    assert "" + frac == frac;
  }

  /** The digits of a numeral, sign, point and surrounding blanks left out, spell its number. */
  lemma UnsignedSpells(negative: bool, u: string)
    requires ParseUnsigned(negative, u).Some?
    ensures var d := Keep(u, IsDigit); d != "" && Val(d) == ParseUnsigned(negative, u).value.num
  {
    hide Keep, Val, IndexOf, AllDigits;
    var k := IndexOf(u, '.');
    if k < |u| {
      var whole, frac := u[..k], u[k + 1..];
      DigitsAroundPoint(whole, frac);
      assert u == whole + ("." + frac);
    } else {
      assert u[..k] == u && u + "" == u;
      KeepDigits(u);
    }
  }

  lemma NumeralSpells(s: string)
    requires ParseFloat(s).Some?
    ensures var d := Keep(s, IsDigit); d != "" && Val(d) == ParseFloat(s).value.num
  {
    hide Keep, Val, ParseUnsigned, Strip;
    var t := Strip(s);
    KeepIgnoresStrip(s, IsDigit);
    if t != "" && t[0] in {'+', '-'} {
      assert t == [t[0]] + t[1..];
      KeepNothing([t[0]], IsDigit);
      KeepConcat([t[0]], t[1..], IsDigit);
      assert "" + Keep(t[1..], IsDigit) == Keep(t[1..], IsDigit);
      UnsignedSpells(t[0] == '-', t[1..]);
    } else {
      UnsignedSpells(false, t);
    }
  }

  lemma DigitsAreClean(s: string)
    requires s != "" && AllDigits(s)
    ensures Clean(s) && Clean("-" + s) && s[0] != '+' && s[0] != '-'
  {
    assert IsDigit(s[0]) && IsDigit(s[|s| - 1]);
    var m := "-" + s;
    assert m[|m| - 1] == s[|s| - 1];
    assert forall i :: 0 < i < |m| ==> m[i] == s[i - 1];
  }

  lemma ParseFloatOfDigits(s: string)
    requires s != "" && AllDigits(s)
    ensures ParseFloat(s) == Some(Decimal(false, Val(s), 0))
    ensures ParseFloat("-" + s) == Some(Decimal(true, Val(s), 0))
  {
    hide ParseUnsigned, Val, Strip, Clean, AllDigits, ToEnglishDigits;
    DigitsAreClean(s);
    CleanStays(s);
    CleanStays("-" + s);
    assert ("-" + s)[1..] == s;
    UnsignedDigits(false, s);
    UnsignedDigits(true, s);
  }

  lemma PointIsClean(a: string, b: string)
    requires a != "" && b != "" && AllDigits(a) && AllDigits(b)
    ensures Clean(a + "." + b) && a[0] != '+' && a[0] != '-'
  {
    var s := a + "." + b;
    assert IsDigit(a[0]) && IsDigit(b[|b| - 1]) && s[0] == a[0] && s[|s| - 1] == b[|b| - 1];
    assert forall i :: 0 <= i < |s| ==> s[i] == if i < |a| then a[i] else if i == |a| then '.' else b[i - |a| - 1];
  }

  lemma ParseFloatOfPoint(a: string, b: string)
    requires a != "" && b != "" && AllDigits(a) && AllDigits(b)
    ensures ParseFloat(a + "." + b) == Some(Decimal(false, Val(a + b), |b|))
  {
    hide Strip, Val, Clean, ToEnglishDigits, IndexOf;
    var s := a + "." + b;
    PointIsClean(a, b);
    CleanStays(s);
    assert s[|a|] == '.';
    assert forall i :: 0 <= i < |a| ==> s[i] == a[i] && IsDigit(a[i]);
    assert IndexOf(s, '.') == |a|;
    assert s[..|a|] == a && s[|a| + 1..] == b;
  }

  /** A numeral `float` accepts: a sign or none, digits, and a point with further digits or none. */
  function NumeralText(sign: string, whole: string, point: bool, frac: string): string {
    sign + (whole + if point then "." + frac else "")
  }

  predicate NumeralPieces(sign: string, whole: string, point: bool, frac: string) {
    && (sign == "" || sign == "+" || sign == "-")
    && AllDigits(whole) && AllDigits(frac) && |whole| + |frac| > 0 && (!point ==> frac == "")
  }

  lemma UnsignedOfPieces(negative: bool, whole: string, point: bool, frac: string)
    requires AllDigits(whole) && AllDigits(frac) && |whole| + |frac| > 0 && (!point ==> frac == "")
    ensures ParseUnsigned(negative, whole + if point then "." + frac else "") ==
            Some(Decimal(negative, Val(whole + frac), |frac|))
  {
    hide Val, IndexOf;
    var u := whole + if point then "." + frac else "";
    assert forall i :: 0 <= i < |whole| ==> u[i] == whole[i] && IsDigit(whole[i]);
    if point {
      assert u[|whole|] == '.';
      assert IndexOf(u, '.') == |whole|;
      assert u[..|whole|] == whole && u[|whole| + 1..] == frac;
    } else {
      assert u == whole && IndexOf(u, '.') == |u| && u[..|u|] == whole;
    }
  }

  lemma NumeralIsClean(sign: string, whole: string, point: bool, frac: string)
    requires NumeralPieces(sign, whole, point, frac)
    ensures var t := NumeralText(sign, whole, point, frac);
            && t != "" && t[0] !in BLANKS && t[|t| - 1] !in BLANKS
            && (sign == "" ==> t[0] != '+' && t[0] != '-')
  {
    var body := whole + if point then "." + frac else "";
    var t := NumeralText(sign, whole, point, frac);
    assert body != "" && (body[0] == '.' || IsDigit(body[0]));
    assert t[|t| - 1] == body[|body| - 1];
    assert body[|body| - 1] == '.' || IsDigit(body[|body| - 1]);
  }

  /** Every such numeral, between any blanks, is read as its number. */
  lemma FloatReads(a: string, sign: string, whole: string, point: bool, frac: string, b: string)
    requires AllBlank(a) && AllBlank(b) && NumeralPieces(sign, whole, point, frac)
    ensures ParseFloat(a + NumeralText(sign, whole, point, frac) + b) ==
            Some(Decimal(sign == "-", Val(whole + frac), |frac|))
  {
    hide Strip, Val, ParseUnsigned, BLANKS;
    var t, body := NumeralText(sign, whole, point, frac), whole + if point then "." + frac else "";
    NumeralIsClean(sign, whole, point, frac);
    StripOf(a, t, b);
    UnsignedOfPieces(sign == "-", whole, point, frac);
    assert sign == "" ==> t == body;
    assert sign != "" ==> t[0] == sign[0] && t[1..] == body;
  }

  /** And nothing else is read. */
  lemma ReadFloatIsNumeral(s: string)
    returns (a: string, sign: string, whole: string, point: bool, frac: string, b: string)
    requires ParseFloat(s).Some?
    ensures AllBlank(a) && AllBlank(b) && NumeralPieces(sign, whole, point, frac)
    ensures s == a + NumeralText(sign, whole, point, frac) + b
  {
    hide Strip, Val, BLANKS, AllDigits, IndexOf, AllBlank;
    var t := Strip(s);
    a, b := StripSplits(s);
    var signed := t != "" && t[0] in {'+', '-'};
    var u := if signed then t[1..] else t;
    sign := if signed then [t[0]] else "";
    assert t == sign + u && (sign == "" || sign == "+" || sign == "-");
    whole, point, frac := PiecesOf(signed && t[0] == '-', u);
    assert NumeralText(sign, whole, point, frac) == t;
  }

  lemma PiecesOf(negative: bool, u: string) returns (whole: string, point: bool, frac: string)
    requires ParseUnsigned(negative, u).Some?
    ensures AllDigits(whole) && AllDigits(frac) && |whole| + |frac| > 0 && (!point ==> frac == "")
    ensures u == whole + if point then "." + frac else ""
  {
    hide Val, IndexOf, AllDigits;
    var k := IndexOf(u, '.');
    point := k < |u|;
    whole, frac := u[..k], if point then u[k + 1..] else "";
  }

  lemma NumeralHasNoBlank(sign: string, whole: string, point: bool, frac: string)
    requires NumeralPieces(sign, whole, point, frac)
    ensures forall c :: c in NumeralText(sign, whole, point, frac) ==> c !in BLANKS
  {
    assert forall c :: c in whole ==> IsDigit(c);
    assert forall c :: c in frac ==> IsDigit(c);
  }

  // ----- character order -----

  predicate StrLess(a: string, b: string) {
    b != "" && (a == "" || a[0] < b[0] || (a[0] == b[0] && StrLess(a[1..], b[1..])))
  }

  predicate StrAtMost(a: string, b: string) {
    a == b || StrLess(a, b)
  }

  /** Strings that begin with pieces of equal length compare piece by piece. */
  lemma {:induction false} PieceOrder(a: string, x: string, b: string, y: string)
    requires |a| == |b|
    ensures StrLess(a + x, b + y) <==> StrLess(a, b) || (a == b && StrLess(x, y))
    ensures a + x == b + y <==> a == b && x == y
  {
    if a == "" {
      assert a + x == x && b + y == y;
    } else {
      PieceOrder(a[1..], x, b[1..], y);
      assert (a + x)[1..] == a[1..] + x && (b + y)[1..] == b[1..] + y;
      assert a == [a[0]] + a[1..] && b == [b[0]] + b[1..];
      assert a + x == [a[0]] + (a[1..] + x) && b + y == [b[0]] + (b[1..] + y);
    }
  }

  /** Among numerals of one width, character order is numeric order. */
  lemma {:induction false} DigitsOrder(a: string, b: string)
    requires |a| == |b| && AllDigits(a) && AllDigits(b)
    ensures StrLess(a, b) <==> Val(a) < Val(b)
    ensures a == b <==> Val(a) == Val(b)
  {
    if a != "" {
      var n := |a| - 1;
      var p, q := a[..n], b[..n];
      DigitsOrder(p, q);
      PieceOrder(p, [a[n]], q, [b[n]]);
      assert a == p + [a[n]] && b == q + [b[n]];
      assert StrLess([a[n]], [b[n]]) <==> a[n] < b[n];
      assert IsDigit(a[n]) && IsDigit(b[n]);
    }
  }

  lemma PaddedOrder(m: nat, n: nat, w: nat)
    requires w >= 1 && m < Pow10(w) && n < Pow10(w)
    ensures |PadDec(m, w)| == |PadDec(n, w)| == w
    ensures StrLess(PadDec(m, w), PadDec(n, w)) <==> m < n
    ensures PadDec(m, w) == PadDec(n, w) <==> m == n
  {
    PadDecMeans(m, w);
    PadDecMeans(n, w);
    PadDecWidth(m, w);
    PadDecWidth(n, w);
    DigitsOrder(PadDec(m, w), PadDec(n, w));
  }

  /** A numeral of the right width and value is the padded one. */
  lemma DigitsOf(n: nat, w: nat, s: string)
    requires |s| == w >= 1 && AllDigits(s) && Val(s) == n
    ensures PadDec(n, w) == s
  {
    hide PadDec, Val;
    PadDecMeans(n, w);
    ValBounded(s);
    PadDecWidth(n, w);
    DigitsOrder(PadDec(n, w), s);
  }

  lemma {:induction false} StrLessTotal(a: string, b: string)
    ensures StrLess(a, b) || a == b || StrLess(b, a)
    ensures !(StrLess(a, b) && StrLess(b, a)) && !StrLess(a, a)
  {
    if a != "" {
      StrLessTotal(a[1..], a[1..]);
      if b != "" {
        StrLessTotal(a[1..], b[1..]);
        assert a == [a[0]] + a[1..] && b == [b[0]] + b[1..];
      }
    }
  }

  lemma {:induction false} StrLessTransitive(a: string, b: string, c: string)
    requires StrLess(a, b) && StrLess(b, c)
    ensures StrLess(a, c)
  {
    if a != "" && a[0] == b[0] == c[0] { StrLessTransitive(a[1..], b[1..], c[1..]); }
  }

  /** One text comes before another when it ends first or has the smaller character where they first differ. */
  lemma {:induction false} StrLessMeans(a: string, b: string)
    ensures StrLess(a, b) <==>
            exists k :: 0 <= k <= |a| && k < |b| && a[..k] == b[..k] && (k == |a| || a[k] < b[k])
  {
    if b != "" {
      if a == "" {
        assert a[..0] == b[..0];
      } else if a[0] < b[0] {
        assert a[..0] == b[..0];
      } else if a[0] == b[0] {
        var p, q := a[1..], b[1..];
        StrLessMeans(p, q);
        if StrLess(p, q) {
          var k :| 0 <= k <= |p| && k < |q| && p[..k] == q[..k] && (k == |p| || p[k] < q[k]);
          assert a[..k + 1] == [a[0]] + p[..k] && b[..k + 1] == [b[0]] + q[..k];
        }
        if k :| 0 <= k <= |a| && k < |b| && a[..k] == b[..k] && (k == |a| || a[k] < b[k]) {
          assert k > 0;
          assert p[..k - 1] == a[..k][1..] && q[..k - 1] == b[..k][1..];
        }
      } else {
        SameHead(a, b);
      }
    }
  }

  lemma SameHead(a: string, b: string)
    requires a != "" && b != ""
    ensures forall k :: 0 < k <= |a| && k <= |b| && a[..k] == b[..k] ==> a[0] == b[0]
  {
    forall k | 0 < k <= |a| && k <= |b| && a[..k] == b[..k] ensures a[0] == b[0] {
      assert a[..k][0] == a[0] && b[..k][0] == b[0];
    }
  }
}
