/**
 A form that was refused is shown again with what was posted (`_rerender_form` in payroll/blueprints/
 projects.py and the string branch of `format_money`). Posting it untouched need not be refused again:
 texts that could not be read come back as numbers. This module says exactly when it is.
 */
module RefusedForm {
  import opened Balances
  import opened DateText
  import opened EditForm
  import opened LedgerInvariant
  import opened MoneyText
  import opened PercentText
  import opened Preview
  import opened ProjectForm
  import opened Rounding
  import opened Shares
  import opened Tables
  import opened Text

  // ----- an amount shown again -----

  /** What `format_money` deletes from a text; blanks inside are not among it. */
  const COMMAS: set<char> := {',', '\U{60C}'}

  /** The numeral `format_money` finds in a posted text. */
  function ShownNumeral(text: string): Option<Decimal> {
    ParseFloat(Strip(Without(ToEnglishDigits(text), COMMAS)))
  }

  /** `format_money` of a text: what is no number becomes 0. */
  function MoneyOfText(text: string): string {
    match ShownNumeral(text)
    case None => FormatMoney(0)
    case Some(v) =>
      var n := RoundHalfEven(v.num, Pow10(v.scale));
      FormatMoney(if v.negative then -n else n)
  }

  /** The number in the field then; the browser drops the sign. */
  function ShownAmount(text: string): nat {
    match ShownNumeral(text)
    case None => 0
    case Some(v) => RoundHalfEven(v.num, Pow10(v.scale))
  }

  /** The money field of the form shown again, as the browser formats it on loading. */
  function ShownField(text: Option<string>): string {
    Fmt(if OrEmpty(text) == "" then "" else MoneyOfText(OrEmpty(text)))
  }

  lemma DigitsOfPrint(k: nat)
    ensures Digits(FormatMoney(k)) == Dec(k) && Digits(FormatMoney(0 - k)) == Dec(k)
  {
    hide GroupThousands, PadDec, Keep;
    PadDecMeans(k, 1);
    DigitsOfGrouped(Dec(k));
    var g := GroupThousands(Dec(k));
    KeepNothing("-", IsDigit);
    KeepConcat("-", g, IsDigit);
    assert "" + Keep(g, IsDigit) == Keep(g, IsDigit);
  }

  /** Unless it was left empty, the field is a number when it is posted again. */
  lemma ShownFieldReads(text: Option<string>)
    ensures ParseAmount(Some(ShownField(text))) ==
            if OrEmpty(text) == "" then None else Some(ShownAmount(OrEmpty(text)))
  {
    hide ParseAmount, ShownNumeral, FormatMoney, RoundHalfEven, PadDec, Keep;
    if OrEmpty(text) == "" {
      FieldReadsAsNumber("");
      KeepNothing("", IsDigit);
    } else {
      var n := ShownAmount(OrEmpty(text));
      FieldReadsAsNumber(MoneyOfText(OrEmpty(text)));
      DigitsOfPrint(n);
      PadDecMeans(n, 1);
    }
  }

  /** A numeral with commas of either kind in it, in any digits, is shown as its number, grouped and rounded. */
  lemma ShownReads(text: string, s: string, a: string, sign: string, whole: string, point: bool, frac: string,
                   b: string)
    requires InAnyDigits(text, s) && forall i :: 0 <= i < |s| ==> !ForeignDigit(s[i])
    requires AllBlank(a) && AllBlank(b) && NumeralPieces(sign, whole, point, frac)
    requires Without(s, {',', '\U{60C}'}) == a + NumeralText(sign, whole, point, frac) + b
    ensures var n := RoundHalfEven(Val(whole + frac), Pow10(|frac|));
            ShownAmount(text) == n && MoneyOfText(text) == FormatMoney(if sign == "-" then 0 - n else n)
  {
    hide ParseFloat, Strip, Without, InAnyDigits, ForeignDigit, NumeralText, NumeralPieces, Val, BLANKS, AllBlank,
         ToEnglishDigits, FormatMoney;
    TranslatedBack(text, s);
    FloatReads(a, sign, whole, point, frac, b);
    StripIdempotent(Without(s, COMMAS));
    FloatIgnoresStrip(Strip(Without(s, COMMAS)), Without(s, COMMAS));
  }

  /** Of an amount the server reads, the printing function finds the numeral exactly when no blank is inside. */
  lemma NumeralIsShown(text: string, s: string)
    requires ParseAmount(Some(text)).Some?
    requires InAnyDigits(text, s) && forall i :: 0 <= i < |s| ==> !ForeignDigit(s[i])
    ensures ShownNumeral(text).Some? <==> ' ' !in Strip(Without(s, {',', '\U{60C}'}))
  {
    hide ParseFloat, Strip, Without, InAnyDigits, ForeignDigit, NumeralText, NumeralPieces, Val, BLANKS, AllBlank,
         ToEnglishDigits, ParseAmount;
    TranslatedBack(text, s);
    var t := Strip(Without(s, COMMAS));
    if ShownNumeral(text).Some? {
      var a, sign, whole, point, frac, b := ReadFloatIsNumeral(t);
      NumeralHasNoBlank(sign, whole, point, frac);
      NumeralIsClean(sign, whole, point, frac);
      StripOf(a, NumeralText(sign, whole, point, frac), b);
      StripIdempotent(Without(s, COMMAS));
      assert ' ' in BLANKS by { BlankTable(' '); }
    }
    if ' ' !in t {
      var s', a, sign, whole, point, frac, b := AmountIsNumeral(text);
      TranslatedBack(text, s');
      NumeralIsClean(sign, whole, point, frac);
      StripOf(a, NumeralText(sign, whole, point, frac), b);
      CoreWithoutBlanks(Without(s, COMMAS));
      WithoutTwice(s, COMMAS, {' '});
      assert COMMAS + {' '} == {',', '\U{60C}', ' '};
      assert t == NumeralText(sign, whole, point, frac);
      NothingIsBlank();
      FloatReads("", sign, whole, point, frac, "");
      assert "" + t + "" == t;
    }
  }

  lemma NothingIsBlank()
    ensures AllBlank("")
  {
  }

  /** Where the core holds no space, deleting spaces leaves it as it is. */
  lemma CoreWithoutBlanks(f: string)
    requires ' ' !in Strip(f)
    ensures Strip(Without(f, {' '})) == Strip(f)
  {
    hide Strip, Without, BLANKS;
    StripWithout(f, {' '});
    WithoutNothing(Strip(f), {' '});
    StripIdempotent(f);
  }

  /**
   An amount the server read comes back as itself exactly when it is zero, or no blank stands inside the
   number: the server deletes those too, the printing function does not.
   */
  lemma ReadAmountIsShown(text: string, s: string)
    requires ParseAmount(Some(text)).Some?
    requires InAnyDigits(text, s) && forall i :: 0 <= i < |s| ==> !ForeignDigit(s[i])
    ensures ShownAmount(text) == ParseAmount(Some(text)).value <==>
            ParseAmount(Some(text)) == Some(0) || ' ' !in Strip(Without(s, {',', '\U{60C}'}))
  {
    hide ParseAmount, ParseFloat, RoundHalfEven, Pow10, Strip, Without, ToEnglishDigits, ParseUnsigned, Keep,
         InAnyDigits, ForeignDigit;
    AmountOfNumeral(text);
    NumeralIsShown(text, s);
    if ShownNumeral(text).Some? {
      var e := ToEnglishDigits(text);
      var shown, read := Strip(Without(e, COMMAS)), Without(Strip(e), AMOUNT_NOISE);
      NumeralKept(shown);
      NumeralKept(read);
      KeepIgnoresStrip(Without(e, COMMAS), IsDigitOrPoint);
      KeepIgnoresDropped(e, COMMAS, IsDigitOrPoint);
      KeepIgnoresDropped(Strip(e), AMOUNT_NOISE, IsDigitOrPoint);
      KeepIgnoresStrip(e, IsDigitOrPoint);
      SameUnsigned(ParseFloat(shown).value.negative, ParseFloat(read).value.negative, KeepDecimal(e));
    }
  }

  lemma SameUnsigned(m: bool, n: bool, u: string)
    requires ParseUnsigned(m, u).Some?
    ensures ParseUnsigned(n, u).Some? && ParseUnsigned(n, u).value.num == ParseUnsigned(m, u).value.num
    ensures ParseUnsigned(n, u).value.scale == ParseUnsigned(m, u).value.scale
  {
  }

  // ----- the form shown again -----

  function OrZero(n: Option<int>): (k: int)
    ensures n.Some? ==> k == n.value
  {
    if n == None then 0 else n.value
  }

  /** What was posted last for a worker. */
  function LastInput(ws: seq<WorkerInput>, id: int): Option<WorkerInput> {
    if ws == [] then None
    else if ws[|ws| - 1].wid == Some(id) then Some(ws[|ws| - 1])
    else LastInput(ws[..|ws| - 1], id)
  }

  /** A ticked row: a percent or an amount that could not be read counts as 0, an amount of 0 is left blank. */
  function ShownInput(id: int, w: WorkerInput): WorkerInput {
    var percent := ParsePercent(w.percent);
    WorkerInput(Some(id), Some(ModeCode(ParseMode(w.mode))),
                Some(FormatPercent(if percent == None then 0 else percent.value)),
                Some(MoneyField(OrZero(ParseAmount(w.amount)))))
  }

  /** The ticked rows among the workers that are listed: the active ones, in the order of the form. */
  function ShownInputs(ws: seq<WorkerInput>, listed: seq<int>): seq<WorkerInput> {
    if listed == [] then []
    else
      var id := listed[|listed| - 1];
      var w := LastInput(ws, id);
      ShownInputs(ws, listed[..|listed| - 1]) + if w == None then [] else [ShownInput(id, w.value)]
  }

  function ShownForm(form: Form, listed: seq<int>): Form {
    Form(Some(OrEmpty(form.name)), Some(StatusCode(ParseStatus(form.status))), Some(ShownField(form.labor)),
         Some(ShownField(form.customerTotal)), Some(OrEmpty(form.date)), ShownInputs(form.workers, listed))
  }

  // ----- how its rows are read -----

  /** A fixed share that is unreadable or nothing comes back blank. */
  predicate BlankAmount(w: WorkerInput) {
    ParseMode(w.mode) == FixedMode && OrZero(ParseAmount(w.amount)) == 0
  }

  /** The share of a row as it stands in the form shown again, in terms of what was posted. */
  function ShownShare(w: WorkerInput, labor: nat): int {
    if ParseMode(w.mode) == FixedMode then OrZero(ParseAmount(w.amount))
    else WorkerShare(labor, OrZero(ParsePercent(w.percent)))
  }

  lemma ShownInputReads(id: int, w: WorkerInput, labor: nat)
    ensures ReadWorker(ShownInput(id, w)) == Invalid <==> BlankAmount(w)
    ensures !BlankAmount(w) ==>
              var reading := ReadWorker(ShownInput(id, w));
              reading.Read? && Fill(reading.row, labor).share == ShownShare(w, labor)
  {
    hide ParseAmount, ParsePercent, MoneyField, FormatPercent, Strip, WorkerShare, EquivalentPercent;
    var percent := ParsePercent(w.percent);
    ModeReadsBack(ParseMode(w.mode));
    MoneyFieldReads(OrZero(ParseAmount(w.amount)));
    if percent.Some? { PercentRange(w.percent); }
    PercentReadsBack(if percent == None then 0 else percent.value);
  }

  predicate BlankListed(ws: seq<WorkerInput>, listed: seq<int>) {
    exists i :: 0 <= i < |listed| && LastInput(ws, listed[i]).Some? && BlankAmount(LastInput(ws, listed[i]).value)
  }

  function ShownShareOf(ws: seq<WorkerInput>, id: int, labor: nat): int {
    var w := LastInput(ws, id);
    if w == None then 0 else ShownShare(w.value, labor)
  }

  function ShownTotal(ws: seq<WorkerInput>, listed: seq<int>, labor: nat): int {
    if listed == [] then 0
    else ShownTotal(ws, listed[..|listed| - 1], labor) + ShownShareOf(ws, listed[|listed| - 1], labor)
  }

  lemma {:induction false} ShownInputsRead(ws: seq<WorkerInput>, listed: seq<int>, labor: nat)
    ensures AllReadable(ShownInputs(ws, listed)) <==> !BlankListed(ws, listed)
    ensures AllReadable(ShownInputs(ws, listed)) ==>
              ShareTotal(FillAll(ReadRows(ShownInputs(ws, listed)), labor)) == ShownTotal(ws, listed, labor)
  {
    hide ShownInput, ShownShare, BlankAmount, LastInput, ReadWorker, Fill, AllReadable, ReadRows, FillAll, ShareTotal;
    if listed == [] {
      NothingPosted(labor);
    } else {
      var front, id := listed[..|listed| - 1], listed[|listed| - 1];
      var w := LastInput(ws, id);
      ShownInputsRead(ws, front, labor);
      BlankStep(ws, front, id);
      assert listed == front + [id];
      if w.Some? {
        var posted, input := ShownInputs(ws, front), ShownInput(id, w.value);
        assert ShownInputs(ws, listed) == posted + [input];
        ShownInputReads(id, w.value, labor);
        ReadableAppend(posted, input);
        if !BlankAmount(w.value) {
          ReadRowsAppend(posted, input, labor);
          LineAdded(FillAll(ReadRows(posted), labor), Fill(ReadWorker(input).row, labor));
        }
      } else {
        assert ShownInputs(ws, listed) == ShownInputs(ws, front);
      }
    }
  }

  lemma BlankStep(ws: seq<WorkerInput>, front: seq<int>, id: int)
    ensures BlankListed(ws, front + [id]) <==>
            BlankListed(ws, front) || (LastInput(ws, id).Some? && BlankAmount(LastInput(ws, id).value))
  {
    hide LastInput, BlankAmount;
    var listed := front + [id];
    assert listed[|front|] == id;
    assert forall i :: 0 <= i < |front| ==> listed[i] == front[i];
  }

  // ----- the verdict -----

  /**
   The form shown again is refused exactly when the name is blank, the labour field was left empty, a
   listed fixed share is unreadable or zero, or the shares exceed the labour amount as it is shown.
   Every other error of the first posting is gone.
   */
  lemma ShownFormRefused(form: Form, listed: seq<int>)
    ensures Validate(ShownForm(form, listed)) == None <==>
            || Strip(OrEmpty(form.name)) == ""
            || OrEmpty(form.labor) == ""
            || BlankListed(form.workers, listed)
            || ShownTotal(form.workers, listed, ShownAmount(OrEmpty(form.labor))) > ShownAmount(OrEmpty(form.labor))
  {
    hide ParseAmount, ParseDateInput, ParseStatus, Strip, ShownField, ShownAmount, ShownInputs, ShownTotal, BlankListed,
         AllReadable, ReadRows, FillAll;
    ShownFieldReads(form.labor);
    ShownInputsRead(form.workers, listed, ShownAmount(OrEmpty(form.labor)));
  }

  /** The listed workers for whom something was posted. */
  function Ticked(ws: seq<WorkerInput>): int -> bool {
    (id: int) => LastInput(ws, id).Some?
  }

  /** A row of the form shown again: the worker's, with the last posted mode and its number, 0 if unreadable. */
  predicate ShownLine(ws: seq<WorkerInput>, id: int, l: Line, labor: nat) {
    && l.wid == id && LastInput(ws, id).Some?
    && var w := LastInput(ws, id).value;
       && l.mode == ParseMode(w.mode) && l.share == ShownShare(w, labor)
       && (l.mode == PercentMode ==> l.percent == OrZero(ParsePercent(w.percent)))
  }

  lemma ShownInputIsLine(ws: seq<WorkerInput>, id: int, labor: nat)
    requires LastInput(ws, id).Some? && !BlankAmount(LastInput(ws, id).value)
    ensures var reading := ReadWorker(ShownInput(id, LastInput(ws, id).value));
            reading.Read? && ShownLine(ws, id, Fill(reading.row, labor), labor)
  {
    hide ParseAmount, ParsePercent, MoneyField, FormatPercent, Strip, WorkerShare, EquivalentPercent, LastInput;
    var w := LastInput(ws, id).value;
    var percent := ParsePercent(w.percent);
    ModeReadsBack(ParseMode(w.mode));
    MoneyFieldReads(OrZero(ParseAmount(w.amount)));
    if percent.Some? { PercentRange(w.percent); }
    PercentReadsBack(if percent == None then 0 else percent.value);
  }

  lemma {:induction false} ShownLines(ws: seq<WorkerInput>, listed: seq<int>, labor: nat)
    requires !BlankListed(ws, listed)
    ensures var lines, ids := FillAll(ReadRows(ShownInputs(ws, listed)), labor), Where(listed, Ticked(ws));
            |lines| == |ids| && forall i :: 0 <= i < |ids| ==> ShownLine(ws, ids[i], lines[i], labor)
  {
    hide ShownInput, BlankAmount, LastInput, ReadWorker, Fill, ReadRows, FillAll, ShownLine;
    if listed == [] {
      NothingShownYet(labor);
    } else {
      var front, id := listed[..|listed| - 1], listed[|listed| - 1];
      var w := LastInput(ws, id);
      assert listed == front + [id];
      BlankStep(ws, front, id);
      ShownLines(ws, front, labor);
      if w.Some? {
        ShownInputIsLine(ws, id, labor);
        ReadRowsAppend(ShownInputs(ws, front), ShownInput(id, w.value), labor);
        assert ShownInputs(ws, listed) == ShownInputs(ws, front) + [ShownInput(id, w.value)];
      } else {
        assert ShownInputs(ws, listed) == ShownInputs(ws, front);
      }
    }
  }

  lemma NothingShownYet(labor: nat)
    ensures FillAll(ReadRows([]), labor) == []
  {
  }

  /**
   What is stored when it is accepted: the name, status and dates that were posted first, the two amounts
   as they were shown, and the listed rows in the order of the list.
   */
  lemma ShownFormDraft(form: Form, listed: seq<int>)
    requires Validate(ShownForm(form, listed)).Some?
    ensures var d, ids := Validate(ShownForm(form, listed)).value, Where(listed, Ticked(form.workers));
            && d.name == Strip(OrEmpty(form.name)) && d.status == ParseStatus(form.status)
            && (d.dateJalali, d.dateIso) == ParseDateInput(form.date)
            && d.labor == ShownAmount(OrEmpty(form.labor))
            && d.customerTotal == (if OrEmpty(form.customerTotal) == "" then d.labor
                                   else ShownAmount(OrEmpty(form.customerTotal)))
            && |d.lines| == |ids|
            && forall i :: 0 <= i < |ids| ==>
                 ShownLine(form.workers, ids[i], d.lines[i], ShownAmount(OrEmpty(form.labor)))
  {
    hide ParseAmount, ParseDateInput, Strip, ShownField, ShownAmount, ShownInputs, BlankListed, AllReadable, ReadRows,
         FillAll, ShownLine, ParseStatus, StatusCode, Ticked, Where;
    ShownFieldReads(form.labor);
    ShownFieldReads(form.customerTotal);
    StatusReads(ParseStatus(form.status));
    EmptyDate(form.date);
    ShownInputsRead(form.workers, listed, ShownAmount(OrEmpty(form.labor)));
    ShownLines(form.workers, listed, ShownAmount(OrEmpty(form.labor)));
  }

  lemma EmptyDate(date: Option<string>)
    ensures ParseDateInput(Some(OrEmpty(date))) == ParseDateInput(date)
  {
  }

  // ----- forms that were refused for their total only -----

  /** Every row can be read, no worker is posted twice, and all of them are listed again. */
  predicate CleanRows(ws: seq<WorkerInput>, listed: seq<int>) {
    && AllReadable(ws) && Distinct(listed)
    && (forall i :: 0 <= i < |ws| && ws[i].wid.Some? ==> ws[i].wid.value in listed && !BlankAmount(ws[i]))
    && (forall i, j :: 0 <= i < j < |ws| && ws[i].wid.Some? ==> ws[i].wid != ws[j].wid)
  }

  lemma ReadableShare(w: WorkerInput, labor: nat)
    requires ReadWorker(w) != Invalid
    ensures w.wid == None <==> ReadWorker(w) == Skipped
    ensures w.wid.Some? ==>
              var line := Fill(ReadWorker(w).row, labor);
              line.wid == w.wid.value && line.share == ShownShare(w, labor)
  {
    hide ParseAmount, ParsePercent, ParseMode, WorkerShare, EquivalentPercent;
  }

  /** Each worker's share among the lines is that of the worker's only row. */
  lemma {:induction false} LineOfInput(ws: seq<WorkerInput>, id: int, labor: nat)
    requires AllReadable(ws)
    requires forall i, j :: 0 <= i < j < |ws| && ws[i].wid.Some? ==> ws[i].wid != ws[j].wid
    ensures LineAmount(FillAll(ReadRows(ws), labor), id) == ShownShareOf(ws, id, labor)
    ensures LastInput(ws, id) == None <==> forall i :: 0 <= i < |ws| ==> ws[i].wid != Some(id)
  {
    hide ReadWorker, Fill, ShownShare, FillAll, ReadRows, AllReadable;
    if ws == [] {
      NothingPosted(labor);
      NoLines(labor, id);
    } else {
      var front, w := ws[..|ws| - 1], ws[|ws| - 1];
      assert ws == front + [w];
      ReadableAppend(front, w);
      LineOfInput(front, id, labor);
      ReadableShare(w, labor);
      if w.wid.Some? {
        var lines, line := FillAll(ReadRows(front), labor), Fill(ReadWorker(w).row, labor);
        ReadRowsAppend(front, w, labor);
        SumOfAppend(lines, line, LineWorker, LineShareOf, id);
        if w.wid == Some(id) { assert LastInput(front, id) == None; }
      } else {
        SkippedRow(front, w);
      }
    }
  }

  lemma NoLines(labor: nat, id: int)
    ensures LineAmount(FillAll(ReadRows([]), labor), id) == 0
  {
  }

  lemma {:induction false} ShareTotalIsTotal(lines: seq<Line>)
    ensures ShareTotal(lines) == Total(lines, LineShareOf)
  {
    if lines != [] { ShareTotalIsTotal(lines[..|lines| - 1]); }
  }

  lemma {:induction false} ListedSum(ws: seq<WorkerInput>, listed: seq<int>, labor: nat)
    requires AllReadable(ws)
    requires forall i, j :: 0 <= i < j < |ws| && ws[i].wid.Some? ==> ws[i].wid != ws[j].wid
    ensures SumOver(FillAll(ReadRows(ws), labor), LineWorker, LineShareOf, listed) == ShownTotal(ws, listed, labor)
  {
    hide AllReadable, FillAll, ReadRows, ShownShareOf;
    if listed != [] {
      ListedSum(ws, listed[..|listed| - 1], labor);
      LineOfInput(ws, listed[|listed| - 1], labor);
    }
  }

  lemma {:induction false} LineWorkersPosted(ws: seq<WorkerInput>, labor: nat)
    requires AllReadable(ws)
    ensures forall l :: l in FillAll(ReadRows(ws), labor) ==> exists i :: 0 <= i < |ws| && ws[i].wid == Some(l.wid)
  {
    hide ReadWorker, Fill, AllReadable;
    var rows := ReadRows(ws);
    var lines := FillAll(rows, labor);
    forall l | l in lines ensures exists i :: 0 <= i < |ws| && ws[i].wid == Some(l.wid) {
      var k :| 0 <= k < |lines| && lines[k] == l;
      RowsAreReadings(ws, rows[k]);
      var i :| 0 <= i < |ws| && ReadWorker(ws[i]) == Read(rows[k]);
      assert ws[i].wid == Some(l.wid) by { OneReadable(ws, i); ReadableShare(ws[i], labor); }
    }
  }

  lemma OneReadable(ws: seq<WorkerInput>, i: nat)
    requires AllReadable(ws) && i < |ws|
    ensures ReadWorker(ws[i]) != Invalid
  {
  }

  lemma CleanTotal(ws: seq<WorkerInput>, listed: seq<int>, labor: nat)
    requires CleanRows(ws, listed)
    ensures ShareTotal(FillAll(ReadRows(ws), labor)) == ShownTotal(ws, listed, labor)
    ensures !BlankListed(ws, listed)
  {
    hide AllReadable, FillAll, ReadRows, BlankAmount;
    var lines := FillAll(ReadRows(ws), labor);
    LineWorkersPosted(ws, labor);
    ShareTotalIsTotal(lines);
    SumExchange(lines, LineWorker, LineShareOf, listed);
    ListedSum(ws, listed, labor);
    forall i | 0 <= i < |listed| && LastInput(ws, listed[i]).Some?
      ensures !BlankAmount(LastInput(ws, listed[i]).value)
    {
      LastInputPosted(ws, listed[i]);
    }
  }

  lemma {:induction false} LastInputPosted(ws: seq<WorkerInput>, id: int)
    requires LastInput(ws, id).Some?
    ensures exists i :: 0 <= i < |ws| && ws[i].wid == Some(id) && LastInput(ws, id) == Some(ws[i])
  {
    var n := |ws| - 1;
    if ws[n].wid != Some(id) {
      LastInputPosted(ws[..n], id);
      var i :| 0 <= i < n && ws[..n][i].wid == Some(id) && LastInput(ws[..n], id) == Some(ws[..n][i]);
      assert ws[i] == ws[..n][i];
    }
  }

  /**
   A form in which every field can be read gets the same verdict again: with all its workers listed once
   and its labour amount shown as read, it is refused again exactly when it was refused, for its total.
   */
  lemma CleanFormKeepsVerdict(form: Form, listed: seq<int>)
    requires Strip(OrEmpty(form.name)) != "" && ParseAmount(form.labor).Some?
    requires ShownAmount(OrEmpty(form.labor)) == ParseAmount(form.labor).value
    requires CleanRows(form.workers, listed)
    ensures Validate(ShownForm(form, listed)) == None <==> Validate(form) == None
  {
    hide ParseAmount, ParseDateInput, ParseStatus, Strip, ShownForm, ShownAmount, ShownTotal, BlankListed,
         ReadRows, FillAll, BlankAmount;
    assert OrEmpty(form.labor) != "" by { NoAmount(); }
    ShownFormRefused(form, listed);
    CleanTotal(form.workers, listed, ParseAmount(form.labor).value);
  }

  // ----- refused first, accepted untouched -----

  function WordForm(): Form {
    Form(Some("a"), None, Some("abc"), None, None, [])
  }

  function PercentForm(): Form {
    Form(Some("a"), None, Some("5"), None, None, [WorkerInput(Some(1), Some("percent"), Some("150"), None)])
  }

  /** The labour amount "abc" comes back as 0 and is then accepted. */
  lemma WordBecomesZero()
    ensures Validate(WordForm()) == None && Validate(ShownForm(WordForm(), [])).Some?
  {
    hide ParseAmount, Strip, ShownForm, ShownAmount;
    assert ParseAmount(Some("abc")) == None && ShownAmount("abc") == 0 by { NoWord(); }
    StripShort();
    ShownFormRefused(WordForm(), []);
  }

  lemma NoWord()
    ensures ParseAmount(Some("abc")) == None && ShownAmount("abc") == 0
  {
    hide ParseFloat;
    CleanStays("abc");
    WithoutNothing("abc", AMOUNT_NOISE);
    WithoutNothing("abc", COMMAS);
    assert ParseFloat("abc") == None by { NoNumeral(); }
  }

  lemma NoNumeral()
    ensures ParseFloat("abc") == None
  {
    hide Val;
    CleanStays("abc");
    var k := IndexOf("abc", '.');
    assert k == 3 && "abc"[..k][0] == 'a' && !IsDigit('a');
  }

  /** A percent of 150 comes back as 0 and is then accepted: the worker gets nothing. */
  lemma TooMuchBecomesNothing()
    ensures Validate(PercentForm()) == None && Validate(ShownForm(PercentForm(), [1])).Some?
  {
    hide ParsePercent, ParseAmount, Strip, ShownForm, ShownAmount, ShownTotal, BlankListed;
    var w := PercentForm().workers[0];
    assert ParsePercent(Some("150")) == None by { TooMuch(); }
    assert ParseMode(Some("percent")) == PercentMode by { CleanStays("percent"); }
    assert ReadWorker(w) == Invalid;
    StripShort();
    NothingShown(w, ShownAmount("5"));
    ShownFormRefused(PercentForm(), [1]);
  }

  lemma NothingShown(w: WorkerInput, labor: nat)
    requires w.wid == Some(1) && ParseMode(w.mode) == PercentMode && ParsePercent(w.percent) == None
    ensures ShownTotal([w], [1], labor) == 0 && !BlankListed([w], [1])
  {
    hide ParsePercent, ParseMode, ParseAmount;
    assert LastInput([w], 1) == Some(w);
    assert [1][..0] == [];
    assert labor * 0 == 0 && WorkerShare(labor, 0) == 0;
  }

  lemma TooMuch()
    ensures ParsePercent(Some("150")) == None
  {
    hide ParseFloat, Val, Strip, ToEnglishDigits, Without, Pow10;
    DigitsAreClean("150");
    CleanStays("150");
    WithoutNothing("150", PERCENT_SIGNS);
    ParseFloatOfDigits("150");
    OneFifty();
    TenThousand();
  }

  lemma OneFifty()
    ensures Val("150") == 150
  {
    ValSnoc("", '1');
    ValSnoc("1", '5');
    ValSnoc("15", '0');
    assert "" + ['1'] == "1" && "1" + ['5'] == "15" && "15" + ['0'] == "150";
  }

  lemma FiftyFive()
    ensures Val("55") == 55 && Without("5 5", AMOUNT_NOISE) == "55"
  {
    hide Without;
    ValSnoc("", '5');
    ValSnoc("5", '5');
    assert "" + ['5'] == "5" && "5" + ['5'] == "55";
    WithoutCons('5', " 5", AMOUNT_NOISE);
    WithoutCons(' ', "5", AMOUNT_NOISE);
    WithoutNothing("5", AMOUNT_NOISE);
    assert ['5'] + " 5" == "5 5" && [' '] + "5" == " 5" && "" + "5" == "5";
  }

  /** An amount typed with a blank between its digits is read, but shown again as 0. */
  lemma BlankInsideIsLost()
    ensures ParseAmount(Some("5 5")) == Some(55) && ShownAmount("5 5") == 0
  {
    hide ParseAmount, ParseFloat, Strip, ToEnglishDigits, Val, Without;
    assert Clean("5 5");
    CleanStays("5 5");
    FiftyFive();
    ParseFloatOfDigits("55");
    ParseCleanAmount("5 5", Decimal(false, 55, 0));
    WholeAmount(false, 55);
    WithoutNothing("5 5", COMMAS);
    NotOneNumeral();
  }

  lemma NotOneNumeral()
    ensures ParseFloat("5 5") == None
  {
    hide Val;
    CleanStays("5 5");
    var k := IndexOf("5 5", '.');
    assert k == 3 && "5 5"[..k][1] == ' ' && !IsDigit(' ');
  }
}
