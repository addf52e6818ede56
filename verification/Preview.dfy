/**
 The live preview of the project form (`recalc` in static/js/app.js) against the check the server
 makes when the form is posted. Where both read the same numbers in the fields, the browser rounding
 halves up and the server to even is all that separates their totals.
 */
module Preview {
  import opened Arithmetic
  import opened DateText
  import opened MoneyText
  import opened PercentText
  import opened ProjectForm
  import opened Rounding
  import opened Shares
  import opened Text

  /** One worker row of the form: the check box, the mode, and the two text fields. */
  datatype FormRow = FormRow(wid: int, checked: bool, mode: Mode, percent: string, amount: string)

  // ----- the browser -----

  function ClientShare(labor: nat, row: FormRow): int {
    if !row.checked then 0
    else if row.mode == FixedMode then Num(row.amount)
    else
      var p := ClientPercent(row.percent);
      RoundHalfUp(labor * p.num, 100 * Pow10(p.scale))
  }

  function ClientTotal(labor: nat, rows: seq<FormRow>): int {
    if rows == [] then 0 else ClientTotal(labor, rows[..|rows| - 1]) + ClientShare(labor, rows[|rows| - 1])
  }

  /** The totals under the table and the warning that the shares exceed the labour amount. */
  method Recalc(laborText: string, rows: seq<FormRow>) returns (totalShare: int, shop: int, warning: bool)
    ensures totalShare == ClientTotal(Num(laborText), rows)
    ensures shop == Num(laborText) - totalShare
    ensures warning <==> shop < 0
  {
    var labor := Num(laborText);
    totalShare := 0;
    for i := 0 to |rows|
      invariant totalShare == ClientTotal(labor, rows[..i])
    {
      assert rows[..i + 1][..i] == rows[..i];
      var share := 0;
      if rows[i].checked {
        if rows[i].mode == FixedMode {
          share := Num(rows[i].amount);
        } else {
          var p := ClientPercent(rows[i].percent);
          share := RoundHalfUp(labor * p.num, 100 * Pow10(p.scale));
        }
        totalShare := totalShare + share;
      }
    }
    assert rows[..|rows|] == rows;
    shop := labor - totalShare;
    warning := totalShare > labor;
  }

  // ----- what the browser posts -----

  function PostedInput(r: FormRow): WorkerInput {
    WorkerInput(Some(r.wid), Some(ModeCode(r.mode)), Some(r.percent), Some(r.amount))
  }

  /** Only checked rows are submitted. */
  function Posted(rows: seq<FormRow>): seq<WorkerInput> {
    if rows == [] then []
    else
      var r := rows[|rows| - 1];
      Posted(rows[..|rows| - 1]) + if r.checked then [PostedInput(r)] else []
  }

  // ----- when the two sides read the same numbers -----

  predicate AlikeAmount(text: string) {
    ParseAmount(Some(text)) == Some(Num(text))
  }

  /** The number the browser reads is the percent the server stores. */
  predicate AlikePercent(text: string) {
    && ParsePercent(Some(text)).Some?
    && SameNumber(ClientPercent(text), Decimal(false, ParsePercent(Some(text)).value, 4))
  }

  /** The server can read the row, and the browser reads the same in it. */
  predicate AlikeRow(row: FormRow) {
    row.checked ==> if row.mode == FixedMode then AlikeAmount(row.amount) else AlikePercent(row.percent)
  }

  /** What a money field shows is always read alike, unless it is blank. */
  lemma FieldIsAlike(raw: string)
    ensures AlikeAmount(Fmt(raw)) <==> Digits(raw) != ""
  {
    hide ParseAmount, Fmt, Val;
    FieldReadsAsNumber(raw);
    FmtKeepsNumber(raw);
  }

  /** An amount of ASCII digits and commas, at least one digit. */
  predicate PlainAmount(s: string) {
    DigitsAndCommas(s) && Digits(s) != ""
  }

  lemma PlainAmountIsAlike(s: string)
    requires PlainAmount(s)
    ensures AlikeAmount(s)
  {
    assert forall i :: 0 <= i < |s| ==> IsDigit(s[i]) || s[i] == ',';
    assert s != "" && (IsDigit(s[0]) || s[0] == ',') && (IsDigit(s[|s| - 1]) || s[|s| - 1] == ',');
    CleanStays(s);
    NoiseIsCommas(s);
    ParseFloatOfDigits(Digits(s));
    ParseCleanAmount(s, Decimal(false, Num(s), 0));
    WholeAmount(false, Num(s));
  }

  lemma {:induction false} NoiseIsCommas(s: string)
    requires DigitsAndCommas(s)
    ensures Without(s, AMOUNT_NOISE) == Digits(s)
  {
    if s != "" { NoiseIsCommas(s[1..]); }
  }

  lemma AcceptedPercent(text: string)
    requires ParsePercent(Some(text)).Some?
    ensures ServerPercent(text).Some? && ParsePercent(Some(text)) == PercentOf(ServerPercent(text).value)
    ensures !ServerPercent(text).value.negative || ServerPercent(text).value.num == 0
  {
  }

  /**
   A percent typed in ASCII digits is read alike exactly when nothing but zeros follows the fourth
   decimal, where the server cuts it.
   */
  lemma AsciiPercentIsAlike(text: string)
    requires ParsePercent(Some(text)).Some? && ToEnglishDigits(text) == text
    ensures AlikePercent(text) <==>
            var v := ServerPercent(text).value; v.num * PERCENT_SCALE % Pow10(v.scale) == 0
  {
    hide ParsePercent, ServerPercent, ClientPercent, RoundHalfEven, Pow10;
    AcceptedPercent(text);
    AsciiPercentsAgree(text);
    var v := ServerPercent(text).value;
    TenThousand();
    RoundedIsExact(v.num * PERCENT_SCALE, Pow10(v.scale));
  }

  lemma TenThousand()
    ensures Pow10(4) == PERCENT_SCALE && Pow10(0) == 1
  {
  }

  /** Rounding a fraction gives the fraction itself exactly when it is whole. */
  lemma RoundedIsExact(n: nat, d: nat)
    requires d > 0
    ensures RoundHalfEven(n, d) * d == n <==> n % d == 0
  {
    var q := n / d;
    if n % d == 0 {
      assert n == q * d;
      RoundingIsExact(q, d);
    } else if RoundHalfEven(n, d) * d == n {
      Divided(n, d, RoundHalfEven(n, d), 0);
    }
  }

  // ----- the two totals -----

  /** A percent row whose exact share ends in one half above an even number. */
  predicate TieRow(labor: nat, row: FormRow) {
    && row.checked && row.mode == PercentMode && ParsePercent(Some(row.percent)).Some?
    && var n := labor * ParsePercent(Some(row.percent)).value; OnHalf(n, WHOLE) && n / WHOLE % 2 == 0
  }

  function TieRows(labor: nat, rows: seq<FormRow>): nat {
    if rows == [] then 0
    else TieRows(labor, rows[..|rows| - 1]) + if TieRow(labor, rows[|rows| - 1]) then 1 else 0
  }

  /** Writing the same number with other decimals only scales the fraction that is rounded. */
  lemma SameNumberRoundsAlike(labor: nat, c: Decimal, p: nat)
    requires SameNumber(c, Decimal(false, p, 4))
    ensures RoundHalfUp(labor * c.num, 100 * Pow10(c.scale)) == RoundHalfUp(labor * p, WHOLE)
  {
    hide RoundHalfUp, RoundHalfEven, OnHalf;
    var d := Pow10(c.scale);
    TenThousand();
    hide Pow10;
    RoundingScales(labor * c.num, 100 * d, PERCENT_SCALE);
    RoundingScales(labor * p, WHOLE, d);
    ProductSwaps(labor, c.num, PERCENT_SCALE, p, d);
    assert PERCENT_SCALE * (100 * d) == d * WHOLE;
  }

  lemma ProductSwaps(labor: int, n: int, e: int, p: int, d: int)
    requires n * e == p * d
    ensures e * (labor * n) == d * (labor * p)
  {
    assert e * (labor * n) == labor * (n * e) == labor * (p * d);
  }

  lemma PercentShares(labor: nat, text: string)
    requires AlikePercent(text)
    ensures var p := ParsePercent(Some(text)).value;
            var c := ClientPercent(text);
            RoundHalfUp(labor * c.num, 100 * Pow10(c.scale)) ==
            WorkerShare(labor, p) + (if OnHalf(labor * p, WHOLE) && labor * p / WHOLE % 2 == 0 then 1 else 0)
  {
    hide ClientPercent, ParsePercent, RoundHalfUp, RoundHalfEven, OnHalf, Pow10;
    SameNumberRoundsAlike(labor, ClientPercent(text), ParsePercent(Some(text)).value);
    RoundingsCompare(labor * ParsePercent(Some(text)).value, WHOLE);
  }

  /** What the server makes of a row, if it can read it. */
  function ServerShare(labor: nat, row: FormRow): int {
    var reading := ReadWorker(PostedInput(row));
    if row.checked && reading.Read? then Fill(reading.row, labor).share else 0
  }

  predicate ReadableRow(row: FormRow) {
    row.checked ==> ReadWorker(PostedInput(row)).Read?
  }

  lemma RowReading(labor: nat, row: FormRow)
    requires row.checked
    ensures ReadableRow(row) <==>
            if row.mode == FixedMode then ParseAmount(Some(row.amount)).Some? else ParsePercent(Some(row.percent)).Some?
    ensures ReadableRow(row) ==>
            ServerShare(labor, row) == if row.mode == FixedMode then ParseAmount(Some(row.amount)).value
                                       else WorkerShare(labor, ParsePercent(Some(row.percent)).value)
    ensures ReadableRow(row) <==> ReadWorker(PostedInput(row)) != Invalid
  {
    hide ParsePercent, ParseAmount, WorkerShare, EquivalentPercent, Strip;
    ModeReadsBack(row.mode);
  }

  lemma RowShares(labor: nat, row: FormRow)
    requires AlikeRow(row)
    ensures ReadableRow(row)
    ensures ClientShare(labor, row) == ServerShare(labor, row) + if TieRow(labor, row) then 1 else 0
  {
    hide ParsePercent, ParseAmount, Num, ClientPercent, RoundHalfUp, Strip, WorkerShare, SameNumber, OnHalf, Pow10,
         ServerShare, ReadableRow;
    if row.checked {
      RowReading(labor, row);
      if row.mode == PercentMode { PercentShares(labor, row.percent); }
    } else {
      UntickedRow(labor, row);
    }
  }

  lemma UntickedRow(labor: nat, row: FormRow)
    requires !row.checked
    ensures ReadableRow(row) && ServerShare(labor, row) == 0
  {
  }

  /**
   Reading alike is what it takes: the two shares of a readable row differ by nothing but the tie, for
   every labour amount, exactly when both sides read the same number in it.
   */
  lemma AlikeExactly(row: FormRow)
    requires ReadableRow(row)
    ensures AlikeRow(row) <==>
            forall labor: nat ::
              ClientShare(labor, row) == ServerShare(labor, row) + if TieRow(labor, row) then 1 else 0
  {
    hide ClientShare, ServerShare, TieRow, AlikeRow;
    if AlikeRow(row) {
      forall labor: nat
        ensures ClientShare(labor, row) == ServerShare(labor, row) + if TieRow(labor, row) then 1 else 0
      {
        RowShares(labor, row);
      }
    } else {
      var labor := UnlikeLabor(row);
      assert ClientShare(labor, row) != ServerShare(labor, row) + if TieRow(labor, row) then 1 else 0;
    }
  }

  /** A labour amount for which neither side has to round. */
  lemma UnlikeLabor(row: FormRow) returns (labor: nat)
    requires ReadableRow(row) && !AlikeRow(row)
    ensures ClientShare(labor, row) != ServerShare(labor, row) && !TieRow(labor, row)
  {
    hide ParsePercent, ParseAmount, Num, ClientPercent, RoundHalfUp, RoundHalfEven, Strip, OnHalf, Pow10, ServerShare,
         ReadableRow;
    labor := 0;
    if row.checked && row.mode == PercentMode {
      var c, p := ClientPercent(row.percent), ParsePercent(Some(row.percent));
      labor := WHOLE * Pow10(c.scale);
      RowReading(labor, row);
      TenThousand();
      ExactShares(c.num, Pow10(c.scale), p.value);
    } else {
      RowReading(labor, row);
    }
  }

  lemma ExactShares(n: nat, d: nat, p: nat)
    requires d > 0
    ensures var labor := WHOLE * d;
            && RoundHalfUp(labor * n, 100 * d) == n * PERCENT_SCALE
            && RoundHalfEven(labor * p, WHOLE) == p * d
            && !OnHalf(labor * p, WHOLE)
  {
    var labor := WHOLE * d;
    assert labor * n == n * PERCENT_SCALE * (100 * d);
    RoundingIsExact(n * PERCENT_SCALE, 100 * d);
    assert labor * p == p * d * WHOLE;
    RoundingIsExact(p * d, WHOLE);
    Divided(labor * p, WHOLE, p * d, 0);
  }

  lemma ModeReadsBack(mode: Mode)
    ensures ParseMode(Some(ModeCode(mode))) == mode
  {
    CleanStays(ModeCode(mode));
  }

  lemma PostedRow(labor: nat, front: seq<FormRow>, r: FormRow)
    ensures AllReadable(Posted(front + [r])) <==> AllReadable(Posted(front)) && ReadableRow(r)
    ensures AllReadable(Posted(front + [r])) ==>
              ShareTotal(FillAll(ReadRows(Posted(front + [r])), labor)) ==
              ShareTotal(FillAll(ReadRows(Posted(front)), labor)) + ServerShare(labor, r)
  {
    hide ReadWorker, Fill, AllReadable, ReadRows, FillAll, PostedInput;
    assert (front + [r])[..|front|] == front;
    if r.checked {
      var posted, w := Posted(front), PostedInput(r);
      assert Posted(front + [r]) == posted + [w];
      ReadableAppend(posted, w);
      assert ReadableRow(r) <==> ReadWorker(w) != Invalid by { RowReading(labor, r); }
      if ReadWorker(w).Read? {
        ReadRowsAppend(posted, w, labor);
        LineAdded(FillAll(ReadRows(posted), labor), Fill(ReadWorker(w).row, labor));
      }
    } else {
      assert Posted(front + [r]) == Posted(front);
    }
  }

  /** The server reads a posted form exactly when it reads every checked row. */
  lemma {:induction false} PostedReadable(rows: seq<FormRow>)
    ensures AllReadable(Posted(rows)) <==> forall i :: 0 <= i < |rows| ==> ReadableRow(rows[i])
  {
    hide ReadWorker, ReadableRow, AllReadable;
    if rows == [] {
      assert Posted([]) == [];
      NoRows();
    } else {
      var front, r := rows[..|rows| - 1], rows[|rows| - 1];
      PostedReadable(front);
      PostedRow(0, front, r);
      assert rows == front + [r];
      assert forall i :: 0 <= i < |front| ==> rows[i] == front[i];
    }
  }

  lemma NothingPosted(labor: nat)
    ensures Posted([]) == [] && AllReadable([]) && ShareTotal(FillAll(ReadRows([]), labor)) == 0
    ensures ClientTotal(labor, []) == 0 && TieRows(labor, []) == 0
  {
  }

  lemma OneMoreRow(labor: nat, front: seq<FormRow>, r: FormRow)
    ensures ClientTotal(labor, front + [r]) == ClientTotal(labor, front) + ClientShare(labor, r)
    ensures TieRows(labor, front + [r]) == TieRows(labor, front) + if TieRow(labor, r) then 1 else 0
  {
    hide ClientShare, TieRow;
    assert (front + [r])[..|front|] == front;
  }

  function Checked(rows: seq<FormRow>): seq<FormRow> {
    if rows == [] then []
    else Checked(rows[..|rows| - 1]) + if rows[|rows| - 1].checked then [rows[|rows| - 1]] else []
  }

  /** A line for the worker of a row, in its mode and with its share. */
  predicate LineFor(l: Line, r: FormRow, labor: nat) {
    l.wid == r.wid && l.mode == r.mode && l.share == ServerShare(labor, r)
  }

  /** The server gets one line for each checked row, in order, for its worker and in its mode. */
  lemma {:induction false} PostedLines(labor: nat, rows: seq<FormRow>)
    requires AllReadable(Posted(rows))
    ensures var lines := FillAll(ReadRows(Posted(rows)), labor);
            |lines| == |Checked(rows)| && forall i :: 0 <= i < |lines| ==> LineFor(lines[i], Checked(rows)[i], labor)
  {
    hide ReadWorker, Fill, AllReadable, ReadableRow, ReadRows, FillAll, PostedInput, LineFor;
    if rows == [] {
      NothingToFill(labor);
      NoRows();
    } else {
      var front, r := rows[..|rows| - 1], rows[|rows| - 1];
      assert rows == front + [r];
      PostedRow(labor, front, r);
      PostedLines(labor, front);
      if r.checked {
        PostedLine(labor, r);
        ReadRowsAppend(Posted(front), PostedInput(r), labor);
      } else {
        assert Posted(rows) == Posted(front);
      }
    }
  }

  lemma PostedLine(labor: nat, r: FormRow)
    requires r.checked && ReadableRow(r)
    ensures ReadWorker(PostedInput(r)).Read? && LineFor(Fill(ReadWorker(PostedInput(r)).row, labor), r, labor)
  {
    hide ParsePercent, ParseAmount, WorkerShare, EquivalentPercent, Strip;
    ModeReadsBack(r.mode);
  }

  /**
   The preview's total exceeds the server's by exactly the number of rows that tie; hence it is
   never below it, and never above it by more than those rows.
   */
  lemma {:induction false} PreviewMatchesServer(labor: nat, rows: seq<FormRow>)
    requires forall i :: 0 <= i < |rows| ==> AlikeRow(rows[i])
    ensures AllReadable(Posted(rows))
    ensures ClientTotal(labor, rows) == ShareTotal(FillAll(ReadRows(Posted(rows)), labor)) + TieRows(labor, rows)
  {
    hide AlikeRow, ReadWorker, ClientShare, TieRow, ServerShare, AllReadable, ReadableRow, ReadRows, FillAll,
         ClientTotal, TieRows, Posted;
    if rows == [] {
      NothingPosted(labor);
    } else {
      var front, r := rows[..|rows| - 1], rows[|rows| - 1];
      assert rows == front + [r];
      PreviewMatchesServer(labor, front);
      RowShares(labor, r);
      PostedRow(labor, front, r);
      OneMoreRow(labor, front, r);
    }
  }

  /**
   The server refuses a posted form exactly when it cannot read a checked row, or the preview is over
   by more than its ties. Every row the server reads is supposed to be read alike.
   */
  lemma WarningMeansRefusal(laborText: string, rows: seq<FormRow>, form: Form)
    requires AlikeAmount(laborText) && forall i :: 0 <= i < |rows| && ReadableRow(rows[i]) ==> AlikeRow(rows[i])
    requires form.labor == Some(laborText) && form.workers == Posted(rows)
    requires Strip(OrEmpty(form.name)) != ""
    ensures Validate(form) == None <==>
            || (exists i :: 0 <= i < |rows| && !ReadableRow(rows[i]))
            || ClientTotal(Num(laborText), rows) - TieRows(Num(laborText), rows) > Num(laborText)
  {
    hide AlikeRow, ReadableRow, ParseAmount, Num, ClientTotal, TieRows, FillAll, ReadRows, Posted, AllReadable, Strip,
         ParseDateInput;
    PostedReadable(rows);
    if AllReadable(Posted(rows)) { PreviewMatchesServer(Num(laborText), rows); }
  }

  /** So a preview without a warning is accepted, if every checked row is read alike. */
  lemma NoWarningNoRefusal(laborText: string, rows: seq<FormRow>, form: Form)
    requires AlikeAmount(laborText) && forall i :: 0 <= i < |rows| ==> AlikeRow(rows[i])
    requires form.labor == Some(laborText) && form.workers == Posted(rows)
    requires Strip(OrEmpty(form.name)) != ""
    requires ClientTotal(Num(laborText), rows) <= Num(laborText)
    ensures Validate(form).Some?
  {
    hide AlikeAmount, AlikeRow, ReadableRow, Num, ClientTotal, Posted, Validate, TieRows;
    forall i | 0 <= i < |rows| ensures ReadableRow(rows[i]) { RowShares(0, rows[i]); }
    WarningMeansRefusal(laborText, rows, form);
  }

  // ----- percents that the server rounds -----

  /**
   Where both sides read the same number, with decimals that the server cuts after the fourth, the two
   shares differ by at most one, and one more for every two millions of labour.
   */
  lemma CutPercentBound(labor: nat, row: FormRow)
    requires row.checked && row.mode == PercentMode && ParsePercent(Some(row.percent)).Some?
    requires ServerPercent(row.percent).Some?
    requires SameNumber(ClientPercent(row.percent), ServerPercent(row.percent).value)
    ensures var gap := ClientShare(labor, row) - ServerShare(labor, row);
            -(2 * WHOLE + labor) <= 2 * WHOLE * gap <= 2 * WHOLE + labor
  {
    hide ParsePercent, ServerPercent, ClientPercent, RoundHalfUp, RoundHalfEven, Pow10, ServerShare, ReadableRow;
    AcceptedPercent(row.percent);
    RowReading(labor, row);
    var c, v := ClientPercent(row.percent), ServerPercent(row.percent).value;
    var d, e := Pow10(v.scale), Pow10(c.scale);
    var p, up := ParsePercent(Some(row.percent)).value, RoundHalfUp(labor * c.num, 100 * e);
    RoundsToNearest(v.num * PERCENT_SCALE, d);
    RoundsToNearest(labor * p, WHOLE);
    RoundsToNearest(labor * c.num, 100 * e);
    SameQuotient(labor, c.num, e, v.num, d, up);
    GapBound(labor, v.num, d, p, WorkerShare(labor, p), up);
  }

  /** A nearest integer to a fraction is one to the same fraction written otherwise. */
  lemma SameQuotient(labor: nat, n: nat, e: int, m: nat, d: int, x: int)
    requires d > 0 && e > 0 && n * d == m * e && Nearest(x, labor * n, 100 * e)
    ensures Nearest(x, labor * m, 100 * d)
  {
    var z, y := 100 * e * x - labor * n, 100 * d * x - labor * m;
    assert d * z == e * y by { CrossMultiply(labor, n, e, m, d, x); }
    Between(d, 2 * z, 100 * e);
    assert d * (2 * z) == e * (2 * y);
    Cancel(e, 2 * y, 100 * d);
  }

  lemma CrossMultiply(labor: int, n: int, e: int, m: int, d: int, x: int)
    requires n * d == m * e
    ensures d * (100 * e * x - labor * n) == e * (100 * d * x - labor * m)
  {
    MulDistributes(d, 100 * e * x, labor * n);
    MulDistributes(e, 100 * d * x, labor * m);
    assert d * (labor * n) == labor * (n * d);
    assert e * (labor * m) == labor * (m * e);
    assert d * (100 * e * x) == e * (100 * d * x);
  }

  lemma Between(k: int, y: int, z: int)
    requires k >= 0 && -z <= y <= z
    ensures -(k * z) <= k * y <= k * z
  {
    MulOrder(k, y, z);
    MulOrder(k, -z, y);
  }

  lemma Cancel(k: int, y: int, z: int)
    requires k > 0 && -(k * z) <= k * y <= k * z
    ensures -z <= y <= z
  {
    MulDistributes(k, y, z);
    MultipleIsFar(k, y - z);
    MultipleIsFar(k, y + z);
  }

  lemma GapBound(labor: nat, m: nat, d: int, p: nat, even: int, up: int)
    requires d > 0 && Nearest(p, m * PERCENT_SCALE, d) && Nearest(even, labor * p, WHOLE)
    requires Nearest(up, labor * m, 100 * d)
    ensures -(2 * WHOLE + labor) <= 2 * WHOLE * (up - even) <= 2 * WHOLE + labor
  {
    var a, b, c := 2 * (d * p - m * PERCENT_SCALE), 2 * (WHOLE * even - labor * p), 2 * (100 * d * up - labor * m);
    var gap := 2 * WHOLE * (up - even);
    GapExpands(labor, m, d, p, even, up);
    Between(d, b, WHOLE);
    Between(labor, a, d);
    MulDistributes(d, 2 * WHOLE, labor);
    Cancel(d, gap, 2 * WHOLE + labor);
  }

  lemma GapExpands(labor: int, m: int, d: int, p: int, even: int, up: int)
    ensures d * (2 * WHOLE * (up - even)) ==
            PERCENT_SCALE * (2 * (100 * d * up - labor * m)) - d * (2 * (WHOLE * even - labor * p))
            - labor * (2 * (d * p - m * PERCENT_SCALE))
  {
    MulDistributes(d, up, even);
    assert d * (WHOLE * even - labor * p) == WHOLE * (d * even) - labor * (d * p);
    assert labor * (d * p - m * PERCENT_SCALE) == labor * (d * p) - PERCENT_SCALE * (labor * m);
  }

  // ----- a warning that is not a refusal, a refusal without a warning -----

  function PercentRow(wid: int, text: string): FormRow {
    FormRow(wid, true, PercentMode, text, "")
  }

  lemma HalfRowTies(wid: int)
    ensures AlikeRow(PercentRow(wid, "50")) && TieRow(1, PercentRow(wid, "50"))
    ensures ClientShare(1, PercentRow(wid, "50")) == 1
  {
    hide ParsePercent, ParseFloat, ClientPercent, Strip, Without, Keep;
    FiftyReads();
    assert AlikePercent("50") by {
      assert AllDigits("50");
      assert ToEnglishDigits("50") == "50" by { DigitsAreClean("50"); CleanStays("50"); }
      AsciiPercentIsAlike("50");
      assert ServerPercent("50").value.scale == 0 by { FiftyIsWhole(); }
      TenThousand();
    }
    RowShares(1, PercentRow(wid, "50"));
    HalfRowShare(wid);
  }

  lemma FiftyIsWhole()
    ensures ServerPercent("50") == Some(Decimal(false, Val("50"), 0))
  {
    hide ParseFloat, Strip, ToEnglishDigits, Without, Val;
    DigitsAreClean("50");
    CleanStays("50");
    WithoutNothing("50", PERCENT_SIGNS);
    ParseFloatOfDigits("50");
  }

  lemma HalfRowShare(wid: int)
    ensures ServerShare(1, PercentRow(wid, "50")) == 0 && TieRow(1, PercentRow(wid, "50"))
    ensures ServerShare(3, PercentRow(wid, "50")) == 2
  {
    hide ParsePercent, ServerShare, ReadableRow;
    FiftyReads();
    RowReading(1, PercentRow(wid, "50"));
    RowReading(3, PercentRow(wid, "50"));
    HalfOfOne();
  }

  lemma TwoRows(labor: nat, a: FormRow, b: FormRow)
    ensures ClientTotal(labor, [a, b]) == ClientShare(labor, a) + ClientShare(labor, b)
    ensures TieRows(labor, [a, b]) == (if TieRow(labor, a) then 1 else 0) + if TieRow(labor, b) then 1 else 0
    ensures ReadableRow(a) && ReadableRow(b) ==>
              && AllReadable(Posted([a, b]))
              && ShareTotal(FillAll(ReadRows(Posted([a, b])), labor)) == ServerShare(labor, a) + ServerShare(labor, b)
  {
    hide ClientShare, ServerShare, TieRow, ReadableRow, AllReadable, ReadRows, FillAll, Posted, ClientTotal, TieRows,
         ShareTotal;
    assert [] + [a] == [a] && [a] + [b] == [a, b];
    NothingPosted(labor);
    OneMoreRow(labor, [], a);
    OneMoreRow(labor, [a], b);
    PostedRow(labor, [], a);
    PostedRow(labor, [a], b);
  }

  /** Two halves of 1: the browser shows 2 and warns, the server stores 0 and 0. */
  lemma TiesWarnWithoutRefusal(laborText: string, form: Form)
    requires AlikeAmount(laborText) && Num(laborText) == 1
    requires form.labor == Some(laborText) && form.workers == Posted([PercentRow(1, "50"), PercentRow(2, "50")])
    requires Strip(OrEmpty(form.name)) != ""
    ensures ClientTotal(1, [PercentRow(1, "50"), PercentRow(2, "50")]) > 1
    ensures Validate(form).Some?
  {
    hide AlikeAmount, AlikeRow, TieRow, ClientShare, Num, Validate, Strip, Posted, ReadableRow, ServerShare, PercentRow,
         TieRows, ClientTotal;
    var a, b := PercentRow(1, "50"), PercentRow(2, "50");
    HalfRowTies(1);
    HalfRowTies(2);
    RowShares(1, a);
    RowShares(1, b);
    TwoRows(1, a, b);
    WarningMeansRefusal(laborText, [a, b], form);
  }

  /**
   Two percents of 60 copied from a page, in Persian digits, on a labour amount of 100: the browser
   shows 0 and does not warn, the server finds 120 and refuses.
   */
  lemma PersianPercentsUnwarned(laborText: string, form: Form)
    requires AlikeAmount(laborText) && Num(laborText) == 100
    requires var t := ToPersianDigits(FormatPercent(600_000));
             form.labor == Some(laborText) && form.workers == Posted([PercentRow(1, t), PercentRow(2, t)])
    ensures var t := ToPersianDigits(FormatPercent(600_000));
            ClientTotal(100, [PercentRow(1, t), PercentRow(2, t)]) == 0
    ensures Validate(form) == None
  {
    hide ToPersianDigits, FormatPercent, ParsePercent, ParseAmount, ClientPercent, Num, Posted, ReadableRow,
         ServerShare, AllReadable, ReadRows, FillAll, TieRow, Strip, ParseDateInput;
    var t := ToPersianDigits(FormatPercent(600_000));
    var a, b := PercentRow(1, t), PercentRow(2, t);
    PastedPercentIsZero(600_000);
    RowReading(100, a);
    RowReading(100, b);
    SixtyOfHundred();
    TwoRows(100, a, b);
  }

  lemma SixtyOfHundred()
    ensures WorkerShare(100, 600_000) == 60 && RoundHalfUp(100 * 0, 100 * Pow10(0)) == 0
  {
    TenThousand();
  }
}
