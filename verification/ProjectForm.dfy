/**
 The project form as `_save_project` reads it (payroll/blueprints/projects.py): every field is text
 a browser sent, and the outcome is either a draft ready to be stored or a refusal.
 */
module ProjectForm {
  import opened Arithmetic
  import opened DateText
  import opened MoneyText
  import opened Rounding
  import opened Shares
  import opened Text

  datatype Mode = PercentMode | FixedMode

  datatype Status = NotStarted | InProgress | Done | Settled

  /** One checked worker: the posted id (None when it is no number) and that worker's fields. */
  datatype WorkerInput = WorkerInput(wid: Option<int>, mode: Option<string>, percent: Option<string>,
                                     amount: Option<string>)

  datatype Form = Form(
    name: Option<string>,
    status: Option<string>,
    labor: Option<string>,
    customerTotal: Option<string>,
    date: Option<string>,
    workers: seq<WorkerInput>)

  /** A row as first read: a fixed row lacks its percent, a percent row its share. */
  datatype Row = Row(wid: int, mode: Mode, percent: Option<int>, share: Option<int>)

  datatype Reading = Skipped | Invalid | Read(row: Row)

  /** A row ready to be stored. */
  datatype Line = Line(wid: int, mode: Mode, percent: int, share: int)

  datatype Draft = Draft(
    name: string,
    status: Status,
    labor: int,
    customerTotal: int,
    dateJalali: Option<string>,
    dateIso: Option<string>,
    lines: seq<Line>)

  function OrEmpty(s: Option<string>): string {
    if s == None then "" else s.value
  }

  function ParseMode(text: Option<string>): Mode {
    if Strip(OrEmpty(text)) == "fixed" then FixedMode else PercentMode
  }

  function ModeCode(mode: Mode): string {
    match mode
    case PercentMode => "percent"
    case FixedMode => "fixed"
  }

  function StatusCode(status: Status): string {
    match status
    case NotStarted => "not_started"
    case InProgress => "in_progress"
    case Done => "done"
    case Settled => "settled"
  }

  function KnownStatus(text: Option<string>): Option<Status> {
    var code := OrEmpty(text);
    if code == "not_started" then Some(NotStarted)
    else if code == "in_progress" then Some(InProgress)
    else if code == "done" then Some(Done)
    else if code == "settled" then Some(Settled)
    else None
  }

  /** Unknown codes fall back to the first status. */
  function ParseStatus(text: Option<string>): Status {
    match KnownStatus(text)
    case None => NotStarted
    case Some(status) => status
  }

  function ReadWorker(w: WorkerInput): Reading {
    if w.wid == None then Skipped
    else if ParseMode(w.mode) == FixedMode then
      var amount := ParseAmount(w.amount);
      if amount == None then Invalid else Read(Row(w.wid.value, FixedMode, None, amount))
    else
      var percent := ParsePercent(w.percent);
      if percent == None then Invalid else Read(Row(w.wid.value, PercentMode, percent, None))
  }

  predicate AllReadable(ws: seq<WorkerInput>) {
    forall i :: 0 <= i < |ws| ==> ReadWorker(ws[i]) != Invalid
  }

  function ReadRows(ws: seq<WorkerInput>): seq<Row> {
    if ws == [] then []
    else
      var last := ReadWorker(ws[|ws| - 1]);
      ReadRows(ws[..|ws| - 1]) + if last.Read? then [last.row] else []
  }

  /** The missing half of a row, once the labour amount is known. */
  function Fill(row: Row, labor: nat): Line {
    match row.mode
    case FixedMode =>
      var share := if row.share == None then 0 else row.share.value;
      Line(row.wid, FixedMode, EquivalentPercent(share, labor), share)
    case PercentMode =>
      var percent := if row.percent == None then 0 else row.percent.value;
      Line(row.wid, PercentMode, percent, WorkerShare(labor, percent))
  }

  function FillAll(rows: seq<Row>, labor: nat): (lines: seq<Line>)
    ensures |lines| == |rows| && forall i :: 0 <= i < |rows| ==> lines[i] == Fill(rows[i], labor)
  {
    seq(|rows|, i requires 0 <= i < |rows| => Fill(rows[i], labor))
  }

  function ShareTotal(lines: seq<Line>): int {
    if lines == [] then 0 else ShareTotal(lines[..|lines| - 1]) + lines[|lines| - 1].share
  }

  /** None when any of the form's errors is raised, otherwise what will be stored. */
  function Validate(form: Form): Option<Draft> {
    var name := Strip(OrEmpty(form.name));
    var labor := ParseAmount(form.labor);
    if name == "" || labor == None || !AllReadable(form.workers) then None
    else
      var lines := FillAll(ReadRows(form.workers), labor.value);
      if ShareTotal(lines) > labor.value then None
      else
        var total := ParseAmount(form.customerTotal);
        var date := ParseDateInput(form.date);
        Some(Draft(name, ParseStatus(form.status), labor.value,
                   if total == None then labor.value else total.value, date.0, date.1, lines))
  }

  // ----- what a draft guarantees -----

  /** A stored row agrees with its project's labour amount, the way its mode says. */
  predicate SoundLine(line: Line, labor: nat) {
    && 0 <= line.share
    && 0 <= line.percent <= WHOLE
    && match line.mode
       case PercentMode => line.share == WorkerShare(labor, line.percent)
       case FixedMode => line.percent == EquivalentPercent(line.share, labor)
  }

  predicate SoundDraft(d: Draft) {
    && d.name != "" && d.name == Strip(d.name)
    && d.labor >= 0 && d.customerTotal >= 0
    && ShareTotal(d.lines) <= d.labor
    && (forall i :: 0 <= i < |d.lines| ==> SoundLine(d.lines[i], d.labor))
    && ParseDateInput(d.dateJalali) == (d.dateJalali, d.dateIso)
  }

  lemma {:induction false} RowsAreReadings(ws: seq<WorkerInput>, row: Row)
    requires row in ReadRows(ws)
    ensures exists i :: 0 <= i < |ws| && ReadWorker(ws[i]) == Read(row)
  {
    var n := |ws| - 1;
    if row in ReadRows(ws[..n]) {
      RowsAreReadings(ws[..n], row);
      var i :| 0 <= i < n && ReadWorker(ws[..n][i]) == Read(row);
      assert ws[i] == ws[..n][i];
    } else {
      assert ReadWorker(ws[n]) == Read(row);
    }
  }

  /** No single share can exceed a total of shares none of which is negative. */
  lemma {:induction false} ShareWithinTotal(lines: seq<Line>, k: nat)
    requires k < |lines| && forall i :: 0 <= i < |lines| ==> lines[i].share >= 0
    ensures 0 <= lines[k].share <= ShareTotal(lines)
  {
    var n := |lines| - 1;
    if k < n {
      ShareWithinTotal(lines[..n], k);
    } else if n > 0 {
      ShareWithinTotal(lines[..n], 0);
    }
  }

  lemma FilledShare(w: WorkerInput, labor: nat)
    requires ReadWorker(w).Read?
    ensures Fill(ReadWorker(w).row, labor).share >= 0
    ensures ReadWorker(w).row.mode == PercentMode ==> SoundLine(Fill(ReadWorker(w).row, labor), labor)
  {
    if ParseMode(w.mode) == PercentMode {
      PercentRange(w.percent);
      ShareWithinLabor(labor, ParsePercent(w.percent).value);
    }
  }

  lemma PercentRange(text: Option<string>)
    requires ParsePercent(text).Some?
    ensures 0 <= ParsePercent(text).value <= WHOLE
  {
    PercentAtMostWhole(ParseFloat(Without(Strip(ToEnglishDigits(text.value)), PERCENT_SIGNS)).value);
  }

  lemma LinesAreSound(ws: seq<WorkerInput>, labor: nat)
    requires ShareTotal(FillAll(ReadRows(ws), labor)) <= labor
    ensures var lines := FillAll(ReadRows(ws), labor);
            forall i :: 0 <= i < |lines| ==> SoundLine(lines[i], labor)
  {
    hide ReadRows, ParseMode, WorkerShare, EquivalentPercent, ReadWorker;
    var rows := ReadRows(ws);
    var lines := FillAll(rows, labor);
    forall i | 0 <= i < |lines|
      ensures lines[i].share >= 0 && (rows[i].mode == PercentMode ==> SoundLine(lines[i], labor))
    {
      RowsAreReadings(ws, rows[i]);
      var k :| 0 <= k < |ws| && ReadWorker(ws[k]) == Read(rows[i]);
      FilledShare(ws[k], labor);
    }
    forall i | 0 <= i < |lines| ensures SoundLine(lines[i], labor) {
      ShareWithinTotal(lines, i);
      EquivalentPercentInRange(lines[i].share, labor);
    }
  }

  lemma StoredDateIsStable(text: Option<string>)
    ensures var d := ParseDateInput(text); ParseDateInput(d.0) == d
  {
    if NormalizeJalali(text).Some? { NormalizeIdempotent(text); }
  }

  /** Everything the form can make the server store keeps the ledger's rules. */
  lemma DraftIsSound(form: Form)
    requires Validate(form).Some?
    ensures SoundDraft(Validate(form).value)
  {
    hide Strip, ParseAmount, ParseDateInput, SoundLine, AllReadable;
    StripIdempotent(OrEmpty(form.name));
    StoredDateIsStable(form.date);
    LinesAreSound(form.workers, ParseAmount(form.labor).value);
  }

  /**
   The two halves of every stored row belong together: the share of a percent row is nearest to its part
   of the labour amount, the percent of a fixed row nearest to the part its share is.
   */
  lemma StoredHalvesAgree(form: Form, i: nat)
    requires Validate(form).Some? && i < |Validate(form).value.lines|
    ensures var d := Validate(form).value;
            var l := d.lines[i];
            && d.labor >= 0 && 0 <= l.share <= d.labor
            && (l.mode == PercentMode ==> -WHOLE <= 2 * (WHOLE * l.share - d.labor * l.percent) <= WHOLE)
            && (l.mode == FixedMode && d.labor > 0 ==>
                  -d.labor <= 2 * (d.labor * l.percent - l.share * WHOLE) <= d.labor)
            && (l.mode == FixedMode && d.labor == 0 ==> l.percent == 0 && l.share == 0)
  {
    hide Validate, RoundHalfEven, EquivalentPercent, ShareTotal, ParseDateInput, Strip;
    DraftIsSound(form);
    var d := Validate(form).value;
    var l := d.lines[i];
    ShareWithinTotal(d.lines, i);
    EquivalentPercentIsNearest(l.share, d.labor);
    RoundsToNearest(d.labor * l.percent, WHOLE);
  }

  // ----- what is stored is what was posted -----

  /** The mode is fixed exactly when the posted code is "fixed", blanks around it left out. */
  lemma ModeMeans(text: Option<string>)
    ensures ParseMode(text) == FixedMode <==>
            exists a, b :: AllBlank(a) && AllBlank(b) && OrEmpty(text) == a + "fixed" + b
  {
    hide Strip, BLANKS, AllBlank;
    var t := OrEmpty(text);
    if ParseMode(text) == FixedMode {
      var a, b := StripSplits(t);
    }
    if a, b :| AllBlank(a) && AllBlank(b) && t == a + "fixed" + b {
      assert 'f' !in BLANKS && 'd' !in BLANKS by { BlankTable('f'); BlankTable('d'); }
      StripOf(a, "fixed", b);
    }
  }

  /** The four status codes, each standing for its own status, and no others. */
  lemma StatusCodes(text: Option<string>)
    ensures KnownStatus(Some("not_started")) == Some(NotStarted) && KnownStatus(Some("in_progress")) == Some(InProgress)
    ensures KnownStatus(Some("done")) == Some(Done) && KnownStatus(Some("settled")) == Some(Settled)
    ensures forall s: Status :: KnownStatus(Some(StatusCode(s))) == Some(s)
    ensures KnownStatus(text).Some? ==> text == Some(StatusCode(KnownStatus(text).value))
  {
  }

  /** The input of a worker and the line stored for it. */
  predicate StoredAs(w: WorkerInput, l: Line) {
    && w.wid == Some(l.wid) && ParseMode(w.mode) == l.mode
    && if l.mode == FixedMode then ParseAmount(w.amount) == Some(l.share)
       else ParsePercent(w.percent) == Some(l.percent)
  }

  lemma ReadIsStored(w: WorkerInput, labor: nat)
    requires ReadWorker(w).Read?
    ensures StoredAs(w, Fill(ReadWorker(w).row, labor))
  {
    hide ParseAmount, ParsePercent, ParseMode, WorkerShare, EquivalentPercent;
  }

  function Named(ws: seq<WorkerInput>): seq<WorkerInput> {
    if ws == [] then []
    else Named(ws[..|ws| - 1]) + if ws[|ws| - 1].wid.Some? then [ws[|ws| - 1]] else []
  }

  /** One line for each posted row that names a worker, in the same order, with what was typed. */
  lemma {:induction false} LinesHoldInputs(ws: seq<WorkerInput>, labor: nat)
    requires AllReadable(ws)
    ensures var lines := FillAll(ReadRows(ws), labor);
            |lines| == |Named(ws)| && forall i :: 0 <= i < |lines| ==> StoredAs(Named(ws)[i], lines[i])
  {
    hide ReadWorker, Fill, StoredAs, ReadRows, FillAll, AllReadable;
    if ws == [] {
      NoRows();
      assert FillAll([], labor) == [] by { NothingToFill(labor); }
    } else {
      var front, w := ws[..|ws| - 1], ws[|ws| - 1];
      assert ws == front + [w];
      ReadableAppend(front, w);
      LinesHoldInputs(front, labor);
      NamedIsRead(w);
      if w.wid.Some? {
        ReadRowsAppend(front, w, labor);
        ReadIsStored(w, labor);
      } else {
        SkippedRow(front, w);
      }
    }
  }

  /** Rows that name no worker are skipped, whatever else is in them: they change neither verdict nor draft. */
  lemma NamelessRowsIgnored(form: Form)
    ensures Validate(form) == Validate(form.(workers := Named(form.workers)))
  {
    hide AllReadable, ReadRows, FillAll, ParseAmount, ParseDateInput, Strip, Named;
    NamelessRows(form.workers);
  }

  lemma {:induction false} NamelessRows(ws: seq<WorkerInput>)
    ensures AllReadable(ws) <==> AllReadable(Named(ws))
    ensures ReadRows(ws) == ReadRows(Named(ws))
  {
    hide ReadWorker, AllReadable;
    if ws != [] {
      var front, w := ws[..|ws| - 1], ws[|ws| - 1];
      assert ws == front + [w];
      NamelessRows(front);
      ReadableAppend(front, w);
      if w.wid.Some? {
        ReadableAppend(Named(front), w);
        assert (Named(front) + [w])[..|Named(front)|] == Named(front);
      } else {
        SkippedExactly(w);
        SkippedRow(front, w);
        assert Named(ws) == Named(front);
      }
    }
  }

  lemma SkippedExactly(w: WorkerInput)
    ensures ReadWorker(w) == Skipped <==> w.wid == None
  {
  }

  lemma NothingToFill(labor: nat)
    ensures FillAll([], labor) == []
  {
  }

  lemma NamedIsRead(w: WorkerInput)
    requires ReadWorker(w) != Invalid
    ensures if w.wid.Some? then ReadWorker(w).Read? else ReadWorker(w) == Skipped
  {
    hide ParseAmount, ParsePercent, ParseMode;
  }

  lemma SkippedRow(ws: seq<WorkerInput>, w: WorkerInput)
    requires ReadWorker(w) == Skipped
    ensures ReadRows(ws + [w]) == ReadRows(ws)
  {
    assert (ws + [w])[..|ws|] == ws;
  }

  /**
   An accepted form is stored as it was typed: the name without blanks around it, both amounts (the labour
   amount for a blank total), both forms of the date, the status or the first one, and the rows.
   */
  lemma DraftHoldsForm(form: Form)
    requires Validate(form).Some?
    ensures var d := Validate(form).value;
            && (exists a, b :: AllBlank(a) && AllBlank(b) && OrEmpty(form.name) == a + d.name + b) && d.name != ""
            && ParseAmount(form.labor) == Some(d.labor)
            && d.customerTotal == (if ParseAmount(form.customerTotal).Some? then ParseAmount(form.customerTotal).value
                                   else d.labor)
            && ParseDateInput(form.date) == (d.dateJalali, d.dateIso)
            && (if form.status == Some(StatusCode(d.status)) then true
                else d.status == NotStarted && KnownStatus(form.status) == None)
            && AllReadable(form.workers) && |d.lines| == |Named(form.workers)|
            && (forall i :: 0 <= i < |d.lines| ==> StoredAs(Named(form.workers)[i], d.lines[i]))
  {
    hide ParseAmount, ParseDateInput, Strip, AllReadable, ReadRows, FillAll, StoredAs, KnownStatus, StatusCode, BLANKS,
         AllBlank, Named;
    var a, b := StripSplits(OrEmpty(form.name));
    StatusCodes(form.status);
    LinesHoldInputs(form.workers, ParseAmount(form.labor).value);
  }

  // ----- how far rounding can carry a split -----

  /** The percents and the fixed amounts that the rows ask for, mode by mode. */
  function PercentTotal(lines: seq<Line>): int {
    if lines == [] then 0
    else
      var last := lines[|lines| - 1];
      PercentTotal(lines[..|lines| - 1]) + if last.mode == PercentMode then last.percent else 0
  }

  function FixedTotal(lines: seq<Line>): int {
    if lines == [] then 0
    else
      var last := lines[|lines| - 1];
      FixedTotal(lines[..|lines| - 1]) + if last.mode == FixedMode then last.share else 0
  }

  function PercentRows(lines: seq<Line>): nat {
    if lines == [] then 0
    else PercentRows(lines[..|lines| - 1]) + if lines[|lines| - 1].mode == PercentMode then 1 else 0
  }

  /** What the rows ask for beyond the labour amount, exactly, in millionths. */
  function Excess(lines: seq<Line>, labor: int): int {
    labor * PercentTotal(lines) + WHOLE * FixedTotal(lines) - WHOLE * labor
  }

  /** The rounded total lies within half a unit for each percent row of what the rows ask for. */
  lemma {:induction false} MixedSplitBound(lines: seq<Line>, labor: nat)
    requires forall i :: 0 <= i < |lines| && lines[i].mode == PercentMode ==>
               lines[i].share == WorkerShare(labor, lines[i].percent)
    ensures -(PercentRows(lines) * WHOLE) <= 2 * (WHOLE * (ShareTotal(lines) - labor) - Excess(lines, labor))
    ensures 2 * (WHOLE * (ShareTotal(lines) - labor) - Excess(lines, labor)) <= PercentRows(lines) * WHOLE
  {
    hide RoundHalfEven;
    if lines != [] {
      var front, last := lines[..|lines| - 1], lines[|lines| - 1];
      MixedSplitBound(front, labor);
      if last.mode == PercentMode {
        RoundsToNearest(labor * last.percent, WHOLE);
        MulDistributes(labor, PercentTotal(front), last.percent);
      }
    }
  }

  lemma ReadableAppend(ws: seq<WorkerInput>, w: WorkerInput)
    ensures AllReadable(ws + [w]) <==> AllReadable(ws) && ReadWorker(w) != Invalid
  {
    hide ReadWorker;
    assert forall i :: 0 <= i < |ws| ==> (ws + [w])[i] == ws[i];
    assert (ws + [w])[|ws|] == w;
  }

  lemma ReadRowsAppend(ws: seq<WorkerInput>, w: WorkerInput, labor: nat)
    requires ReadWorker(w).Read?
    ensures FillAll(ReadRows(ws + [w]), labor) == FillAll(ReadRows(ws), labor) + [Fill(ReadWorker(w).row, labor)]
  {
    hide ReadWorker, Fill;
    assert (ws + [w])[..|ws|] == ws;
  }

  /** A form the server accepts asks for more than the labour amount by at most half a unit for each percent row. */
  lemma AcceptedFormSplit(form: Form)
    requires Validate(form).Some?
    ensures var d := Validate(form).value;
            2 * Excess(d.lines, d.labor) <= PercentRows(d.lines) * WHOLE
  {
    hide Validate, Excess, PercentRows, SoundLine;
    DraftIsSound(form);
    var d := Validate(form).value;
    assert forall i :: 0 <= i < |d.lines| && d.lines[i].mode == PercentMode ==>
        d.lines[i].share == WorkerShare(d.labor, d.lines[i].percent) by { SoundPercentRows(d); }
    MixedSplitBound(d.lines, d.labor);
  }

  lemma SoundPercentRows(d: Draft)
    requires SoundDraft(d)
    ensures forall i :: 0 <= i < |d.lines| && d.lines[i].mode == PercentMode ==>
              d.lines[i].share == WorkerShare(d.labor, d.lines[i].percent)
  {
    hide WorkerShare, EquivalentPercent, ParseDateInput, Strip;
  }

  /**
   A readable form is accepted if what it asks for, and half a unit more for each percent row, stays
   below the labour amount plus one: rounding then cannot lift the total past it.
   */
  lemma ModestFormAccepted(form: Form)
    requires Strip(OrEmpty(form.name)) != "" && ParseAmount(form.labor).Some? && AllReadable(form.workers)
    requires var labor := ParseAmount(form.labor).value;
             var lines := FillAll(ReadRows(form.workers), labor);
             2 * Excess(lines, labor) + PercentRows(lines) * WHOLE < 2 * WHOLE
    ensures Validate(form).Some?
  {
    hide Strip, ParseAmount, ParseDateInput, AllReadable, Excess, PercentRows, ReadRows, OrEmpty, ParseStatus;
    var labor := ParseAmount(form.labor).value;
    MixedSplitBound(FillAll(ReadRows(form.workers), labor), labor);
  }

  // ----- both bounds are attained -----

  function HalfInput(wid: int): WorkerInput {
    WorkerInput(Some(wid), Some("percent"), Some("50"), None)
  }

  /** A fixed share of 1 and n halves. */
  function CrowdedRows(n: nat): seq<WorkerInput> {
    if n == 0 then [WorkerInput(Some(0), Some("fixed"), None, Some("1"))]
    else CrowdedRows(n - 1) + [HalfInput(n)]
  }

  function CrowdedForm(n: nat): Form {
    Form(Some("a"), None, Some("1"), None, None, CrowdedRows(n))
  }

  lemma StripShort()
    ensures Strip("a") == "a"
  {
  }

  lemma HalfRowReads(wid: int, labor: nat)
    ensures ReadWorker(HalfInput(wid)).Read?
    ensures Fill(ReadWorker(HalfInput(wid)).row, labor) ==
            Line(wid, PercentMode, 500_000, WorkerShare(labor, 500_000))
  {
    hide ParsePercent, WorkerShare;
    CleanStays("percent");
    FiftyReads();
  }

  lemma FixedRowReads()
    ensures var reading := ReadWorker(CrowdedRows(0)[0]);
            reading.Read? && Fill(reading.row, 1) == Line(0, FixedMode, EquivalentPercent(1, 1), 1)
  {
    hide ParseAmount, EquivalentPercent;
    CleanStays("fixed");
    SmallAmounts();
  }

  lemma {:induction false} CrowdedLines(n: nat)
    ensures AllReadable(CrowdedRows(n))
    ensures var lines := FillAll(ReadRows(CrowdedRows(n)), 1);
            && ShareTotal(lines) == 1 && PercentRows(lines) == n
            && PercentTotal(lines) == n * 500_000 && FixedTotal(lines) == 1
  {
    hide ReadWorker, Fill, WorkerShare, EquivalentPercent, AllReadable, ReadRows, FillAll, HalfInput;
    if n == 0 {
      NoRows();
      var w := CrowdedRows(0)[0];
      FixedRowReads();
      ReadableAppend([], w);
      ReadRowsAppend([], w, 1);
      assert [] + [w] == CrowdedRows(0);
      LineAdded([], Line(0, FixedMode, EquivalentPercent(1, 1), 1));
    } else {
      var rows, w := CrowdedRows(n - 1), HalfInput(n);
      CrowdedLines(n - 1);
      HalfRowReads(n, 1);
      HalfOfOne();
      ReadableAppend(rows, w);
      ReadRowsAppend(rows, w, 1);
      LineAdded(FillAll(ReadRows(rows), 1), Line(n, PercentMode, 500_000, 0));
    }
  }

  lemma NoRows()
    ensures AllReadable([]) && ReadRows([]) == [] && FillAll([], 1) == []
  {
  }

  lemma HalfOfOne()
    ensures WorkerShare(1, 500_000) == 0 && WorkerShare(3, 500_000) == 2
  {
  }

  lemma LineAdded(lines: seq<Line>, line: Line)
    ensures ShareTotal(lines + [line]) == ShareTotal(lines) + line.share
    ensures PercentTotal(lines + [line]) == PercentTotal(lines) + if line.mode == PercentMode then line.percent else 0
    ensures FixedTotal(lines + [line]) == FixedTotal(lines) + if line.mode == FixedMode then line.share else 0
    ensures PercentRows(lines + [line]) == PercentRows(lines) + if line.mode == PercentMode then 1 else 0
  {
    assert (lines + [line])[..|lines|] == lines;
  }

  /** For every number of percent rows there is an accepted form that asks for half a unit too much for each. */
  lemma AcceptedExcessAttained(n: nat)
    ensures Validate(CrowdedForm(n)).Some?
    ensures var d := Validate(CrowdedForm(n)).value;
            d.labor == 1 && PercentRows(d.lines) == n && 2 * Excess(d.lines, d.labor) == n * WHOLE
  {
    hide ParseAmount, ParseDateInput, AllReadable, ReadRows, CrowdedRows, ParseStatus, FillAll;
    SmallAmounts();
    CrowdedLines(n);
    assert Strip("a") == "a";
  }

  function HalvesForm(): Form {
    Form(Some("a"), None, Some("3"), None, None, [HalfInput(1), HalfInput(2)])
  }

  /**
   Two halves of 3 ask for exactly the labour amount and are refused, 2 and 2 being more: the margin of
   `ModestFormAccepted` cannot be widened.
   */
  lemma ExactFormRefused()
    ensures ParseAmount(HalvesForm().labor) == Some(3) && AllReadable(HalvesForm().workers)
    ensures var lines := FillAll(ReadRows(HalvesForm().workers), 3);
            Excess(lines, 3) == 0 && 2 * Excess(lines, 3) + PercentRows(lines) * WHOLE == 2 * WHOLE
    ensures Validate(HalvesForm()) == None
  {
    hide ParseAmount, ParseDateInput, ReadWorker, Fill, Strip, ParseStatus, WorkerShare;
    var one, two := HalfInput(1), HalfInput(2);
    SmallAmounts();
    HalfRowReads(1, 3);
    HalfRowReads(2, 3);
    HalfOfOne();
    ReadableAppend([], one);
    ReadableAppend([one], two);
    ReadRowsAppend([], one, 3);
    ReadRowsAppend([one], two, 3);
    assert [] + [one] == [one] && [one] + [two] == [one, two];
    LineAdded([], Line(1, PercentMode, 500_000, 2));
    LineAdded([] + [Line(1, PercentMode, 500_000, 2)], Line(2, PercentMode, 500_000, 2));
  }
}
