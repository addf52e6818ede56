/**
 Short runs of requests, with texts as a user types them, that reach the failing side of the
 equivalences about balances and reports.
 */
module Scenarios {
  import opened Balances
  import opened Calendar
  import opened DateText
  import opened Ledger
  import opened LedgerInvariant
  import opened MoneyText
  import opened PaymentForm
  import opened ProjectForm
  import opened Reports
  import opened Shares
  import opened Text

  // ----- the requests -----

  function Hire(): Request {
    CreateWorker(Some("a"), None, true)
  }

  /** A project of labour 5, all of it a fixed share of worker 1. */
  function JobForm(): Form {
    Form(Some("a"), None, Some("5"), None, None, [WorkerInput(Some(1), Some("fixed"), None, Some("5"))])
  }

  function Job(): Request {
    CreateProject(JobForm())
  }

  /** A payment of 5, confirmed, on no project. */
  function Advance(): Request {
    CreatePayment(Id(1), Absent, Some("5"), true)
  }

  // ----- the ledgers they lead to -----

  function Hired(): DB {
    EMPTY.(workers := [Worker(1, "a", 0, true)], next := Counters(2, 1, 1, 1, 1))
  }

  function Worked(): DB {
    Hired().(projects := [Project(1, "a", 5, 5, None, None, NotStarted)],
             shares := [Share(1, 1, FixedMode, EquivalentPercent(5, 5), 5)], next := Counters(2, 2, 1, 1, 1))
  }

  function Settled(): DB {
    Worked().(payments := [Payment(1, 1, None, 5)], next := Counters(2, 2, 2, 1, 1))
  }

  lemma HireStep()
    ensures Step(EMPTY, Hire()).db == Hired()
  {
    hide ParsePercent;
    ZeroReads();
    StripShort();
  }

  lemma JobDraft()
    ensures Validate(JobForm()) ==
            Some(Draft("a", NotStarted, 5, 5, None, None, [Line(1, FixedMode, EquivalentPercent(5, 5), 5)]))
  {
    hide ParseAmount, ReadWorker, Fill, Strip, AllReadable, ReadRows, FillAll, EquivalentPercent;
    var w, line := JobForm().workers[0], Line(1, FixedMode, EquivalentPercent(5, 5), 5);
    SmallAmounts();
    JobRow(w);
    NoRows();
    ReadableAppend([], w);
    ReadRowsAppend([], w, 5);
    assert [] + [w] == [w] && [] + [line] == [line];
    assert FillAll(ReadRows([]), 5) == [];
    LineAdded([], line);
    StripShort();
    NoAmount();
  }

  lemma JobRow(w: WorkerInput)
    requires w == WorkerInput(Some(1), Some("fixed"), None, Some("5"))
    ensures ReadWorker(w).Read? && Fill(ReadWorker(w).row, 5) == Line(1, FixedMode, EquivalentPercent(5, 5), 5)
  {
    hide ParseAmount, EquivalentPercent;
    CleanStays("fixed");
    SmallAmounts();
  }

  lemma JobStep()
    ensures Step(Hired(), Job()).db == Worked()
  {
    hide Validate, EquivalentPercent;
    JobDraft();
    var lines := [Line(1, FixedMode, EquivalentPercent(5, 5), 5)];
    assert lines[..0] == [];
    assert WorkerIds(Hired().workers) == [1];
    assert InsertLines([1], [], 1, lines) == Some([] + [LineShare(1)(lines[0])]);
  }

  lemma SettleStep()
    ensures Balance(Worked(), 1) == 5 && ShareOf(Worked(), 1, 1) == 5
    ensures Step(Worked(), SettleAll(1)).db == Settled()
  {
    hide EquivalentPercent;
    var shares := Worked().shares;
    assert shares[..0] == [];
    assert WorkerIds(Worked().workers) == [1];
  }

  // ----- balances below zero -----

  /** A confirmed payment to a worker who has earned nothing. */
  lemma AdvanceOverdraws()
    ensures Balance(Run(EMPTY, [Hire(), Advance()]), 1) == -5
  {
    hide ParseAmount, Hire, Step;
    HireStep();
    SmallAmounts();
    assert [Hire(), Advance()][..1] == [Hire()] && [Hire()][..0] == [];
    AdvanceStep();
  }

  lemma AdvanceStep()
    ensures Balance(Step(Hired(), Advance()).db, 1) == -5
  {
    hide ParseAmount;
    SmallAmounts();
    assert WorkerIds(Hired().workers) == [1];
    var payments := [Payment(1, 1, None, 5)];
    assert payments[..0] == [] && [] + payments == payments;
  }

  /** Nothing is confirmed here: the worker is settled, then the settled project is deleted. */
  lemma DeletionOverdraws()
    ensures Run(EMPTY, [Hire(), Job(), SettleAll(1)]) == Settled() && Balance(Settled(), 1) == 0
    ensures Balance(Run(EMPTY, [Hire(), Job(), SettleAll(1), DeleteProject(1)]), 1) == -5
  {
    hide Step, Hire, Job, Hired, Worked, Settled, Balance, Inv, ShareOf;
    HireStep();
    JobStep();
    SettleStep();
    var reqs := [Hire(), Job(), SettleAll(1), DeleteProject(1)];
    assert reqs[..3] == [Hire(), Job(), SettleAll(1)] && reqs[..3][..2] == [Hire(), Job()];
    assert [Hire(), Job()][..1] == [Hire()] && [Hire()][..0] == [];
    assert Run(EMPTY, [Hire()]) == Hired();
    assert Run(EMPTY, [Hire(), Job()]) == Worked();
    assert Run(EMPTY, reqs[..3]) == Settled();
    assert Run(EMPTY, reqs) == Step(Settled(), DeleteProject(1)).db;
    ReachableLedgersAreGood([Hire(), Job()]);
    ReachableLedgersAreGood(reqs[..3]);
    SettleAllSettles(Worked(), 1, 1);
    SettledShare();
    DeleteProjectEffect(Settled(), 1, 1);
  }

  lemma SettledShare()
    ensures ShareOf(Settled(), 1, 1) == ShareOf(Worked(), 1, 1)
  {
  }

  // ----- a payment refused without a question -----

  lemma SettledPages()
    ensures ProjectBalance(Settled(), 1, 1) == 5 && Balance(Settled(), 1) == 0
    ensures PageExists(Settled(), OfProject(1), 1)
  {
    hide EquivalentPercent;
    assert Settled().shares[..0] == [] && Settled().payments[..0] == [];
    assert WorkerIds(Settled().workers) == [1] && ProjectIds(Settled().projects) == [1];
  }

  lemma FiveTyped()
    ensures Num("5") == 5
  {
    hide Keep;
    KeepDigits("5");
    FiveMeans();
  }

  lemma FiveMeans()
    ensures Val("5") == 5
  {
    ValSnoc("", '5');
    assert "" + ['5'] == "5";
  }

  /**
   The settling payment is on no project, so the project's page still shows 5: the browser posts 5
   unasked and the server refuses it.
   */
  lemma SettledWorkerAskedNothing()
    ensures Submitted(Settled(), OfProject(1), 1, Fmt("5"), true) ==
            Some(PostedPayment(OfProject(1), 1, Fmt("5"), false))
    ensures Step(Settled(), PostedPayment(OfProject(1), 1, Fmt("5"), false)).outcome == Refused
  {
    hide Settled, Fmt, Step, ProjectBalance, Balance, PageExists, Num;
    SettledPages();
    FiveTyped();
    PostedVerdict(Settled(), OfProject(1), 1, "5", false);
  }

  // ----- a bound that is none -----

  /** A report "from 9999/01/01" covers every project, also those dated long before. */
  lemma DistantBoundSelectsAll(p: Project)
    requires GoodProject(p)
    ensures InRange(RangeOfInput(Some(JalaliText(Date(9999, 1, 1))), None), p.dateIso)
  {
    hide JalaliText, ReadJalali, GoodProject, ParseDateInput;
    DistantDay();
    RangeSelectsJalaliDays(p, Some(JalaliText(Date(9999, 1, 1))), None);
  }
}
