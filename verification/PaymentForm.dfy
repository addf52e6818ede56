/**
 The payment forms of the pages (templates/settlement/detail.html and templates/projects/detail.html):
 the browser asks before it posts an amount above the balance on the page (static/js/app.js), the
 server compares with the worker's whole balance. On a project's page the two balances differ.
 */
module PaymentForm {
  import opened Balances
  import opened Ledger
  import opened LedgerInvariant
  import opened MoneyText
  import opened Queries
  import opened Tables
  import opened Text

  // ----- the balance on a project's page -----

  function PaymentPair(p: Payment): (Option<int>, int) { (p.project, p.worker) }

  /** What a worker was paid on a project, or on none. */
  function PaidOn(db: DB, project: Option<int>, worker: int): int {
    SumOf(db.payments, PaymentPair, PaymentAmount, (project, worker))
  }

  function ProjectBalance(db: DB, project: int, worker: int): int {
    ShareOf(db, project, worker) - PaidOn(db, Some(project), worker)
  }

  function ShareOn(db: DB, worker: int): Project -> int { (p: Project) => ShareOf(db, p.id, worker) }
  function PaidFor(db: DB, worker: int): Project -> int { (p: Project) => PaidOn(db, Some(p.id), worker) }
  function ProjectBalanceOf(db: DB, worker: int): Project -> int { (p: Project) => ProjectBalance(db, p.id, worker) }
  function SharedBy(worker: int): Share -> bool { (s: Share) => s.worker == worker }
  function PaidToOnly(worker: int): Payment -> bool { (p: Payment) => p.worker == worker }

  lemma EarnedByProject(db: DB, worker: int)
    requires Inv(db)
    ensures Total(db.projects, ShareOn(db, worker)) == Earned(db, worker)
  {
    hide GoodSplits, GoodRows, GoodPayments, GoodExpenses, GoodReceipts, SumOf;
    var mine := Where(db.shares, SharedBy(worker));
    WhereMembers(db.shares, SharedBy(worker));
    forall p | p in db.projects ensures ShareOn(db, worker)(p) == SumOf(mine, ShareProject, ShareAmount, p.id) {
      PairSum(db.shares, SharePair, ShareProject, ShareAmount, p.id, worker, SharedBy(worker));
    }
    PerRowSums(db.projects, ProjectId, ShareOn(db, worker), mine, ShareProject, ShareAmount);
    SumOfIsTotal(db.shares, ShareWorker, ShareAmount, worker, SharedBy(worker));
  }

  lemma PaidByProjectOrNone(db: DB, worker: int)
    requires Inv(db)
    ensures Total(db.projects, PaidFor(db, worker)) + PaidOn(db, None, worker) == Paid(db, worker)
  {
    hide GoodSplits, GoodRows, GoodShares, GoodExpenses, GoodReceipts, SumOf, SumOver;
    var mine := Where(db.payments, PaidToOnly(worker));
    var some := Each(db.projects, ProjectKey);
    WhereMembers(db.payments, PaidToOnly(worker));
    ProjectKeys(db);
    forall k ensures PaidOn(db, k, worker) == SumOf(mine, PaymentProject, PaymentAmount, k) {
      PairSum(db.payments, PaymentPair, PaymentProject, PaymentAmount, k, worker, PaidToOnly(worker));
    }
    TotalIsSumOver(db.projects, ProjectKey, PaidFor(db, worker), mine, PaymentProject, PaymentAmount);
    SumOverCons(mine, PaymentProject, PaymentAmount, None, some);
    SumExchange(mine, PaymentProject, PaymentAmount, [None] + some);
    SumOfIsTotal(db.payments, PaymentWorker, PaymentAmount, worker, PaidToOnly(worker));
  }

  /** A worker's balance is the sum of the balances on the project pages, less the payments on no project. */
  lemma BalanceByProject(db: DB, worker: int)
    requires Inv(db)
    ensures Balance(db, worker) == Total(db.projects, ProjectBalanceOf(db, worker)) - PaidOn(db, None, worker)
  {
    hide Inv, Earned, Paid, PaidOn, ShareOf;
    EarnedByProject(db, worker);
    PaidByProjectOrNone(db, worker);
    TotalDifference(db.projects, ShareOn(db, worker), PaidFor(db, worker), ProjectBalanceOf(db, worker));
  }

  // ----- asking before posting -----

  datatype Page = OfWorker | OfProject(project: int)

  /** `data-balance` of the form. */
  function Shown(db: DB, page: Page, worker: int): int {
    if page.OfProject? then ProjectBalance(db, page.project, worker) else Balance(db, worker)
  }

  /** The browser asks when the number in the field exceeds the balance on the page. */
  predicate Asks(shown: int, field: string) {
    Num(field) > shown
  }

  function PostedProject(page: Page): PostedId {
    if page.OfProject? then Id(page.project) else Absent
  }

  function PostedPayment(page: Page, worker: int, field: string, confirmed: bool): Request {
    CreatePayment(Id(worker), PostedProject(page), Some(field), confirmed)
  }

  /** What is posted when the user answers `ok` if asked: nothing after a no, a confirmation after a yes. */
  function Submitted(db: DB, page: Page, worker: int, field: string, ok: bool): Option<Request> {
    var asks := Asks(Shown(db, page, worker), field);
    if asks && !ok then None else Some(PostedPayment(page, worker, field, asks))
  }

  predicate PageExists(db: DB, page: Page, worker: int) {
    worker in WorkerIds(db.workers) && (page.OfProject? ==> page.project in ProjectIds(db.projects))
  }

  /** The server's verdict on a positive amount from one of the pages, whatever was typed. */
  lemma PostedVerdict(db: DB, page: Page, worker: int, raw: string, confirmed: bool)
    requires PageExists(db, page, worker) && Num(raw) > 0
    ensures var req := PostedPayment(page, worker, Fmt(raw), confirmed);
            && Step(db, req).outcome == (if Num(raw) > Balance(db, worker) && !confirmed then Refused else Accepted)
            && (Overpays(db, req) <==> confirmed && Num(raw) > Balance(db, worker))
    ensures Num(Fmt(raw)) == Num(raw)
  {
    hide ParseAmount, Balance, WorkerIds, ProjectIds, Fmt, Val;
    FieldReadsAsNumber(raw);
    FmtKeepsNumber(raw);
    if Digits(raw) == "" { NothingTyped(raw); }
  }

  lemma NothingTyped(raw: string)
    requires Digits(raw) == ""
    ensures Num(raw) == 0
  {
  }

  /** An amount of nothing is refused, asked about or not. */
  lemma NothingIsRefused(db: DB, page: Page, worker: int, raw: string, confirmed: bool)
    requires Num(raw) == 0
    ensures Step(db, PostedPayment(page, worker, Fmt(raw), confirmed)).outcome == Refused
  {
    hide ParseAmount, Balance, Fmt, Val, AddPayment;
    FieldReadsAsNumber(raw);
  }

  /**
   The browser asks exactly when the server would refuse without a confirmation, unless the amount lies
   above one of the two balances and not above the other.
   */
  lemma PromptAgreesExactly(db: DB, page: Page, worker: int, raw: string)
    requires PageExists(db, page, worker) && Num(raw) > 0
    ensures var shown, whole, refused := Shown(db, page, worker), Balance(db, worker),
                                         Step(db, PostedPayment(page, worker, Fmt(raw), false)).outcome == Refused;
            (Asks(shown, Fmt(raw)) <==> refused) <==> !(shown < Num(raw) <= whole) && !(whole < Num(raw) <= shown)
  {
    hide Step, Shown, Balance, Fmt, Val;
    PostedVerdict(db, page, worker, raw, false);
  }

  /**
   What then comes of a submission: it is refused, without having been asked about, exactly when the
   amount exceeds the balance but not the one on the page; it overpays exactly when it exceeds both and
   the user said yes.
   */
  lemma SubmissionVerdict(db: DB, page: Page, worker: int, raw: string, ok: bool)
    requires PageExists(db, page, worker) && Num(raw) > 0
    ensures var shown, whole, req := Shown(db, page, worker), Balance(db, worker),
                                     Submitted(db, page, worker, Fmt(raw), ok);
            && (req == None <==> Num(raw) > shown && !ok)
            && (req.Some? ==> (Step(db, req.value).outcome == Refused <==> whole < Num(raw) <= shown))
            && (req.Some? && Step(db, req.value).outcome != Refused ==> Step(db, req.value).outcome == Accepted)
            && (req.Some? && Overpays(db, req.value) <==> ok && Num(raw) > shown && Num(raw) > whole)
  {
    hide Step, Shown, Balance, Fmt, Val, Overpays;
    PostedVerdict(db, page, worker, raw, Asks(Shown(db, page, worker), Fmt(raw)));
  }

  /** What is accepted is booked for that worker, on the page's project, and the page then shows that much less. */
  lemma SubmittedIsBooked(db: DB, page: Page, worker: int, raw: string, ok: bool)
    requires PageExists(db, page, worker) && Num(raw) > 0
    requires var req := Submitted(db, page, worker, Fmt(raw), ok); req.Some? && Step(db, req.value).outcome == Accepted
    ensures var r := Step(db, Submitted(db, page, worker, Fmt(raw), ok).value).db;
            var on := match page case OfWorker => None case OfProject(p) => Some(p);
            && r.payments == db.payments + [Payment(db.next.payment, worker, on, Num(raw))]
            && r.(payments := [], next := db.next) == db.(payments := [])
            && Shown(r, page, worker) == Shown(db, page, worker) - Num(raw)
  {
    hide ParseAmount, WorkerIds, ProjectIds, Fmt, Val, SumOf;
    FieldReadsAsNumber(raw);
    FmtKeepsNumber(raw);
    if Digits(raw) == "" { NothingTyped(raw); }
    var paid := Payment(db.next.payment, worker, if page.OfProject? then Some(page.project) else None, Num(raw));
    SumOfAppend(db.payments, paid, PaymentWorker, PaymentAmount, worker);
    if page.OfProject? {
      SumOfAppend(db.payments, paid, PaymentPair, PaymentAmount, (Some(page.project), worker));
    }
  }

  /** On the worker's own page the two always agree: whatever is submitted is accepted. */
  lemma WorkerPageAgrees(db: DB, worker: int, raw: string, ok: bool)
    requires worker in WorkerIds(db.workers) && Num(raw) > 0
    ensures var req := Submitted(db, OfWorker, worker, Fmt(raw), ok);
            && (req == None <==> Num(raw) > Balance(db, worker) && !ok)
            && (req.Some? ==> Step(db, req.value).outcome == Accepted)
  {
    hide Step, Balance, Fmt, Val, Overpays, WorkerIds;
    SubmissionVerdict(db, OfWorker, worker, raw, ok);
  }
}
