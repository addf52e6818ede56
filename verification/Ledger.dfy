/**
 The wage ledger as a state and its steps: the tables of payroll/schema.sql and one step for each
 request of the blueprints that writes to them. A request is one transaction; a refusal or a
 violated constraint leaves the tables as they were.
 */
module Ledger {
  import opened MoneyText
  import opened ProjectForm
  import opened Tables
  import opened Text

  // ----- tables -----

  datatype Worker = Worker(id: int, name: string, defaultPercent: int, active: bool)

  datatype Project = Project(id: int, name: string, labor: int, customerTotal: int,
                             dateJalali: Option<string>, dateIso: Option<string>, status: Status)

  datatype Share = Share(project: int, worker: int, mode: Mode, percent: int, amount: int)

  datatype Payment = Payment(id: int, worker: int, project: Option<int>, amount: int)

  datatype Expense = Expense(id: int, project: int, category: string, amount: int)

  datatype Receipt = Receipt(id: int, project: int, amount: int)

  /** The next id of each AUTOINCREMENT table; an id once used is never given again. */
  datatype Counters = Counters(worker: int, project: int, payment: int, expense: int, receipt: int)

  datatype DB = DB(workers: seq<Worker>, projects: seq<Project>, shares: seq<Share>, payments: seq<Payment>,
                   expenses: seq<Expense>, receipts: seq<Receipt>, next: Counters)

  const EMPTY := DB([], [], [], [], [], [], Counters(1, 1, 1, 1, 1))

  // ----- columns -----

  function WorkerId(w: Worker): int { w.id }
  function ProjectId(p: Project): int { p.id }
  function Labor(p: Project): int { p.labor }
  function CustomerTotal(p: Project): int { p.customerTotal }
  function ShareProject(s: Share): int { s.project }
  function ShareWorker(s: Share): int { s.worker }
  function SharePair(s: Share): (int, int) { (s.project, s.worker) }
  function ShareAmount(s: Share): int { s.amount }
  function PaymentId(p: Payment): int { p.id }
  function PaymentWorker(p: Payment): int { p.worker }
  function PaymentProject(p: Payment): Option<int> { p.project }
  function PaymentAmount(p: Payment): int { p.amount }
  function ExpenseId(e: Expense): int { e.id }
  function ExpenseProject(e: Expense): int { e.project }
  function ExpenseAmount(e: Expense): int { e.amount }
  function ReceiptId(r: Receipt): int { r.id }
  function ReceiptProject(r: Receipt): int { r.project }
  function ReceiptAmount(r: Receipt): int { r.amount }

  function WorkerIds(ws: seq<Worker>): seq<int> { Each(ws, WorkerId) }
  function ProjectIds(ps: seq<Project>): seq<int> { Each(ps, ProjectId) }

  // ----- sums over the tables -----

  /** What a worker has earned over all projects. */
  function Earned(db: DB, worker: int): int {
    SumOf(db.shares, ShareWorker, ShareAmount, worker)
  }

  function Paid(db: DB, worker: int): int {
    SumOf(db.payments, PaymentWorker, PaymentAmount, worker)
  }

  function Balance(db: DB, worker: int): int {
    Earned(db, worker) - Paid(db, worker)
  }

  // ----- WHERE clauses and SET clauses -----

  function NotWorker(id: int): Worker -> bool { (w: Worker) => w.id != id }
  function NotProject(id: int): Project -> bool { (p: Project) => p.id != id }
  function NotShareOf(project: int): Share -> bool { (s: Share) => s.project != project }
  function NotShareBy(worker: int): Share -> bool { (s: Share) => s.worker != worker }
  function NotPayment(id: int): Payment -> bool { (p: Payment) => p.id != id }
  function NotPaidTo(worker: int): Payment -> bool { (p: Payment) => p.worker != worker }
  function NotExpense(id: int): Expense -> bool { (e: Expense) => e.id != id }
  function NotExpenseOf(project: int): Expense -> bool { (e: Expense) => e.project != project }
  function NotReceipt(id: int): Receipt -> bool { (r: Receipt) => r.id != id }
  function NotReceiptOf(project: int): Receipt -> bool { (r: Receipt) => r.project != project }

  /** ON DELETE SET NULL */
  function Detach(project: int): Payment -> Payment {
    (p: Payment) => if p.project == Some(project) then p.(project := None) else p
  }

  function SetAmount(id: int, amount: int): Payment -> Payment {
    (p: Payment) => if p.id == id then p.(amount := amount) else p
  }

  function SetStatusOf(id: int, status: Status): Project -> Project {
    (p: Project) => if p.id == id then p.(status := status) else p
  }

  function SetDraft(id: int, d: Draft): Project -> Project {
    (p: Project) => if p.id == id then FromDraft(id, d) else p
  }

  function SetWorker(id: int, name: string, percent: int, active: bool): Worker -> Worker {
    (w: Worker) => if w.id == id then Worker(id, name, percent, active) else w
  }

  function FromDraft(id: int, d: Draft): Project {
    Project(id, d.name, d.labor, d.customerTotal, d.dateJalali, d.dateIso, d.status)
  }

  // ----- requests -----

  datatype PostedId = Absent | Malformed | Id(id: int)

  datatype Request =
    | CreateWorker(name: Option<string>, percent: Option<string>, active: bool)
    | EditWorker(id: int, name: Option<string>, percent: Option<string>, active: bool)
    | DeleteWorker(id: int)
    | CreateProject(form: Form)
    | EditProject(id: int, form: Form)
    | SetStatus(id: int, code: Option<string>)
    | DeleteProject(id: int)
    | CreatePayment(payee: PostedId, project: PostedId, text: Option<string>, confirmed: bool)
    | EditPayment(id: int, text: Option<string>, confirmed: bool)
    | DeletePayment(id: int)
    | SettleAll(worker: int)
    | CreateExpense(project: PostedId, category: Option<string>, text: Option<string>)
    | DeleteExpense(id: int)
    | CreateReceipt(project: PostedId, text: Option<string>)
    | DeleteReceipt(id: int)

  /** Refused by a guard of the program, or failed on an exception or a constraint of the schema. */
  datatype Outcome = Accepted | Refused | Failed

  datatype Result = Result(db: DB, outcome: Outcome)

  const EXPENSE_CATEGORIES: set<string> := {"fuel", "food", "consumable", "goods", "transport", "other"}

  // ----- workers -----

  /** A worker form: the name must not be blank and the percent must be valid, blank meaning 0. */
  function ReadWorkerForm(name: Option<string>, percent: Option<string>): Option<(string, int)> {
    var n := Strip(OrEmpty(name));
    var p := ParsePercent(Some(if OrEmpty(percent) == "" then "0" else OrEmpty(percent)));
    if n == "" || p == None then None else Some((n, p.value))
  }

  function StepCreateWorker(db: DB, name: Option<string>, percent: Option<string>, active: bool): Result {
    match ReadWorkerForm(name, percent)
    case None => Result(db, Refused)
    case Some(f) =>
      Result(db.(workers := db.workers + [Worker(db.next.worker, f.0, f.1, active)],
                 next := db.next.(worker := db.next.worker + 1)), Accepted)
  }

  function StepEditWorker(db: DB, id: int, name: Option<string>, percent: Option<string>, active: bool): Result {
    if id !in WorkerIds(db.workers) then Result(db, Refused)
    else
      match ReadWorkerForm(name, percent)
      case None => Result(db, Refused)
      case Some(f) => Result(db.(workers := Each(db.workers, SetWorker(id, f.0, f.1, active))), Accepted)
  }

  predicate HasShares(db: DB, worker: int) {
    exists s :: s in db.shares && s.worker == worker
  }

  /** Deleting a worker cascades to shares (there are none) and to payments. */
  function StepDeleteWorker(db: DB, id: int): Result {
    if HasShares(db, id) then Result(db, Refused)
    else
      Result(db.(workers := Where(db.workers, NotWorker(id)), shares := Where(db.shares, NotShareBy(id)),
                 payments := Where(db.payments, NotPaidTo(id))), Accepted)
  }

  // ----- projects -----

  function LineShare(project: int): Line -> Share {
    (l: Line) => Share(project, l.wid, l.mode, l.percent, l.share)
  }

  /** Inserting the rows one by one; None when a foreign key or the unique pair is violated. */
  function InsertLines(workers: seq<int>, shares: seq<Share>, project: int, lines: seq<Line>): Option<seq<Share>> {
    if lines == [] then Some(shares)
    else
      var line := lines[|lines| - 1];
      match InsertLines(workers, shares, project, lines[..|lines| - 1])
      case None => None
      case Some(t) =>
        if line.wid !in workers || (exists s :: s in t && s.project == project && s.worker == line.wid) then None
        else Some(t + [LineShare(project)(line)])
  }

  function StoreNew(db: DB, d: Draft): Result {
    var id := db.next.project;
    match InsertLines(WorkerIds(db.workers), db.shares, id, d.lines)
    case None => Result(db, Failed)
    case Some(shares) =>
      Result(db.(projects := db.projects + [FromDraft(id, d)], shares := shares,
                 next := db.next.(project := id + 1)), Accepted)
  }

  /** The project's old rows are deleted and the new ones inserted. */
  function StoreOver(db: DB, id: int, d: Draft): Result {
    match InsertLines(WorkerIds(db.workers), Where(db.shares, NotShareOf(id)), id, d.lines)
    case None => Result(db, Failed)
    case Some(shares) => Result(db.(projects := Each(db.projects, SetDraft(id, d)), shares := shares), Accepted)
  }

  function StepCreateProject(db: DB, form: Form): Result {
    match Validate(form)
    case None => Result(db, Refused)
    case Some(d) => StoreNew(db, d)
  }

  function StepEditProject(db: DB, id: int, form: Form): Result {
    if id !in ProjectIds(db.projects) then Result(db, Refused)
    else
      match Validate(form)
      case None => Result(db, Refused)
      case Some(d) => StoreOver(db, id, d)
  }

  function StepSetStatus(db: DB, id: int, code: Option<string>): Result {
    match KnownStatus(code)
    case None => Result(db, Refused)
    case Some(status) => Result(db.(projects := Each(db.projects, SetStatusOf(id, status))), Accepted)
  }

  /** Shares, expenses and receipts go with the project; payments stay and lose their project. */
  function StepDeleteProject(db: DB, id: int): Result {
    Result(db.(projects := Where(db.projects, NotProject(id)), shares := Where(db.shares, NotShareOf(id)),
               payments := Each(db.payments, Detach(id)), expenses := Where(db.expenses, NotExpenseOf(id)),
               receipts := Where(db.receipts, NotReceiptOf(id))), Accepted)
  }

  // ----- payments -----

  /** A posted amount that is a number greater than zero. */
  function PositiveAmount(text: Option<string>): (a: Option<int>)
    ensures a.Some? ==> a.value > 0
  {
    var a := ParseAmount(text);
    if a == None || a.value <= 0 then None else a
  }

  function AddPayment(db: DB, worker: int, project: Option<int>, amount: int): Result {
    if worker !in WorkerIds(db.workers) || (project.Some? && project.value !in ProjectIds(db.projects))
    then Result(db, Failed)
    else
      Result(db.(payments := db.payments + [Payment(db.next.payment, worker, project, amount)],
                 next := db.next.(payment := db.next.payment + 1)), Accepted)
  }

  function StepCreatePayment(db: DB, worker: PostedId, project: PostedId, text: Option<string>, confirmed: bool)
    : Result
  {
    var amount := PositiveAmount(text);
    if worker == Absent || amount == None then Result(db, Refused)
    else if worker == Malformed then Result(db, Failed)
    else if amount.value > Balance(db, worker.id) && !confirmed then Result(db, Refused)
    else if project == Malformed then Result(db, Failed)
    else AddPayment(db, worker.id, if project == Absent then None else Some(project.id), amount.value)
  }

  function FindPayment(payments: seq<Payment>, id: int): (p: Option<Payment>)
    ensures p.Some? ==> p.value in payments && p.value.id == id
    ensures p.None? ==> forall q :: q in payments ==> q.id != id
  {
    if payments == [] then None
    else if payments[|payments| - 1].id == id then Some(payments[|payments| - 1])
    else FindPayment(payments[..|payments| - 1], id)
  }

  /** The guard looks at the balance as it would be without the payment being edited. */
  function StepEditPayment(db: DB, id: int, text: Option<string>, confirmed: bool): Result {
    match FindPayment(db.payments, id)
    case None => Result(db, Refused)
    case Some(p) =>
      var amount := PositiveAmount(text);
      if p.worker !in WorkerIds(db.workers) || amount == None then Result(db, Refused)
      else if amount.value > Balance(db, p.worker) + p.amount && !confirmed then Result(db, Refused)
      else Result(db.(payments := Each(db.payments, SetAmount(id, amount.value))), Accepted)
  }

  function StepDeletePayment(db: DB, id: int): Result {
    Result(db.(payments := Where(db.payments, NotPayment(id))), Accepted)
  }

  /** One payment of the whole balance, on no project. */
  function StepSettleAll(db: DB, worker: int): Result {
    if Balance(db, worker) <= 0 then Result(db, Refused)
    else AddPayment(db, worker, None, Balance(db, worker))
  }

  // ----- expenses and receipts -----

  /** An id that is no number fails before any guard: the page to return to is built from it first. */
  function StepCreateExpense(db: DB, project: PostedId, category: Option<string>, text: Option<string>): Result {
    var amount := PositiveAmount(text);
    if project == Malformed then Result(db, Failed)
    else if project == Absent || OrEmpty(category) !in EXPENSE_CATEGORIES || amount == None then Result(db, Refused)
    else if project.id !in ProjectIds(db.projects) then Result(db, Failed)
    else
      Result(db.(expenses := db.expenses + [Expense(db.next.expense, project.id, OrEmpty(category), amount.value)],
                 next := db.next.(expense := db.next.expense + 1)), Accepted)
  }

  function StepDeleteExpense(db: DB, id: int): Result {
    Result(db.(expenses := Where(db.expenses, NotExpense(id))), Accepted)
  }

  function StepCreateReceipt(db: DB, project: PostedId, text: Option<string>): Result {
    var amount := PositiveAmount(text);
    if project == Malformed then Result(db, Failed)
    else if project == Absent || amount == None then Result(db, Refused)
    else if project.id !in ProjectIds(db.projects) then Result(db, Failed)
    else
      Result(db.(receipts := db.receipts + [Receipt(db.next.receipt, project.id, amount.value)],
                 next := db.next.(receipt := db.next.receipt + 1)), Accepted)
  }

  function StepDeleteReceipt(db: DB, id: int): Result {
    Result(db.(receipts := Where(db.receipts, NotReceipt(id))), Accepted)
  }

  // ----- one step, a whole run -----

  function Step(db: DB, req: Request): Result {
    match req
    case CreateWorker(name, percent, active) => StepCreateWorker(db, name, percent, active)
    case EditWorker(id, name, percent, active) => StepEditWorker(db, id, name, percent, active)
    case DeleteWorker(id) => StepDeleteWorker(db, id)
    case CreateProject(form) => StepCreateProject(db, form)
    case EditProject(id, form) => StepEditProject(db, id, form)
    case SetStatus(id, code) => StepSetStatus(db, id, code)
    case DeleteProject(id) => StepDeleteProject(db, id)
    case CreatePayment(worker, project, text, confirmed) => StepCreatePayment(db, worker, project, text, confirmed)
    case EditPayment(id, text, confirmed) => StepEditPayment(db, id, text, confirmed)
    case DeletePayment(id) => StepDeletePayment(db, id)
    case SettleAll(worker) => StepSettleAll(db, worker)
    case CreateExpense(project, category, text) => StepCreateExpense(db, project, category, text)
    case DeleteExpense(id) => StepDeleteExpense(db, id)
    case CreateReceipt(project, text) => StepCreateReceipt(db, project, text)
    case DeleteReceipt(id) => StepDeleteReceipt(db, id)
  }

  function Run(db: DB, reqs: seq<Request>): DB {
    if reqs == [] then db else Step(Run(db, reqs[..|reqs| - 1]), reqs[|reqs| - 1]).db
  }
}
