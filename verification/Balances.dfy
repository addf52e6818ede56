/**
 What each request does to what workers are owed: nobody is paid beyond their earnings without a
 confirmation, and every way a balance can fall is accounted for.
 */
module Balances {
  import opened Ledger
  import opened LedgerInvariant
  import opened ProjectForm
  import opened Queries
  import opened Tables
  import opened Text

  // ----- payments -----

  /** Changing one row's value changes the sum of its key by the difference. */
  lemma {:induction false} SumOfSetAmount(payments: seq<Payment>, id: int, amount: int, k: int)
    requires Distinct(Each(payments, PaymentId))
    ensures SumOf(Each(payments, SetAmount(id, amount)), PaymentWorker, PaymentAmount, k) ==
            SumOf(payments, PaymentWorker, PaymentAmount, k) +
            match FindPayment(payments, id)
            case None => 0
            case Some(p) => if p.worker == k then amount - p.amount else 0
  {
    if payments != [] {
      var front, last := payments[..|payments| - 1], payments[|payments| - 1];
      assert Each(payments, PaymentId) == Each(front, PaymentId) + [last.id];
      DistinctPrefix(Each(front, PaymentId), last.id);
      SumOfSetAmount(front, id, amount, k);
      var update := SetAmount(id, amount);
      assert Each(payments, update) == Each(front, update) + [update(last)];
      SumOfAppend(Each(front, update), update(last), PaymentWorker, PaymentAmount, k);
      EachMembers(front, PaymentId);
    }
  }

  lemma {:induction false} SumOfRemoved<T>(rows: seq<T>, key: T -> int, val: T -> int, k: int, keep: T -> bool)
    requires forall r :: r in rows ==> val(r) >= 0
    ensures SumOf(Where(rows, keep), key, val, k) <= SumOf(rows, key, val, k)
  {
    if rows != [] {
      var front, last := rows[..|rows| - 1], rows[|rows| - 1];
      assert rows == front + [last];
      SumOfRemoved(front, key, val, k, keep);
      if keep(last) { SumOfAppend(Where(front, keep), last, key, val, k); }
    }
  }

  lemma AddPaymentPays(db: DB, worker: int, project: Option<int>, amount: int, w: int)
    requires AddPayment(db, worker, project, amount).outcome == Accepted
    ensures var r := AddPayment(db, worker, project, amount).db;
            Earned(r, w) == Earned(db, w) && Paid(r, w) == Paid(db, w) + if w == worker then amount else 0
  {
    SumOfAppend(db.payments, Payment(db.next.payment, worker, project, amount), PaymentWorker, PaymentAmount, w);
  }

  predicate Confirmed(req: Request) {
    (req.CreatePayment? && req.confirmed) || (req.EditPayment? && req.confirmed)
  }

  /** Requests that can put more money into the payments table. */
  predicate Pays(req: Request) {
    req.CreatePayment? || req.EditPayment? || req.SettleAll?
  }

  /**
   A confirmed overpayment: a payment the tables can hold, above the balance, or a payment raised
   above what the balance would be without it. The flag alone is none.
   */
  predicate Overpays(db: DB, req: Request) {
    match req
    case CreatePayment(payee, project, text, confirmed) =>
      && confirmed && payee.Id? && payee.id in WorkerIds(db.workers)
      && (project == Absent || (project.Id? && project.id in ProjectIds(db.projects)))
      && PositiveAmount(text).Some? && PositiveAmount(text).value > Balance(db, payee.id)
    case EditPayment(id, text, confirmed) =>
      && confirmed && FindPayment(db.payments, id).Some? && PositiveAmount(text).Some?
      && var p, amount := FindPayment(db.payments, id).value, PositiveAmount(text).value;
         amount > p.amount && amount > Balance(db, p.worker) + p.amount
    case _ => false
  }

  /** The request left the worker paid more than before and more than earned. */
  predicate PaidBeyond(db: DB, after: DB, w: int) {
    Paid(after, w) > Paid(db, w) && Paid(after, w) > Earned(db, w)
  }

  lemma CoveredPayment(db: DB, req: Request, w: int)
    requires Inv(db) && Pays(req) && !Overpays(db, req)
    ensures !PaidBeyond(db, Step(db, req).db, w)
  {
    hide Inv, PositiveAmount, AddPayment, Paid, Earned;
    match req
    case CreatePayment(payee, project, text, confirmed) =>
      if payee.Id? && PositiveAmount(text).Some? && project != Malformed {
        var target, amount := if project == Absent then None else Some(project.id), PositiveAmount(text).value;
        AddedPayment(db, payee.id, target, amount, w);
      }
    case SettleAll(worker) => AddedPayment(db, worker, None, Balance(db, worker), w);
    case EditPayment(id, text, confirmed) => EditPays(db, id, text, confirmed, w);
  }

  lemma AddedPayment(db: DB, worker: int, project: Option<int>, amount: int, w: int)
    ensures var r := AddPayment(db, worker, project, amount);
            && (r.outcome == Accepted <==>
                  worker in WorkerIds(db.workers) && (project.Some? ==> project.value in ProjectIds(db.projects)))
            && (r.outcome == Accepted ==>
                  Earned(r.db, w) == Earned(db, w) && Paid(r.db, w) == Paid(db, w) + if w == worker then amount else 0)
            && (r.outcome != Accepted ==> r.db == db)
  {
    hide Paid, Earned, WorkerIds, ProjectIds;
    if AddPayment(db, worker, project, amount).outcome == Accepted {
      AddPaymentPays(db, worker, project, amount, w);
    }
  }

  lemma EditPays(db: DB, id: int, text: Option<string>, confirmed: bool, w: int)
    requires Inv(db)
    ensures var r := StepEditPayment(db, id, text, confirmed).db;
            && Earned(r, w) == Earned(db, w)
            && (!Overpays(db, Request.EditPayment(id, text, confirmed)) ==> !PaidBeyond(db, r, w))
            && (Overpays(db, Request.EditPayment(id, text, confirmed)) ==>
                  PaidBeyond(db, r, FindPayment(db.payments, id).value.worker))
  {
    hide GoodSplits, GoodRows, GoodShares, GoodExpenses, GoodReceipts, PositiveAmount, ProjectIds, WorkerIds;
    if PositiveAmount(text).Some? {
      var amount := PositiveAmount(text).value;
      SumOfSetAmount(db.payments, id, amount, w);
      if FindPayment(db.payments, id).Some? {
        SumOfSetAmount(db.payments, id, amount, FindPayment(db.payments, id).value.worker);
      }
    }
  }

  lemma OtherRequestsPayNothing(db: DB, req: Request, w: int)
    requires Inv(db) && !Pays(req)
    ensures Paid(Step(db, req).db, w) <= Paid(db, w)
  {
    hide GoodSplits, GoodRows, GoodShares, GoodExpenses, GoodReceipts, GoodIds, Validate, InsertLines, ReadWorkerForm,
         PositiveAmount, KnownStatus, OrEmpty, FromDraft, HasShares;
    match req
    case DeleteWorker(id) => SumOfRemoved(db.payments, PaymentWorker, PaymentAmount, w, NotPaidTo(id));
    case DeletePayment(id) => SumOfRemoved(db.payments, PaymentWorker, PaymentAmount, w, NotPayment(id));
    case DeleteProject(id) => SumOfEach(db.payments, Detach(id), PaymentWorker, PaymentAmount, w);
    case _ =>
  }

  lemma CoveredRequest(db: DB, req: Request, w: int)
    requires Inv(db) && !Overpays(db, req)
    ensures !PaidBeyond(db, Step(db, req).db, w)
  {
    hide Inv, Step, Paid, Earned, Overpays;
    if Pays(req) {
      CoveredPayment(db, req, w);
    } else {
      OtherRequestsPayNothing(db, req, w);
    }
  }

  /** Whom a payment request pays. */
  function Payee(db: DB, req: Request): int
    requires Overpays(db, req)
  {
    if req.CreatePayment? then req.payee.id else FindPayment(db.payments, req.id).value.worker
  }

  lemma OverpaidRequest(db: DB, req: Request)
    requires Inv(db) && Overpays(db, req)
    ensures PaidBeyond(db, Step(db, req).db, Payee(db, req))
    ensures Earned(Step(db, req).db, Payee(db, req)) == Earned(db, Payee(db, req))
  {
    hide Inv, PositiveAmount, AddPayment, Paid, Earned, WorkerIds, ProjectIds;
    if req.CreatePayment? {
      var target := if req.project == Absent then None else Some(req.project.id);
      AddedPayment(db, req.payee.id, target, PositiveAmount(req.text).value, req.payee.id);
    } else {
      EditPays(db, req.id, req.text, req.confirmed, Payee(db, req));
    }
  }

  /**
   A request pays some worker beyond what was earned exactly when it is a confirmed overpayment;
   that can be read from the tables and the form before the request.
   */
  lemma OverpaysExactly(db: DB, req: Request)
    requires Inv(db)
    ensures Overpays(db, req) <==> exists w: int :: PaidBeyond(db, Step(db, req).db, w)
  {
    hide Inv, Step, Overpays, PaidBeyond;
    if Overpays(db, req) {
      OverpaidRequest(db, req);
    } else {
      forall w: int ensures !PaidBeyond(db, Step(db, req).db, w) {
        CoveredRequest(db, req, w);
      }
    }
  }

  /** Without a confirmation, no request raises what a worker was paid above what the worker has earned. */
  lemma UnconfirmedNeverOverpays(db: DB, req: Request, w: int)
    requires Inv(db) && !Confirmed(req)
    ensures var r := Step(db, req).db;
            Paid(r, w) <= Paid(db, w) || Paid(r, w) <= Earned(db, w)
  {
    hide Inv, Step, Paid, Earned;
    CoveredRequest(db, req, w);
  }

  // ----- whole runs -----

  ghost predicate NoneNegative(db: DB) {
    forall w: int :: Balance(db, w) >= 0
  }

  /**
   No confirmed overpayment, and what saving or deleting a project takes from a worker is still
   covered by the worker's balance.
   */
  ghost predicate Careful(db: DB, req: Request) {
    !Overpays(db, req) && forall w: int :: EarningsShift(db, req, w) >= -Balance(db, w)
  }

  ghost predicate CarefulRun(db: DB, reqs: seq<Request>) {
    reqs == [] ||
    (CarefulRun(db, reqs[..|reqs| - 1]) && Careful(Run(db, reqs[..|reqs| - 1]), reqs[|reqs| - 1]))
  }

  /** No balance is negative at any point of the run. */
  ghost predicate NeverNegative(reqs: seq<Request>) {
    forall k :: 0 <= k <= |reqs| ==> NoneNegative(Run(EMPTY, reqs[..k]))
  }

  lemma EmptyBalances()
    ensures NoneNegative(EMPTY)
  {
  }

  // ----- settling -----

  /** A sum above zero has a row behind it. */
  lemma PositiveSumHasRow(db: DB, worker: int)
    requires Inv(db) && Earned(db, worker) > 0
    ensures worker in WorkerIds(db.workers)
  {
    hide GoodSplits, GoodRows, GoodPayments, GoodExpenses, GoodReceipts, GoodIds, WorkerIds;
    if forall s :: s in db.shares ==> s.worker != worker {
      SumOfNone(db.shares, ShareWorker, ShareAmount, worker);
    }
  }

  lemma PaidIsNotNegative(db: DB, worker: int)
    requires Inv(db)
    ensures Paid(db, worker) >= 0
  {
    hide GoodSplits, GoodRows, GoodShares, GoodExpenses, GoodReceipts, GoodIds;
    SumOfBounds(db.payments, PaymentWorker, PaymentAmount, worker);
  }

  /**
   Settling is accepted exactly when something is owed; it then makes that balance 0, leaves every
   other one alone, and settling again is refused.
   */
  lemma SettleAllSettles(db: DB, worker: int, other: int)
    requires Inv(db)
    ensures var r := Step(db, SettleAll(worker));
            && (r.outcome == Accepted <==> Balance(db, worker) > 0)
            && (r.outcome == Accepted ==>
                  && r.db.payments ==
                     db.payments + [Payment(db.next.payment, worker, None, Balance(db, worker))]
                  && r.db.(payments := [], next := db.next) == db.(payments := [])
                  && Balance(r.db, worker) == 0
                  && (other != worker ==> Balance(r.db, other) == Balance(db, other))
                  && Step(r.db, SettleAll(worker)).outcome == Refused)
  {
    hide Inv, Earned, Paid;
    var amount := Balance(db, worker);
    if amount > 0 {
      PaidIsNotNegative(db, worker);
      PositiveSumHasRow(db, worker);
      AddPaymentPays(db, worker, None, amount, worker);
      AddPaymentPays(db, worker, None, amount, other);
    }
  }

  // ----- deleting -----

  /** The worker's share in one project, 0 without one. */
  function ShareOf(db: DB, project: int, worker: int): int {
    SumOf(db.shares, SharePair, ShareAmount, (project, worker))
  }

  lemma {:induction false} EarnedWithout(shares: seq<Share>, project: int, worker: int)
    ensures SumOf(Where(shares, NotShareOf(project)), ShareWorker, ShareAmount, worker) ==
            SumOf(shares, ShareWorker, ShareAmount, worker) - SumOf(shares, SharePair, ShareAmount, (project, worker))
  {
    if shares != [] {
      var front, last := shares[..|shares| - 1], shares[|shares| - 1];
      EarnedWithout(front, project, worker);
      if last.project != project {
        SumOfAppend(Where(front, NotShareOf(project)), last, ShareWorker, ShareAmount, worker);
      }
    }
  }

  /** With one row per pair, the pair's sum is that row's amount. */
  lemma {:induction false} ShareOfRow(shares: seq<Share>, s: Share)
    requires Distinct(Each(shares, SharePair)) && s in shares
    ensures SumOf(shares, SharePair, ShareAmount, SharePair(s)) == s.amount
  {
    var front, last := shares[..|shares| - 1], shares[|shares| - 1];
    assert shares == front + [last];
    assert Each(shares, SharePair) == Each(front, SharePair) + [SharePair(last)];
    DistinctPrefix(Each(front, SharePair), SharePair(last));
    if s in front {
      ShareOfRow(front, s);
      assert SharePair(s) in Each(front, SharePair) by { EachMembers(front, SharePair); }
    } else {
      forall r | r in front ensures SharePair(r) != SharePair(last) {
        EachMembers(front, SharePair);
        assert SharePair(r) in Each(front, SharePair);
      }
      SumOfNone(front, SharePair, ShareAmount, SharePair(last));
    }
  }

  /**
   Deleting a project lowers each worker's balance by exactly the share in it, so it overdraws a
   worker exactly when that share exceeds the balance. Payments stay, without their project.
   */
  lemma DeleteProjectEffect(db: DB, id: int, worker: int)
    requires Inv(db)
    ensures var r := Step(db, DeleteProject(id)).db;
            && Balance(r, worker) == Balance(db, worker) - ShareOf(db, id, worker)
            && (Balance(r, worker) < 0 <==> ShareOf(db, id, worker) > Balance(db, worker))
            && Paid(r, worker) == Paid(db, worker)
            && |r.payments| == |db.payments|
            && (forall p :: p in r.payments ==> p.project != Some(id))
    ensures forall s :: s in db.shares && s.project == id && s.worker == worker ==> ShareOf(db, id, worker) == s.amount
  {
    hide GoodSplits, GoodRows, GoodPayments, GoodExpenses, GoodReceipts, GoodIds, Where, SumOf, Each;
    EarnedWithout(db.shares, id, worker);
    SumOfEach(db.payments, Detach(id), PaymentWorker, PaymentAmount, worker);
    EachKeeps(db.payments, Detach(id), PaymentId);
    forall s | s in db.shares && s.project == id && s.worker == worker ensures ShareOf(db, id, worker) == s.amount {
      ShareOfRow(db.shares, s);
    }
  }

  /** What goes with the project: its shares, expenses and receipts, and no row of another project. */
  lemma DeleteProjectScope(db: DB, id: int, other: int)
    ensures var r := Step(db, DeleteProject(id)).db;
            && (forall s :: s in r.shares <==> s in db.shares && s.project != id)
            && (forall e :: e in r.expenses <==> e in db.expenses && e.project != id)
            && (forall c :: c in r.receipts <==> c in db.receipts && c.project != id)
            && (forall p :: p in r.projects <==> p in db.projects && p.id != id)
            && r.workers == db.workers
    ensures other != id ==> var r := Step(db, DeleteProject(id)).db;
            && WorkersShare(r, other) == WorkersShare(db, other)
            && ExpensesTotal(r, other) == ExpensesTotal(db, other)
            && CustomerReceived(r, other) == CustomerReceived(db, other)
  {
    hide Where, SumOf, Each;
    WhereMembers(db.shares, NotShareOf(id));
    WhereMembers(db.expenses, NotExpenseOf(id));
    WhereMembers(db.receipts, NotReceiptOf(id));
    WhereMembers(db.projects, NotProject(id));
    SumOfWhere(db.shares, ShareProject, ShareAmount, other, NotShareOf(id));
    SumOfWhere(db.expenses, ExpenseProject, ExpenseAmount, other, NotExpenseOf(id));
    SumOfWhere(db.receipts, ReceiptProject, ReceiptAmount, other, NotReceiptOf(id));
  }

  lemma {:induction false} SumOfDetached(payments: seq<Payment>, id: int, k: Option<int>)
    ensures SumOf(Each(payments, Detach(id)), PaymentProject, PaymentAmount, k) ==
            if k == Some(id) then 0
            else SumOf(payments, PaymentProject, PaymentAmount, k)
                 + if k == None then SumOf(payments, PaymentProject, PaymentAmount, Some(id)) else 0
  {
    hide Each;
    if payments != [] {
      var front, last := payments[..|payments| - 1], payments[|payments| - 1];
      var f := Detach(id);
      assert payments == front + [last];
      SumOfDetached(front, id, k);
      assert Each(payments, f) == Each(front, f) + [f(last)];
      SumOfAppend(Each(front, f), f(last), PaymentProject, PaymentAmount, k);
    }
  }

  /**
   Payment by payment: those on the deleted project stay without a project, all others stay as they were.
   So what any other project was paid is unchanged, and payments on no project grow by what was on it.
   */
  lemma DeleteProjectPayments(db: DB, id: int, k: Option<int>)
    ensures var r := Step(db, DeleteProject(id)).db;
            && |r.payments| == |db.payments|
            && (forall i :: 0 <= i < |db.payments| ==>
                  var p := db.payments[i];
                  r.payments[i] == if p.project == Some(id) then Payment(p.id, p.worker, None, p.amount) else p)
            && SumOf(r.payments, PaymentProject, PaymentAmount, k) ==
               (if k == Some(id) then 0
                else SumOf(db.payments, PaymentProject, PaymentAmount, k)
                     + if k == None then SumOf(db.payments, PaymentProject, PaymentAmount, Some(id)) else 0)
  {
    hide SumOf, Where;
    SumOfDetached(db.payments, id, k);
  }

  /** The page of every other project shows what it showed before. */
  lemma DeleteProjectPages(db: DB, id: int, p: Project)
    requires p.id != id
    ensures FinancialsOf(Step(db, DeleteProject(id)).db, p) == FinancialsOf(db, p)
  {
    hide SumOf, Step;
    DeleteProjectScope(db, id, p.id);
    DeleteProjectPayments(db, id, Some(p.id));
  }

  /**
   A worker can be deleted exactly without shares; then only the worker's own payments go, and no
   share row, project or other worker's balance changes.
   */
  lemma DeleteWorkerEffect(db: DB, id: int, other: int)
    ensures var r := Step(db, DeleteWorker(id));
            && (r.outcome == Accepted <==> forall s :: s in db.shares ==> s.worker != id)
            && r.db.shares == db.shares && r.db.projects == db.projects
            && r.db.expenses == db.expenses && r.db.receipts == db.receipts
            && (other != id ==> Balance(r.db, other) == Balance(db, other))
            && (r.outcome == Accepted ==>
                  && (forall p :: p in r.db.payments <==> p in db.payments && p.worker != id)
                  && (forall w :: w in r.db.workers <==> w in db.workers && w.id != id)
                  && Balance(r.db, id) == 0)
  {
    if !HasShares(db, id) {
      WhereAll(db.shares, NotShareBy(id));
      WhereMembers(db.payments, NotPaidTo(id));
      WhereMembers(db.workers, NotWorker(id));
      SumOfWhere(db.payments, PaymentWorker, PaymentAmount, other, NotPaidTo(id));
      SumOfWhere(db.payments, PaymentWorker, PaymentAmount, id, NotPaidTo(id));
      SumOfNone(db.shares, ShareWorker, ShareAmount, id);
    }
  }

  // ----- saving -----

  function LineShareOf(l: Line): int { l.share }

  /** What a worker gets from the posted rows. */
  function LineAmount(lines: seq<Line>, worker: int): int {
    SumOf(lines, LineWorker, LineShareOf, worker)
  }

  lemma {:induction false} LineSharesEarn(project: int, lines: seq<Line>, worker: int)
    ensures SumOf(LineShares(project, lines), ShareWorker, ShareAmount, worker) == LineAmount(lines, worker)
  {
    if lines != [] {
      var front, last := lines[..|lines| - 1], lines[|lines| - 1];
      LineSharesEarn(project, front, worker);
      assert LineShares(project, lines) == LineShares(project, front) + [LineShare(project)(last)];
      SumOfAppend(LineShares(project, front), LineShare(project)(last), ShareWorker, ShareAmount, worker);
    }
  }

  /** An accepted edit replaces each worker's share in the project by the newly computed one. */
  lemma EditProjectEffect(db: DB, id: int, form: Form, worker: int)
    requires Step(db, EditProject(id, form)).outcome == Accepted
    ensures Validate(form).Some?
    ensures var r := Step(db, EditProject(id, form)).db;
            && Balance(r, worker) == Balance(db, worker) - ShareOf(db, id, worker)
                                     + LineAmount(Validate(form).value.lines, worker)
            && Paid(r, worker) == Paid(db, worker)
  {
    hide Validate, InsertLines;
    var d := Validate(form).value;
    var rest := Where(db.shares, NotShareOf(id));
    WhereMembers(db.shares, NotShareOf(id));
    InsertLinesMeans(WorkerIds(db.workers), rest, id, d.lines);
    SumOfConcat(rest, LineShares(id, d.lines), ShareWorker, ShareAmount, worker);
    LineSharesEarn(id, d.lines, worker);
    EarnedWithout(db.shares, id, worker);
  }

  // ----- which requests lower earnings -----

  /** How much of a worker's earnings a deleted or edited project adds or takes away. */
  function EarningsShift(db: DB, req: Request, worker: int): int {
    if req.DeleteProject? then -ShareOf(db, req.id, worker)
    else if req.EditProject? && req.id in ProjectIds(db.projects) && Validate(req.form).Some? &&
            Storable(db, Validate(req.form).value)
    then LineAmount(Validate(req.form).value.lines, worker) - ShareOf(db, req.id, worker)
    else 0
  }

  lemma SharesUntouched(db: DB, req: Request)
    requires !req.DeleteProject? && !req.EditProject? && !req.CreateProject? && !req.DeleteWorker?
    ensures Step(db, req).db.shares == db.shares
  {
    hide Validate, Balance, Each, Where, WorkerIds, ProjectIds, PositiveAmount, ReadWorkerForm, KnownStatus, OrEmpty;
  }

  lemma CreateProjectEarns(db: DB, form: Form, worker: int)
    requires Inv(db)
    ensures Earned(Step(db, CreateProject(form)).db, worker) >= Earned(db, worker)
  {
    hide Validate, InsertLines, Inv, SoundLine;
    if Validate(form).Some? {
      var d, id := Validate(form).value, db.next.project;
      NoSharesYet(db);
      InsertLinesMeans(WorkerIds(db.workers), db.shares, id, d.lines);
      SumOfConcat(db.shares, LineShares(id, d.lines), ShareWorker, ShareAmount, worker);
      LineSharesEarn(id, d.lines, worker);
      SavedAmountsNotNegative(form, worker);
    }
  }

  lemma SavedAmountsNotNegative(form: Form, worker: int)
    requires Validate(form).Some?
    ensures LineAmount(Validate(form).value.lines, worker) >= 0
  {
    hide Validate;
    DraftIsSound(form);
    SumOfBounds(Validate(form).value.lines, LineWorker, LineShareOf, worker);
  }

  lemma EditProjectEarns(db: DB, id: int, form: Form, w: int)
    requires Inv(db)
    ensures var req := Request.EditProject(id, form);
            Earned(Step(db, req).db, w) == Earned(db, w) + EarningsShift(db, req, w)
  {
    hide Inv, Validate, LineAmount, StepEditProject, Paid, Earned, ShareOf, Storable, ProjectIds;
    SaveOutcome(db, id, form);
    if Step(db, Request.EditProject(id, form)).outcome == Accepted { EditProjectEffect(db, id, form, w); }
    RefusalChangesNothing(db, Request.EditProject(id, form));
  }

  /** Deleting and editing a project shift earnings by exactly that much; nothing else lowers them. */
  lemma EarningsAfter(db: DB, req: Request, w: int)
    requires Inv(db)
    ensures Earned(Step(db, req).db, w) >= Earned(db, w) + EarningsShift(db, req, w)
    ensures req.DeleteProject? || req.EditProject? ==>
              Earned(Step(db, req).db, w) == Earned(db, w) + EarningsShift(db, req, w)
  {
    hide Inv, Validate, LineAmount, Step, Paid;
    match req
    case DeleteProject(id) => DeleteProjectEffect(db, id, w);
    case EditProject(id, form) => EditProjectEarns(db, id, form, w);
    case CreateProject(form) => CreateProjectEarns(db, form, w);
    case DeleteWorker(id) => DeleteWorkerEarns(db, id, w);
    case _ => SharesUntouched(db, req);
  }

  lemma DeleteWorkerEarns(db: DB, id: int, w: int)
    ensures Earned(Step(db, DeleteWorker(id)).db, w) == Earned(db, w)
  {
    hide Step;
    DeleteWorkerEffect(db, id, w);
  }

  lemma ShiftOnlyOfProjects(db: DB, req: Request, w: int)
    ensures !req.DeleteProject? && !req.EditProject? ==> EarningsShift(db, req, w) == 0
  {
  }

  /** Whether a request lowers a worker's earnings can be told beforehand from the stored and posted shares. */
  lemma LoweredExactly(db: DB, req: Request, w: int)
    requires Inv(db)
    ensures Earned(Step(db, req).db, w) < Earned(db, w) <==> EarningsShift(db, req, w) < 0
  {
    hide Inv, Step, Earned, EarningsShift;
    EarningsAfter(db, req, w);
    ShiftOnlyOfProjects(db, req, w);
  }

  lemma ProjectsPayNothing(db: DB, req: Request, w: int)
    requires Inv(db) && (req.DeleteProject? || req.EditProject?)
    ensures Paid(Step(db, req).db, w) == Paid(db, w)
  {
    hide Inv, Step, Paid, Earned, Validate;
    if req.DeleteProject? {
      DeleteProjectEffect(db, req.id, w);
    } else if Step(db, req).outcome == Accepted {
      EditProjectEffect(db, req.id, req.form, w);
    } else {
      RefusalChangesNothing(db, req);
    }
  }

  /** From a ledger without negative balances a request leads to another one exactly when it is careful. */
  lemma CarefulExactly(db: DB, req: Request)
    requires Inv(db) && NoneNegative(db)
    ensures NoneNegative(Step(db, req).db) <==> Careful(db, req)
  {
    hide Inv, Step, Earned, Paid, EarningsShift, Overpays;
    if req.DeleteProject? || req.EditProject? {
      assert !Overpays(db, req) by { NoOverpayInProjects(db, req); }
      forall w: int
        ensures Balance(Step(db, req).db, w) == Balance(db, w) + EarningsShift(db, req, w)
      {
        EarningsAfter(db, req, w);
        ProjectsPayNothing(db, req, w);
      }
      if NoneNegative(Step(db, req).db) {
        forall w: int ensures EarningsShift(db, req, w) >= -Balance(db, w) {
          assert Balance(Step(db, req).db, w) >= 0;
        }
      }
    } else {
      forall w: int ensures EarningsShift(db, req, w) == 0 && -Balance(db, w) <= 0 {
        ShiftOnlyOfProjects(db, req, w);
      }
      if Overpays(db, req) {
        OverpaidRequest(db, req);
        assert Balance(Step(db, req).db, Payee(db, req)) < 0;
      } else {
        forall w: int ensures Balance(Step(db, req).db, w) >= 0 {
          assert Balance(db, w) >= 0;
          EarningsAfter(db, req, w);
          CoveredRequest(db, req, w);
        }
      }
    }
  }

  lemma NoOverpayInProjects(db: DB, req: Request)
    ensures req.DeleteProject? || req.EditProject? ==> !Overpays(db, req)
  {
  }

  /** A run keeps every balance from ever going negative exactly when each of its requests is careful. */
  lemma {:induction false} CarefulRunsNeverOverdraw(reqs: seq<Request>)
    ensures CarefulRun(EMPTY, reqs) <==> NeverNegative(reqs)
  {
    hide Inv, Step, Careful, NoneNegative;
    if reqs == [] {
      EmptyBalances();
      assert reqs[..0] == [];
    } else {
      var front, req := reqs[..|reqs| - 1], reqs[|reqs| - 1];
      CarefulRunsNeverOverdraw(front);
      ReachableLedgersAreGood(front);
      assert forall k :: 0 <= k <= |front| ==> reqs[..k] == front[..k];
      assert reqs[..|reqs|] == reqs && front[..|front|] == front;
      assert Run(EMPTY, reqs) == Step(Run(EMPTY, front), req).db;
      assert NeverNegative(reqs) <==> NeverNegative(front) && NoneNegative(Run(EMPTY, reqs));
      if NeverNegative(front) {
        assert NoneNegative(Run(EMPTY, front[..|front|]));
        CarefulExactly(Run(EMPTY, front), req);
      }
    }
  }
}
