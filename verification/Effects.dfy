/**
 What the smaller requests do to the figures on the pages, and which request undoes which: an
 accepted entry changes exactly one worker's or project's figures by exactly the posted amount, and
 deleting it again restores every table.
 */
module Effects {
  import opened Balances
  import opened Ledger
  import opened LedgerInvariant
  import opened MoneyText
  import opened ProjectForm
  import opened Queries
  import opened Tables
  import opened Text

  // ----- entering -----

  /** The project a payment is booked on. */
  function TargetOf(project: PostedId): Option<int> {
    if project.Id? then Some(project.id) else None
  }

  /**
   A payment is accepted exactly when the worker exists, the amount is positive, it is covered by the
   balance or confirmed, and the project, if any, exists; it then lowers that worker's balance and
   raises that project's payments by the posted amount, and touches nothing else.
   */
  lemma PaymentEffect(db: DB, payee: PostedId, project: PostedId, text: Option<string>, confirmed: bool,
                      worker: int, target: Option<int>)
    ensures
      var r := Step(db, CreatePayment(payee, project, text, confirmed));
      && (r.outcome == Accepted <==>
            && payee.Id? && payee.id in WorkerIds(db.workers)
            && ParseAmount(text).Some? && ParseAmount(text).value > 0
            && (ParseAmount(text).value <= Balance(db, payee.id) || confirmed)
            && (project == Absent || (project.Id? && project.id in ProjectIds(db.projects))))
      && (r.outcome == Accepted ==>
            && Balance(r.db, worker) ==
               Balance(db, worker) - (if worker == payee.id then ParseAmount(text).value else 0)
            && SumOf(r.db.payments, PaymentProject, PaymentAmount, target) ==
               SumOf(db.payments, PaymentProject, PaymentAmount, target)
               + (if target == TargetOf(project) then ParseAmount(text).value else 0)
            && r.db.payments ==
               db.payments + [Payment(db.next.payment, payee.id, TargetOf(project), ParseAmount(text).value)]
            && r.db.(payments := [], next := db.next) == db.(payments := []))
  {
    hide ParseAmount, Earned, Paid, WorkerIds, ProjectIds;
    var r := Step(db, CreatePayment(payee, project, text, confirmed));
    if r.outcome == Accepted {
      var amount := ParseAmount(text).value;
      AddPaymentPays(db, payee.id, TargetOf(project), amount, worker);
      SumOfAppend(db.payments, Payment(db.next.payment, payee.id, TargetOf(project), amount),
                  PaymentProject, PaymentAmount, target);
    }
  }

  /** An expense lowers what the shop keeps of its project by the posted amount, and of no other. */
  lemma ExpenseEffect(db: DB, project: PostedId, category: Option<string>, text: Option<string>, p: Project)
    ensures
      var r := Step(db, CreateExpense(project, category, text));
      && (r.outcome == Accepted <==>
            && project.Id? && project.id in ProjectIds(db.projects)
            && OrEmpty(category) in EXPENSE_CATEGORIES
            && ParseAmount(text).Some? && ParseAmount(text).value > 0)
      && (r.outcome == Accepted ==>
            && (var a, f := if p.id == project.id then ParseAmount(text).value else 0, FinancialsOf(db, p);
                FinancialsOf(r.db, p) == f.(expensesTotal := f.expensesTotal + a, shopAfter := f.shopAfter - a))
            && r.db.expenses ==
               db.expenses + [Expense(db.next.expense, project.id, OrEmpty(category), ParseAmount(text).value)]
            && r.db.(expenses := [], next := db.next) == db.(expenses := []))
  {
    hide ParseAmount, OrEmpty, ProjectIds, FinancialsOf;
    var r := Step(db, CreateExpense(project, category, text));
    if r.outcome == Accepted {
      var e := Expense(db.next.expense, project.id, OrEmpty(category), ParseAmount(text).value);
      PageWithExpense(db, r.db, e, p);
    }
  }

  lemma PageWithExpense(db: DB, after: DB, e: Expense, p: Project)
    requires after == db.(expenses := db.expenses + [e], next := after.next)
    ensures var a, f := if p.id == e.project then e.amount else 0, FinancialsOf(db, p);
            FinancialsOf(after, p) == f.(expensesTotal := f.expensesTotal + a, shopAfter := f.shopAfter - a)
  {
    hide SumOf;
    SumOfAppend(db.expenses, e, ExpenseProject, ExpenseAmount, p.id);
  }

  lemma PageWithReceipt(db: DB, after: DB, c: Receipt, p: Project)
    requires after == db.(receipts := db.receipts + [c], next := after.next)
    ensures var a, f := if p.id == c.project then c.amount else 0, FinancialsOf(db, p);
            FinancialsOf(after, p).(status := f.status) ==
            f.(customerReceived := f.customerReceived + a, customerBalance := f.customerBalance - a)
  {
    hide SumOf;
    SumOfAppend(db.receipts, c, ReceiptProject, ReceiptAmount, p.id);
  }

  /** A receipt lowers what its project's customer owes by the posted amount, and no other's. */
  lemma ReceiptEffect(db: DB, project: PostedId, text: Option<string>, p: Project)
    ensures
      var r := Step(db, CreateReceipt(project, text));
      && (r.outcome == Accepted <==>
            && project.Id? && project.id in ProjectIds(db.projects)
            && ParseAmount(text).Some? && ParseAmount(text).value > 0)
      && (r.outcome == Accepted ==>
            && (var a, f := if p.id == project.id then ParseAmount(text).value else 0, FinancialsOf(db, p);
                FinancialsOf(r.db, p).(status := f.status) ==
                f.(customerReceived := f.customerReceived + a, customerBalance := f.customerBalance - a))
            && r.db.receipts == db.receipts + [Receipt(db.next.receipt, project.id, ParseAmount(text).value)]
            && r.db.(receipts := [], next := db.next) == db.(receipts := []))
  {
    hide ParseAmount, ProjectIds, FinancialsOf;
    var r := Step(db, CreateReceipt(project, text));
    if r.outcome == Accepted {
      PageWithReceipt(db, r.db, Receipt(db.next.receipt, project.id, ParseAmount(text).value), p);
    }
  }

  /** On the page of its project, and of no other, a payment raises what the workers were paid. */
  lemma PaymentOnPage(db: DB, payee: PostedId, project: PostedId, text: Option<string>, confirmed: bool, p: Project)
    requires Step(db, CreatePayment(payee, project, text, confirmed)).outcome == Accepted
    ensures ParseAmount(text).Some?
    ensures var r, f := Step(db, CreatePayment(payee, project, text, confirmed)).db, FinancialsOf(db, p);
            var a := if TargetOf(project) == Some(p.id) then ParseAmount(text).value else 0;
            FinancialsOf(r, p) == f.(workersPaid := f.workersPaid + a)
  {
    hide SumOf, Step, ParseAmount, Balance;
    PaymentEffect(db, payee, project, text, confirmed, 0, Some(p.id));
  }

  /** An amount that a payment, an expense or a receipt can have. */
  predicate Payable(text: Option<string>) {
    ParseAmount(text).Some? && ParseAmount(text).value > 0
  }

  /** A posted project that the tables do not hold. */
  predicate NoSuchProject(db: DB, project: PostedId) {
    project == Malformed || (project.Id? && project.id !in ProjectIds(db.projects))
  }

  /**
   Requests that end in an exception, not in a message: forms whose rows cannot be stored, and entries
   that pass every guard but name a worker or a project that does not exist (an id that is no number
   fails an expense or a receipt before its guards). No other request does.
   */
  lemma FailsExactly(db: DB, req: Request)
    requires Inv(db)
    ensures Step(db, req).outcome == Failed <==>
            match req
            case CreateProject(form) => Validate(form).Some? && !Storable(db, Validate(form).value)
            case EditProject(id, form) => id in ProjectIds(db.projects) && Validate(form).Some? &&
                                          !Storable(db, Validate(form).value)
            case CreatePayment(payee, project, text, confirmed) =>
              && payee != Absent && Payable(text)
              && (payee == Malformed ||
                  ((ParseAmount(text).value <= Balance(db, payee.id) || confirmed) &&
                   (payee.id !in WorkerIds(db.workers) || NoSuchProject(db, project))))
            case CreateExpense(project, category, text) =>
              project == Malformed ||
              (OrEmpty(category) in EXPENSE_CATEGORIES && Payable(text) && NoSuchProject(db, project))
            case CreateReceipt(project, text) =>
              project == Malformed || (Payable(text) && NoSuchProject(db, project))
            case _ => false
  {
    hide Inv, Validate, Storable, ParseAmount, Balance, InsertLines, WorkerIds, ProjectIds, OrEmpty, ReadWorkerForm,
         KnownStatus, HasShares, FindPayment;
    match req {
      case CreateProject(form) => SaveOutcome(db, 0, form);
      case EditProject(id, form) => SaveOutcome(db, id, form);
      case SettleAll(worker) => SettleAllSettles(db, worker, worker);
      case _ =>
    }
  }

  /** Exactly these six codes are categories of expenses. */
  lemma ExpenseCategories(c: string)
    ensures c in EXPENSE_CATEGORIES <==>
            c == "fuel" || c == "food" || c == "consumable" || c == "goods" || c == "transport" || c == "other"
  {
  }

  /** The default percent of a worker form: an empty field stands for 0. */
  function DefaultPercent(percent: Option<string>): Option<int> {
    if OrEmpty(percent) == "" then Some(0) else ParsePercent(percent)
  }

  /**
   A worker is entered exactly with a name and a readable percent, under a new id and with what was typed;
   nothing else changes.
   */
  lemma CreateWorkerEffect(db: DB, name: Option<string>, percent: Option<string>, active: bool)
    requires Inv(db)
    ensures
      var r, n := Step(db, CreateWorker(name, percent, active)), Strip(OrEmpty(name));
      && (r.outcome == Accepted <==> n != "" && DefaultPercent(percent).Some?)
      && (r.outcome == Accepted ==>
            && r.db.workers == db.workers + [Worker(db.next.worker, n, DefaultPercent(percent).value, active)]
            && db.next.worker !in WorkerIds(db.workers)
            && r.db.(workers := [], next := db.next) == db.(workers := []))
  {
    hide ParsePercent, Strip, GoodSplits, GoodRows, GoodShares, GoodPayments, GoodExpenses, GoodReceipts, Distinct,
         Each;
    ZeroReads();
  }

  /** Editing a worker is accepted exactly for an existing one and such a form, and changes that one's row only. */
  lemma EditWorkerEffect(db: DB, id: int, name: Option<string>, percent: Option<string>, active: bool)
    ensures
      var r, n := Step(db, EditWorker(id, name, percent, active)), Strip(OrEmpty(name));
      && (r.outcome == Accepted <==> id in WorkerIds(db.workers) && n != "" && DefaultPercent(percent).Some?)
      && (r.outcome == Accepted ==>
            && |r.db.workers| == |db.workers|
            && (forall i :: 0 <= i < |db.workers| ==>
                  r.db.workers[i] == if db.workers[i].id == id then Worker(id, n, DefaultPercent(percent).value, active)
                                     else db.workers[i])
            && r.db.(workers := []) == db.(workers := []))
  {
    hide ParsePercent, Strip, WorkerIds;
    ZeroReads();
  }

  // ----- saving projects -----

  lemma PageUntouched(db: DB, after: DB, p: Project)
    requires after.payments == db.payments && after.expenses == db.expenses && after.receipts == db.receipts
    requires WorkersShare(after, p.id) == WorkersShare(db, p.id)
    ensures FinancialsOf(after, p) == FinancialsOf(db, p)
  {
    hide SumOf;
  }

  /**
   A project just created is stored with what was posted and shows just that on its page: its amounts, the
   shares of its rows, no payment, no expense and no receipt. Every other page is as before.
   */
  lemma CreateProjectEffect(db: DB, form: Form, p: Project)
    requires Inv(db) && p in db.projects && Step(db, CreateProject(form)).outcome == Accepted
    ensures Validate(form).Some?
    ensures
      var r, d, id := Step(db, CreateProject(form)).db, Validate(form).value, db.next.project;
      var stored := Project(id, d.name, d.labor, d.customerTotal, d.dateJalali, d.dateIso, d.status);
      && r.projects == db.projects + [stored] && r.shares == db.shares + LineShares(id, d.lines)
      && r.(projects := [], shares := [], next := db.next) == db.(projects := [], shares := [])
      && FinancialsOf(r, p) == FinancialsOf(db, p)
  {
    hide Validate, InsertLines, Inv, SumOf, Step;
    StoredNew(db, form);
    var r, d, id := Step(db, CreateProject(form)).db, Validate(form).value, db.next.project;
    SumOfConcat(db.shares, LineShares(id, d.lines), ShareProject, ShareAmount, p.id);
    LineSharesSum(id, d.lines, p.id);
    NothingRefersTo(db);
    PageUntouched(db, r, p);
  }

  lemma StoredNew(db: DB, form: Form)
    requires Inv(db) && Step(db, CreateProject(form)).outcome == Accepted
    ensures Validate(form).Some?
    ensures
      var r, d, id := Step(db, CreateProject(form)).db, Validate(form).value, db.next.project;
      && r == db.(projects := db.projects + [Project(id, d.name, d.labor, d.customerTotal, d.dateJalali, d.dateIso,
                                                     d.status)],
                  shares := db.shares + LineShares(id, d.lines), next := db.next.(project := id + 1))
  {
    hide Validate, InsertLines, Inv, LineShares;
    NoSharesYet(db);
    InsertLinesMeans(WorkerIds(db.workers), db.shares, db.next.project, Validate(form).value.lines);
  }

  lemma NewProjectPage(db: DB, form: Form)
    requires Inv(db) && Step(db, CreateProject(form)).outcome == Accepted
    ensures Validate(form).Some?
    ensures
      var r, d := Step(db, CreateProject(form)).db, Validate(form).value;
      var stored := Project(db.next.project, d.name, d.labor, d.customerTotal, d.dateJalali, d.dateIso, d.status);
      var share := ShareTotal(d.lines);
      FinancialsOf(r, stored) == Financials(d.labor, d.customerTotal, share, 0, 0, d.labor - share, d.labor - share,
                                            0, d.customerTotal, NotReceived)
  {
    hide Validate, Inv, SumOf, Step;
    StoredNew(db, form);
    var d, id := Validate(form).value, db.next.project;
    NothingRefersTo(db);
    SumOfConcat(db.shares, LineShares(id, d.lines), ShareProject, ShareAmount, id);
    LineSharesSum(id, d.lines, id);
    SumOfNone(db.shares, ShareProject, ShareAmount, id);
    SumOfNone(db.payments, PaymentProject, PaymentAmount, Some(id));
    SumOfNone(db.expenses, ExpenseProject, ExpenseAmount, id);
    SumOfNone(db.receipts, ReceiptProject, ReceiptAmount, id);
  }

  /**
   An accepted edit rewrites that project's row with what was posted and replaces its share rows; every
   other project, row and page is as before.
   */
  lemma EditProjectScope(db: DB, id: int, form: Form, p: Project)
    requires Step(db, EditProject(id, form)).outcome == Accepted && p.id != id
    ensures Validate(form).Some?
    ensures
      var r, d := Step(db, EditProject(id, form)).db, Validate(form).value;
      && |r.projects| == |db.projects|
      && (forall i :: 0 <= i < |db.projects| ==>
            r.projects[i] == if db.projects[i].id == id then
                               Project(id, d.name, d.labor, d.customerTotal, d.dateJalali, d.dateIso, d.status)
                             else db.projects[i])
      && r.shares == Where(db.shares, NotShareOf(id)) + LineShares(id, d.lines)
      && r.(projects := [], shares := []) == db.(projects := [], shares := [])
      && FinancialsOf(r, p) == FinancialsOf(db, p)
  {
    hide Validate, InsertLines, SumOf, Where, LineShares, WorkerIds, ProjectIds;
    var r, d := Step(db, EditProject(id, form)).db, Validate(form).value;
    var rest := Where(db.shares, NotShareOf(id));
    WhereMembers(db.shares, NotShareOf(id));
    InsertLinesMeans(WorkerIds(db.workers), rest, id, d.lines);
    SumOfConcat(rest, LineShares(id, d.lines), ShareProject, ShareAmount, p.id);
    LineSharesSum(id, d.lines, p.id);
    SumOfWhere(db.shares, ShareProject, ShareAmount, p.id, NotShareOf(id));
    PageUntouched(db, r, p);
  }

  // ----- changing -----

  /** Editing a payment moves its worker's balance by the old amount minus the new one. */
  lemma EditPaymentEffect(db: DB, id: int, text: Option<string>, confirmed: bool, worker: int)
    requires Inv(db) && Step(db, EditPayment(id, text, confirmed)).outcome == Accepted
    ensures FindPayment(db.payments, id).Some? && ParseAmount(text).Some?
    ensures
      var r := Step(db, EditPayment(id, text, confirmed)).db;
      var p := FindPayment(db.payments, id).value;
      && Balance(r, worker) ==
         Balance(db, worker) + (if worker == p.worker then p.amount - ParseAmount(text).value else 0)
      && (forall q :: q in db.payments && q.id != id ==> q in r.payments)
      && p.(amount := ParseAmount(text).value) in r.payments
      && r.(payments := []) == db.(payments := [])
  {
    hide ParseAmount, GoodSplits, GoodRows, GoodShares, GoodPayments, GoodExpenses, GoodReceipts;
    var amount := ParseAmount(text).value;
    SumOfSetAmount(db.payments, id, amount, worker);
    EachKeeps(db.payments, SetAmount(id, amount), PaymentId);
  }

  /** An edit is accepted exactly for an existing payment and a positive amount that is covered or confirmed. */
  lemma EditPaymentAccepted(db: DB, id: int, text: Option<string>, confirmed: bool, p: Payment)
    requires Inv(db) && p in db.payments
    ensures Step(db, EditPayment(p.id, text, confirmed)).outcome == Accepted <==>
            && ParseAmount(text).Some? && ParseAmount(text).value > 0
            && (ParseAmount(text).value <= Balance(db, p.worker) + p.amount || confirmed)
    ensures (forall q :: q in db.payments ==> q.id != id) ==>
              Step(db, EditPayment(id, text, confirmed)).outcome == Refused
  {
    hide ParseAmount, GoodSplits, GoodRows, GoodShares, GoodExpenses, GoodReceipts, Balance, Each, GoodIds, WorkerIds,
         ProjectIds;
    DistinctIds(db);
    FoundPayment(db, p);
  }

  lemma FoundPayment(db: DB, p: Payment)
    requires Distinct(Each(db.payments, PaymentId)) && p in db.payments
    ensures FindPayment(db.payments, p.id) == Some(p)
  {
    hide FindPayment;
    if FindPayment(db.payments, p.id).Some? {
      var q := FindPayment(db.payments, p.id).value;
      var i :| 0 <= i < |db.payments| && db.payments[i] == p;
      var j :| 0 <= j < |db.payments| && db.payments[j] == q;
      assert Each(db.payments, PaymentId)[i] == Each(db.payments, PaymentId)[j];
    }
  }

  /** Only the status of one project changes. */
  lemma SetStatusEffect(db: DB, id: int, code: Option<string>, p: Project)
    requires p in db.projects
    ensures
      var r := Step(db, SetStatus(id, code));
      && (r.outcome == Accepted <==> KnownStatus(code).Some?)
      && r.db.(projects := []) == db.(projects := [])
      && (if p.id == id && r.outcome == Accepted then p.(status := KnownStatus(code).value) else p) in r.db.projects
      && |r.db.projects| == |db.projects|
  {
    hide KnownStatus;
    if KnownStatus(code).Some? {
      EachKeeps(db.projects, SetStatusOf(id, KnownStatus(code).value), ProjectId);
    }
  }

  // ----- deleting -----

  /** Deleting a payment gives its amount back to its worker's balance, and changes nobody else's. */
  lemma DeletePaymentEffect(db: DB, p: Payment, worker: int)
    requires Inv(db) && p in db.payments
    ensures
      var r := Step(db, DeletePayment(p.id)).db;
      && Balance(r, worker) == Balance(db, worker) + (if worker == p.worker then p.amount else 0)
      && (forall q :: q in r.payments <==> q in db.payments && q != p)
      && r.(payments := []) == db.(payments := [])
  {
    hide GoodSplits, GoodRows, GoodShares, GoodPayments, GoodExpenses, GoodReceipts, GoodIds, SumOf, Where, Each;
    DistinctIds(db);
    SumOfWithout(db.payments, p, PaymentId, NotPayment(p.id), PaymentWorker, PaymentAmount, worker);
    OthersStay(db.payments, p, PaymentId, NotPayment(p.id));
  }

  /** Deleting an expense gives its amount back to what the shop keeps of its project, and of no other. */
  lemma DeleteExpenseEffect(db: DB, e: Expense, p: Project)
    requires Inv(db) && e in db.expenses
    ensures
      var r := Step(db, DeleteExpense(e.id)).db;
      && FinancialsOf(r, p).shopAfter == FinancialsOf(db, p).shopAfter + (if p.id == e.project then e.amount else 0)
      && (forall q :: q in r.expenses <==> q in db.expenses && q != e)
      && r.(expenses := []) == db.(expenses := [])
  {
    hide GoodSplits, GoodRows, GoodShares, GoodPayments, GoodExpenses, GoodReceipts, GoodIds, SumOf, Where, Each;
    DistinctIds(db);
    SumOfWithout(db.expenses, e, ExpenseId, NotExpense(e.id), ExpenseProject, ExpenseAmount, p.id);
    OthersStay(db.expenses, e, ExpenseId, NotExpense(e.id));
  }

  /** Deleting a receipt raises what its project's customer owes by its amount, and no other's. */
  lemma DeleteReceiptEffect(db: DB, c: Receipt, p: Project)
    requires Inv(db) && c in db.receipts
    ensures
      var r := Step(db, DeleteReceipt(c.id)).db;
      && FinancialsOf(r, p).customerBalance ==
         FinancialsOf(db, p).customerBalance + (if p.id == c.project then c.amount else 0)
      && (forall q :: q in r.receipts <==> q in db.receipts && q != c)
      && r.(receipts := []) == db.(receipts := [])
  {
    hide GoodSplits, GoodRows, GoodShares, GoodPayments, GoodExpenses, GoodReceipts, GoodIds, SumOf, Where, Each;
    DistinctIds(db);
    SumOfWithout(db.receipts, c, ReceiptId, NotReceipt(c.id), ReceiptProject, ReceiptAmount, p.id);
    OthersStay(db.receipts, c, ReceiptId, NotReceipt(c.id));
  }

  lemma DistinctIds(db: DB)
    requires Inv(db)
    ensures Distinct(Each(db.payments, PaymentId))
    ensures Distinct(Each(db.expenses, ExpenseId))
    ensures Distinct(Each(db.receipts, ReceiptId))
  {
    hide GoodSplits, GoodRows, GoodShares, GoodPayments, GoodExpenses, GoodReceipts, Each;
  }

  /** Deleting by id takes out that one row. */
  lemma OthersStay<T>(rows: seq<T>, r: T, id: T -> int, keep: T -> bool)
    requires Distinct(Each(rows, id)) && r in rows && forall x :: x in rows ==> (keep(x) <==> id(x) != id(r))
    ensures forall x :: x in Where(rows, keep) <==> x in rows && x != r
  {
    WhereMembers(rows, keep);
    forall x | x in rows && id(x) == id(r) ensures x == r {
      var i :| 0 <= i < |rows| && rows[i] == x;
      var j :| 0 <= j < |rows| && rows[j] == r;
      assert Each(rows, id)[i] == Each(rows, id)[j];
    }
  }

  // ----- undoing -----

  /** Deleting the row just appended leaves the table as it was. */
  lemma WhereUndoes<T>(rows: seq<T>, r: T, keep: T -> bool)
    requires !keep(r) && forall x :: x in rows ==> keep(x)
    ensures Where(rows + [r], keep) == rows
  {
    WhereAppend(rows, r, keep);
    WhereAll(rows, keep);
  }

  lemma IdsBelow<T>(rows: seq<T>, id: T -> int, next: int)
    requires GoodIds(Each(rows, id), next)
    ensures forall r :: r in rows ==> id(r) < next
  {
    EachMembers(rows, id);
    forall r | r in rows ensures id(r) < next {
      assert id(r) in Each(rows, id);
    }
  }

  lemma PaymentIdsBelow(db: DB)
    requires Inv(db)
    ensures forall p :: p in db.payments ==> p.id < db.next.payment
  {
    hide GoodSplits, GoodRows, GoodShares, GoodPayments, GoodExpenses, GoodReceipts, GoodIds;
    IdsBelow(db.payments, PaymentId, db.next.payment);
  }

  /** Entering a payment and deleting it restores every table; only its id stays used. */
  lemma DeleteUndoesPayment(db: DB, payee: PostedId, project: PostedId, text: Option<string>, confirmed: bool)
    requires Inv(db)
    ensures
      var r := Step(db, CreatePayment(payee, project, text, confirmed));
      r.outcome == Accepted ==>
        Step(r.db, DeletePayment(db.next.payment)).db == db.(next := db.next.(payment := db.next.payment + 1))
  {
    hide GoodSplits, GoodRows, GoodShares, GoodPayments, GoodExpenses, GoodReceipts, ParseAmount, Balance, GoodIds,
         WorkerIds, ProjectIds, Each, Where;
    var r := Step(db, CreatePayment(payee, project, text, confirmed));
    if r.outcome == Accepted {
      IdsBelow(db.payments, PaymentId, db.next.payment);
      WhereUndoes(db.payments, r.db.payments[|db.payments|], NotPayment(db.next.payment));
    }
  }

  lemma DeleteUndoesExpense(db: DB, project: PostedId, category: Option<string>, text: Option<string>)
    requires Inv(db)
    ensures
      var r := Step(db, CreateExpense(project, category, text));
      r.outcome == Accepted ==>
        Step(r.db, DeleteExpense(db.next.expense)).db == db.(next := db.next.(expense := db.next.expense + 1))
  {
    hide GoodSplits, GoodRows, GoodShares, GoodPayments, GoodExpenses, GoodReceipts, PositiveAmount, OrEmpty, GoodIds,
         WorkerIds, ProjectIds, Each, Where, Validate, InsertLines, ReadWorkerForm, Balance;
    var r := Step(db, CreateExpense(project, category, text));
    if r.outcome == Accepted {
      IdsBelow(db.expenses, ExpenseId, db.next.expense);
      WhereUndoes(db.expenses, r.db.expenses[|db.expenses|], NotExpense(db.next.expense));
    }
  }

  lemma DeleteUndoesReceipt(db: DB, project: PostedId, text: Option<string>)
    requires Inv(db)
    ensures
      var r := Step(db, CreateReceipt(project, text));
      r.outcome == Accepted ==>
        Step(r.db, DeleteReceipt(db.next.receipt)).db == db.(next := db.next.(receipt := db.next.receipt + 1))
  {
    hide GoodSplits, GoodRows, GoodShares, GoodPayments, GoodExpenses, GoodReceipts, ParseAmount, GoodIds,
         WorkerIds, ProjectIds, Each, Where;
    var r := Step(db, CreateReceipt(project, text));
    if r.outcome == Accepted {
      IdsBelow(db.receipts, ReceiptId, db.next.receipt);
      WhereUndoes(db.receipts, r.db.receipts[|db.receipts|], NotReceipt(db.next.receipt));
    }
  }

  lemma EachNothing<T>(rows: seq<T>, f: T -> T)
    requires forall r :: r in rows ==> f(r) == r
    ensures Each(rows, f) == rows
  {
    forall i | 0 <= i < |rows| ensures Each(rows, f)[i] == rows[i] {
      assert rows[i] in rows;
    }
  }

  /** No row of a good ledger refers to a project that is yet to come. */
  lemma NothingRefersTo(db: DB)
    requires Inv(db)
    ensures var id := db.next.project;
            && (forall p :: p in db.projects ==> p.id != id)
            && (forall s :: s in db.shares ==> s.project != id)
            && (forall p :: p in db.payments ==> p.project != Some(id))
            && (forall e :: e in db.expenses ==> e.project != id)
            && (forall c :: c in db.receipts ==> c.project != id)
  {
    hide GoodSplits, GoodRows;
    IdsBelow(db.projects, ProjectId, db.next.project);
  }

  /** Saving a new project and deleting it restores every table, shares included. */
  lemma DeleteUndoesProject(db: DB, form: Form)
    requires Inv(db)
    ensures
      var r := Step(db, CreateProject(form));
      r.outcome == Accepted ==>
        Step(r.db, DeleteProject(db.next.project)).db == db.(next := db.next.(project := db.next.project + 1))
  {
    hide Inv, Validate, InsertLines;
    var id := db.next.project;
    var r := Step(db, CreateProject(form));
    if r.outcome == Accepted {
      var d := Validate(form).value;
      NothingRefersTo(db);
      InsertLinesMeans(WorkerIds(db.workers), db.shares, id, d.lines);
      WhereUndoes(db.projects, FromDraft(id, d), NotProject(id));
      SharesUndone(db.shares, id, d.lines);
      EachNothing(db.payments, Detach(id));
      WhereAll(db.expenses, NotExpenseOf(id));
      WhereAll(db.receipts, NotReceiptOf(id));
    }
  }

  lemma {:induction false} SharesUndone(shares: seq<Share>, id: int, lines: seq<Line>)
    requires forall s :: s in shares ==> s.project != id
    ensures Where(shares + LineShares(id, lines), NotShareOf(id)) == shares
  {
    if lines == [] {
      assert shares + LineShares(id, lines) == shares;
      WhereAll(shares, NotShareOf(id));
    } else {
      var front, last := lines[..|lines| - 1], LineShare(id)(lines[|lines| - 1]);
      SharesUndone(shares, id, front);
      assert shares + LineShares(id, lines) == shares + LineShares(id, front) + [last];
      WhereAppend(shares + LineShares(id, front), last, NotShareOf(id));
    }
  }
}
