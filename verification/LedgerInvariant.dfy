/**
 What every reachable ledger satisfies: the constraints of payroll/schema.sql and the rules that
 `_save_project` checks, kept by every request, whatever the forms contain.
 */
module LedgerInvariant {
  import opened DateText
  import opened Ledger
  import opened ProjectForm
  import opened Rounding
  import opened Tables
  import opened Text

  // ----- the invariant, table by table -----

  /** Ids are distinct and below the counter. */
  predicate GoodIds(ids: seq<int>, next: int) {
    Distinct(ids) && forall i :: i in ids ==> i < next
  }

  predicate GoodWorker(w: Worker) {
    w.name != "" && w.name == Strip(w.name) && 0 <= w.defaultPercent <= WHOLE
  }

  /** The two stored dates belong together: reading the Jalali text gives both back. */
  predicate GoodProject(p: Project) {
    && p.name != "" && p.name == Strip(p.name)
    && p.labor >= 0 && p.customerTotal >= 0
    && ParseDateInput(p.dateJalali) == (p.dateJalali, p.dateIso)
  }

  function AsLine(s: Share): Line {
    Line(s.worker, s.mode, s.percent, s.amount)
  }

  /** The rows of one project agree with its labour amount and do not exceed it together. */
  predicate GoodSplit(p: Project, shares: seq<Share>) {
    && p.labor >= 0
    && SumOf(shares, ShareProject, ShareAmount, p.id) <= p.labor
    && forall s :: s in shares && s.project == p.id ==> SoundLine(AsLine(s), p.labor)
  }

  predicate GoodSplits(projects: seq<Project>, shares: seq<Share>) {
    forall p :: p in projects ==> GoodSplit(p, shares)
  }

  predicate GoodShares(shares: seq<Share>, workers: seq<int>, projects: seq<int>) {
    && Distinct(Each(shares, SharePair))
    && forall s :: s in shares ==> s.project in projects && s.worker in workers
  }

  predicate GoodPayments(payments: seq<Payment>, workers: seq<int>, projects: seq<int>) {
    forall p :: p in payments ==>
      p.amount > 0 && p.worker in workers && (p.project.Some? ==> p.project.value in projects)
  }

  predicate GoodExpenses(expenses: seq<Expense>, projects: seq<int>) {
    forall e :: e in expenses ==> e.amount > 0 && e.project in projects && e.category in EXPENSE_CATEGORIES
  }

  predicate GoodReceipts(receipts: seq<Receipt>, projects: seq<int>) {
    forall r :: r in receipts ==> r.amount > 0 && r.project in projects
  }

  predicate GoodRows(workers: seq<Worker>, projects: seq<Project>) {
    (forall w :: w in workers ==> GoodWorker(w)) && (forall p :: p in projects ==> GoodProject(p))
  }

  predicate AllGoodIds(db: DB) {
    && GoodIds(WorkerIds(db.workers), db.next.worker)
    && GoodIds(ProjectIds(db.projects), db.next.project)
    && GoodIds(Each(db.payments, PaymentId), db.next.payment)
    && GoodIds(Each(db.expenses, ExpenseId), db.next.expense)
    && GoodIds(Each(db.receipts, ReceiptId), db.next.receipt)
  }

  predicate Inv(db: DB) {
    && AllGoodIds(db)
    && GoodRows(db.workers, db.projects)
    && GoodShares(db.shares, WorkerIds(db.workers), ProjectIds(db.projects))
    && GoodSplits(db.projects, db.shares)
    && GoodPayments(db.payments, WorkerIds(db.workers), ProjectIds(db.projects))
    && GoodExpenses(db.expenses, ProjectIds(db.projects))
    && GoodReceipts(db.receipts, ProjectIds(db.projects))
  }

  // ----- ids under insertion, deletion and update -----

  lemma GoodIdsAppend<T>(rows: seq<T>, r: T, id: T -> int, next: int)
    requires GoodIds(Each(rows, id), next) && id(r) == next
    ensures GoodIds(Each(rows + [r], id), next + 1)
    ensures Each(rows + [r], id) == Each(rows, id) + [next]
  {
    assert Each(rows + [r], id) == Each(rows, id) + [next];
    assert forall i :: i in Each(rows, id) + [next] ==> i in Each(rows, id) || i == next;
    DistinctAppend(Each(rows, id), next);
  }

  lemma {:induction false} DistinctWhere<T, K>(rows: seq<T>, key: T -> K, keep: T -> bool)
    requires Distinct(Each(rows, key))
    ensures Distinct(Each(Where(rows, keep), key))
  {
    if rows != [] {
      var front, last := rows[..|rows| - 1], rows[|rows| - 1];
      assert Each(rows, key) == Each(front, key) + [key(last)];
      DistinctPrefix(Each(front, key), key(last));
      DistinctWhere(front, key, keep);
      if keep(last) {
        assert Each(Where(rows, keep), key) == Each(Where(front, keep), key) + [key(last)];
        EachWhereMembers(front, key, keep);
        DistinctAppend(Each(Where(front, keep), key), key(last));
      }
    }
  }

  lemma EachWhereMembers<T, K>(rows: seq<T>, key: T -> K, keep: T -> bool)
    ensures forall k :: k in Each(Where(rows, keep), key) ==> k in Each(rows, key)
    ensures forall k :: k in Each(Where(rows, keep), key) ==> exists r :: r in Where(rows, keep) && key(r) == k
    ensures forall r :: r in Where(rows, keep) ==> key(r) in Each(Where(rows, keep), key)
  {
    WhereMembers(rows, keep);
    EachMembers(Where(rows, keep), key);
    EachMembers(rows, key);
  }

  lemma EachMembers<T, K>(rows: seq<T>, key: T -> K)
    ensures forall k :: k in Each(rows, key) <==> exists r :: r in rows && key(r) == k
  {
    forall r | r in rows ensures key(r) in Each(rows, key) {
      var i :| 0 <= i < |rows| && rows[i] == r;
      assert Each(rows, key)[i] == key(r);
    }
  }

  lemma GoodIdsWhere<T>(rows: seq<T>, id: T -> int, next: int, keep: T -> bool)
    requires GoodIds(Each(rows, id), next)
    ensures GoodIds(Each(Where(rows, keep), id), next)
  {
    DistinctWhere(rows, id, keep);
    EachWhereMembers(rows, id, keep);
  }

  lemma EachKeeps<T, K>(rows: seq<T>, f: T -> T, key: T -> K)
    requires forall r :: r in rows ==> key(f(r)) == key(r)
    ensures Each(Each(rows, f), key) == Each(rows, key)
    ensures forall x :: x in Each(rows, f) <==> exists r :: r in rows && x == f(r)
  {
    forall i | 0 <= i < |rows| ensures Each(Each(rows, f), key)[i] == Each(rows, key)[i] {
      assert rows[i] in rows;
    }
    EachMembers(rows, f);
  }

  // ----- storing the rows of a project -----

  function LineShares(project: int, lines: seq<Line>): seq<Share> {
    Each(lines, LineShare(project))
  }

  function LineWorker(l: Line): int { l.wid }

  function LineWorkers(lines: seq<Line>): seq<int> {
    Each(lines, LineWorker)
  }

  /** Insertion succeeds exactly when every worker exists and none is named twice. */
  lemma {:induction false} InsertLinesMeans(workers: seq<int>, shares: seq<Share>, project: int, lines: seq<Line>)
    requires forall s :: s in shares ==> s.project != project
    ensures InsertLines(workers, shares, project, lines).Some? <==>
            Distinct(LineWorkers(lines)) && forall l :: l in lines ==> l.wid in workers
    ensures InsertLines(workers, shares, project, lines).Some? ==>
            InsertLines(workers, shares, project, lines).value == shares + LineShares(project, lines)
  {
    if lines == [] {
      assert shares + LineShares(project, lines) == shares;
    } else {
      var front, last := lines[..|lines| - 1], lines[|lines| - 1];
      assert lines == front + [last];
      InsertLinesMeans(workers, shares, project, front);
      assert LineWorkers(lines) == LineWorkers(front) + [last.wid];
      assert LineShares(project, lines) == LineShares(project, front) + [LineShare(project)(last)];
      if InsertLines(workers, shares, project, front).Some? {
        var t := shares + LineShares(project, front);
        NamedAlready(shares, project, front, last.wid);
        assert t + [LineShare(project)(last)] == shares + LineShares(project, lines);
        if last.wid !in LineWorkers(front) { DistinctAppend(LineWorkers(front), last.wid); }
      } else if Distinct(LineWorkers(lines)) {
        DistinctPrefix(LineWorkers(front), last.wid);
      }
    }
  }

  lemma NamedAlready(shares: seq<Share>, project: int, front: seq<Line>, wid: int)
    requires forall s :: s in shares ==> s.project != project
    ensures (exists s :: s in shares + LineShares(project, front) && s.project == project && s.worker == wid)
            <==> wid in LineWorkers(front)
  {
    EachMembers(front, LineShare(project));
    EachMembers(front, LineWorker);
    if wid in LineWorkers(front) {
      var i :| 0 <= i < |front| && LineWorkers(front)[i] == wid;
      assert LineShares(project, front)[i] in shares + LineShares(project, front);
    }
  }

  lemma {:induction false} LineSharesSum(project: int, lines: seq<Line>, q: int)
    ensures SumOf(LineShares(project, lines), ShareProject, ShareAmount, q) ==
            if q == project then ShareTotal(lines) else 0
  {
    if lines != [] {
      var front, last := lines[..|lines| - 1], lines[|lines| - 1];
      LineSharesSum(project, front, q);
      assert LineShares(project, lines) == LineShares(project, front) + [LineShare(project)(last)];
      SumOfAppend(LineShares(project, front), LineShare(project)(last), ShareProject, ShareAmount, q);
    }
  }

  /** The new rows keep the share table's keys. */
  lemma StoredSharesAreGood(shares: seq<Share>, workers: seq<int>, projects: seq<int>, project: int, lines: seq<Line>)
    requires GoodShares(shares, workers, projects) && project in projects
    requires forall s :: s in shares ==> s.project != project
    requires Distinct(LineWorkers(lines)) && forall l :: l in lines ==> l.wid in workers
    ensures GoodShares(shares + LineShares(project, lines), workers, projects)
  {
    var added := LineShares(project, lines);
    var all := shares + added;
    assert Each(all, SharePair) == Each(shares, SharePair) + Each(added, SharePair);
    forall i, j | 0 <= i < j < |all| ensures SharePair(all[i]) != SharePair(all[j]) {
      if j < |shares| {
        assert Each(shares, SharePair)[i] != Each(shares, SharePair)[j];
      } else if i < |shares| {
        assert shares[i] in shares;
      } else {
        assert LineWorkers(lines)[i - |shares|] != LineWorkers(lines)[j - |shares|];
      }
    }
    EachMembers(lines, LineShare(project));
  }

  /** The stored rows add up as validated, and other projects' rows are not touched. */
  lemma StoredSplit(p: Project, shares: seq<Share>, project: int, d: Draft)
    requires SoundDraft(d)
    requires forall s :: s in shares ==> s.project != project
    requires if p.id == project then p.labor == d.labor else GoodSplit(p, shares)
    ensures GoodSplit(p, shares + LineShares(project, d.lines))
  {
    hide SoundLine;
    var added := LineShares(project, d.lines);
    SumOfConcat(shares, added, ShareProject, ShareAmount, p.id);
    LineSharesSum(project, d.lines, p.id);
    forall s | s in added && s.project == p.id ensures SoundLine(AsLine(s), p.labor) {
      var i :| 0 <= i < |added| && added[i] == s;
      assert AsLine(s) == d.lines[i];
    }
    if p.id == project { SumOfNone(shares, ShareProject, ShareAmount, p.id); }
  }

  /** Taking rows of other projects away does not disturb a split. */
  lemma SplitSurvives(p: Project, shares: seq<Share>, keep: Share -> bool)
    requires GoodSplit(p, shares)
    requires forall s :: s in shares && s.project == p.id ==> keep(s)
    ensures GoodSplit(p, Where(shares, keep))
  {
    SumOfWhere(shares, ShareProject, ShareAmount, p.id, keep);
    WhereMembers(shares, keep);
  }

  // ----- every request keeps the invariant -----

  lemma ReadWorkerFormIsGood(name: Option<string>, percent: Option<string>, id: int, active: bool)
    requires ReadWorkerForm(name, percent).Some?
    ensures var f := ReadWorkerForm(name, percent).value; GoodWorker(Worker(id, f.0, f.1, active))
  {
    StripIdempotent(OrEmpty(name));
    PercentRange(Some(if OrEmpty(percent) == "" then "0" else OrEmpty(percent)));
  }

  lemma CreateWorkerKeeps(db: DB, name: Option<string>, percent: Option<string>, active: bool)
    requires Inv(db)
    ensures Inv(StepCreateWorker(db, name, percent, active).db)
  {
    hide ReadWorkerForm, GoodWorker, GoodProject, GoodSplits;
    if ReadWorkerForm(name, percent).Some? {
      var f := ReadWorkerForm(name, percent).value;
      var w := Worker(db.next.worker, f.0, f.1, active);
      ReadWorkerFormIsGood(name, percent, w.id, active);
      GoodIdsAppend(db.workers, w, WorkerId, db.next.worker);
    }
  }

  lemma EditWorkerKeeps(db: DB, id: int, name: Option<string>, percent: Option<string>, active: bool)
    requires Inv(db)
    ensures Inv(StepEditWorker(db, id, name, percent, active).db)
  {
    hide ReadWorkerForm, GoodWorker, GoodProject, GoodSplits;
    if ReadWorkerForm(name, percent).Some? {
      var f := ReadWorkerForm(name, percent).value;
      ReadWorkerFormIsGood(name, percent, id, active);
      EachKeeps(db.workers, SetWorker(id, f.0, f.1, active), WorkerId);
    }
  }

  lemma WorkerIdsWithout(db: DB, id: int)
    requires Inv(db)
    ensures var ws := Where(db.workers, NotWorker(id));
            && GoodIds(WorkerIds(ws), db.next.worker)
            && forall i :: i in WorkerIds(ws) <==> i in WorkerIds(db.workers) && i != id
  {
    hide GoodRows, GoodShares, GoodSplits, GoodPayments, GoodExpenses, GoodReceipts;
    GoodIdsWhere(db.workers, WorkerId, db.next.worker, NotWorker(id));
    EachWhereMembers(db.workers, WorkerId, NotWorker(id));
    EachMembers(db.workers, WorkerId);
    WhereMembers(db.workers, NotWorker(id));
  }

  lemma DeleteWorkerKeeps(db: DB, id: int)
    requires Inv(db)
    ensures Inv(StepDeleteWorker(db, id).db)
  {
    hide GoodWorker, GoodProject, GoodSplits, WorkerIds, ProjectIds, GoodIds;
    if !HasShares(db, id) {
      WorkerIdsWithout(db, id);
      WhereAll(db.shares, NotShareBy(id));
      GoodIdsWhere(db.payments, PaymentId, db.next.payment, NotPaidTo(id));
      WhereMembers(db.workers, NotWorker(id));
      WhereMembers(db.payments, NotPaidTo(id));
    }
  }

  lemma CreateProjectKeeps(db: DB, form: Form)
    requires Inv(db)
    ensures Inv(StepCreateProject(db, form).db)
  {
    hide Validate, SoundDraft, InsertLines, GoodWorker, GoodSplit, GoodProject, GoodShares;
    if Validate(form).Some? {
      var d, id := Validate(form).value, db.next.project;
      DraftIsSound(form);
      NoSharesYet(db);
      InsertLinesMeans(WorkerIds(db.workers), db.shares, id, d.lines);
      if InsertLines(WorkerIds(db.workers), db.shares, id, d.lines).Some? {
        GoodIdsAppend(db.projects, FromDraft(id, d), ProjectId, id);
        GoodFromDraft(id, d);
        SharesOfMoreProjects(db.shares, WorkerIds(db.workers), ProjectIds(db.projects), id);
        StoredSharesAreGood(db.shares, WorkerIds(db.workers), ProjectIds(db.projects) + [id], id, d.lines);
        forall p | p in db.projects + [FromDraft(id, d)] ensures GoodSplit(p, db.shares + LineShares(id, d.lines)) {
          if p in db.projects {
            EachMembers(db.projects, ProjectId);
            assert p.id in ProjectIds(db.projects);
          } else {
            assert p == FromDraft(id, d);
          }
          StoredSplit(p, db.shares, id, d);
        }
      }
    }
  }

  /** A form can be stored: every named worker exists and none is named twice. */
  predicate Storable(db: DB, d: Draft) {
    Distinct(LineWorkers(d.lines)) && forall l :: l in d.lines ==> l.wid in WorkerIds(db.workers)
  }

  /**
   Saving is refused exactly when the form has an error, and otherwise fails exactly when a worker is
   posted twice or no longer exists.
   */
  lemma SaveOutcome(db: DB, id: int, form: Form)
    requires Inv(db)
    ensures var create := StepCreateProject(db, form).outcome;
            && (create == Refused <==> Validate(form) == None)
            && (create == Failed <==> Validate(form).Some? && !Storable(db, Validate(form).value))
    ensures var edit := StepEditProject(db, id, form).outcome;
            && (edit == Refused <==> id !in ProjectIds(db.projects) || Validate(form) == None)
            && (edit == Failed <==> id in ProjectIds(db.projects) && Validate(form).Some? &&
                                    !Storable(db, Validate(form).value))
  {
    hide Validate, InsertLines, Inv;
    if Validate(form).Some? {
      var d := Validate(form).value;
      NoSharesYet(db);
      InsertLinesMeans(WorkerIds(db.workers), db.shares, db.next.project, d.lines);
      WhereMembers(db.shares, NotShareOf(id));
      InsertLinesMeans(WorkerIds(db.workers), Where(db.shares, NotShareOf(id)), id, d.lines);
    }
  }

  lemma NoSharesYet(db: DB)
    requires Inv(db)
    ensures forall s :: s in db.shares ==> s.project != db.next.project
  {
    hide GoodSplits, GoodRows;
  }

  lemma SharesOfMoreProjects(shares: seq<Share>, workers: seq<int>, projects: seq<int>, id: int)
    requires GoodShares(shares, workers, projects)
    ensures GoodShares(shares, workers, projects + [id])
  {
  }

  lemma GoodFromDraft(id: int, d: Draft)
    requires SoundDraft(d)
    ensures GoodProject(FromDraft(id, d))
  {
  }

  lemma SharesWithout(shares: seq<Share>, workers: seq<int>, projects: seq<int>, keep: Share -> bool)
    requires GoodShares(shares, workers, projects)
    ensures GoodShares(Where(shares, keep), workers, projects)
  {
    DistinctWhere(shares, SharePair, keep);
    WhereMembers(shares, keep);
  }

  lemma EditProjectKeeps(db: DB, id: int, form: Form)
    requires Inv(db)
    ensures Inv(StepEditProject(db, id, form).db)
  {
    hide Validate, SoundDraft, InsertLines, GoodWorker, GoodSplit, GoodProject, GoodShares;
    if id in ProjectIds(db.projects) && Validate(form).Some? {
      var d := Validate(form).value;
      var rest := Where(db.shares, NotShareOf(id));
      DraftIsSound(form);
      WhereMembers(db.shares, NotShareOf(id));
      InsertLinesMeans(WorkerIds(db.workers), rest, id, d.lines);
      if InsertLines(WorkerIds(db.workers), rest, id, d.lines).Some? {
        EachKeeps(db.projects, SetDraft(id, d), ProjectId);
        GoodFromDraft(id, d);
        SharesWithout(db.shares, WorkerIds(db.workers), ProjectIds(db.projects), NotShareOf(id));
        StoredSharesAreGood(rest, WorkerIds(db.workers), ProjectIds(db.projects), id, d.lines);
        forall p | p in Each(db.projects, SetDraft(id, d)) ensures GoodSplit(p, rest + LineShares(id, d.lines)) {
          var q :| q in db.projects && p == SetDraft(id, d)(q);
          if q.id != id { SplitSurvives(q, db.shares, NotShareOf(id)); }
          StoredSplit(p, rest, id, d);
        }
      }
    }
  }

  lemma SetStatusKeeps(db: DB, id: int, code: Option<string>)
    requires Inv(db)
    ensures Inv(StepSetStatus(db, id, code).db)
  {
    hide KnownStatus, SoundLine, GoodShares, GoodWorker;
    if KnownStatus(code).Some? {
      var f := SetStatusOf(id, KnownStatus(code).value);
      EachKeeps(db.projects, f, ProjectId);
      forall p | p in Each(db.projects, f) ensures GoodSplit(p, db.shares) && GoodProject(p) {
        var q :| q in db.projects && p == f(q);
        assert GoodSplit(q, db.shares) && GoodProject(q);
      }
    }
  }

  /** The ids left after a deletion are all but the deleted one. */
  lemma ProjectIdsWithout(db: DB, id: int)
    requires Inv(db)
    ensures var ps := Where(db.projects, NotProject(id));
            && GoodIds(ProjectIds(ps), db.next.project)
            && forall i :: i in ProjectIds(ps) <==> i in ProjectIds(db.projects) && i != id
  {
    hide GoodRows, GoodShares, GoodSplits, GoodPayments, GoodExpenses, GoodReceipts;
    GoodIdsWhere(db.projects, ProjectId, db.next.project, NotProject(id));
    EachWhereMembers(db.projects, ProjectId, NotProject(id));
    EachMembers(db.projects, ProjectId);
    WhereMembers(db.projects, NotProject(id));
  }

  lemma DependentsWithout(db: DB, id: int)
    requires Inv(db)
    ensures var ids := ProjectIds(Where(db.projects, NotProject(id)));
            && GoodShares(Where(db.shares, NotShareOf(id)), WorkerIds(db.workers), ids)
            && GoodExpenses(Where(db.expenses, NotExpenseOf(id)), ids)
            && GoodReceipts(Where(db.receipts, NotReceiptOf(id)), ids)
            && GoodPayments(Each(db.payments, Detach(id)), WorkerIds(db.workers), ids)
  {
    hide GoodSplits, GoodRows, WorkerIds, GoodIds;
    ProjectIdsWithout(db, id);
    var ids := ProjectIds(Where(db.projects, NotProject(id)));
    SharesWithout(db.shares, WorkerIds(db.workers), ProjectIds(db.projects), NotShareOf(id));
    WhereMembers(db.shares, NotShareOf(id));
    WhereMembers(db.expenses, NotExpenseOf(id));
    WhereMembers(db.receipts, NotReceiptOf(id));
    EachKeeps(db.payments, Detach(id), PaymentId);
    forall p | p in Each(db.payments, Detach(id))
      ensures p.amount > 0 && p.worker in WorkerIds(db.workers) && (p.project.Some? ==> p.project.value in ids)
    {
      var q :| q in db.payments && p == Detach(id)(q);
    }
  }

  lemma DeleteProjectKeeps(db: DB, id: int)
    requires Inv(db)
    ensures Inv(StepDeleteProject(db, id).db)
  {
    hide GoodSplit, GoodProject, GoodWorker, GoodShares, GoodPayments, GoodExpenses, GoodReceipts;
    ProjectIdsWithout(db, id);
    DependentsWithout(db, id);
    WhereMembers(db.projects, NotProject(id));
    forall p | p in Where(db.projects, NotProject(id)) ensures GoodSplit(p, Where(db.shares, NotShareOf(id))) {
      SplitSurvives(p, db.shares, NotShareOf(id));
    }
    EachKeeps(db.payments, Detach(id), PaymentId);
    GoodIdsWhere(db.expenses, ExpenseId, db.next.expense, NotExpenseOf(id));
    GoodIdsWhere(db.receipts, ReceiptId, db.next.receipt, NotReceiptOf(id));
  }

  lemma AddPaymentKeeps(db: DB, worker: int, project: Option<int>, amount: int)
    requires Inv(db) && amount > 0
    ensures Inv(AddPayment(db, worker, project, amount).db)
  {
    hide GoodSplits, GoodRows, GoodShares;
    GoodIdsAppend(db.payments, Payment(db.next.payment, worker, project, amount), PaymentId, db.next.payment);
  }

  lemma EditPaymentKeeps(db: DB, id: int, text: Option<string>, confirmed: bool)
    requires Inv(db)
    ensures Inv(StepEditPayment(db, id, text, confirmed).db)
  {
    hide GoodSplits, GoodRows, GoodShares, GoodExpenses, GoodReceipts, Balance, PositiveAmount;
    var amount := PositiveAmount(text);
    if amount.Some? {
      EachKeeps(db.payments, SetAmount(id, amount.value), PaymentId);
    }
  }

  lemma RemainingKeep(db: DB, id: int)
    requires Inv(db)
    ensures Inv(StepDeletePayment(db, id).db)
    ensures Inv(StepDeleteExpense(db, id).db)
    ensures Inv(StepDeleteReceipt(db, id).db)
  {
    hide GoodSplits, GoodRows, GoodShares;
    GoodIdsWhere(db.payments, PaymentId, db.next.payment, NotPayment(id));
    WhereMembers(db.payments, NotPayment(id));
    GoodIdsWhere(db.expenses, ExpenseId, db.next.expense, NotExpense(id));
    WhereMembers(db.expenses, NotExpense(id));
    GoodIdsWhere(db.receipts, ReceiptId, db.next.receipt, NotReceipt(id));
    WhereMembers(db.receipts, NotReceipt(id));
  }

  lemma CreateExpenseKeeps(db: DB, project: PostedId, category: Option<string>, text: Option<string>)
    requires Inv(db)
    ensures Inv(StepCreateExpense(db, project, category, text).db)
  {
    hide GoodSplits, GoodRows, GoodShares, GoodPayments, GoodReceipts, PositiveAmount, OrEmpty;
    if project.Id? && PositiveAmount(text).Some? {
      GoodIdsAppend(db.expenses, Expense(db.next.expense, project.id, OrEmpty(category), PositiveAmount(text).value),
                    ExpenseId, db.next.expense);
    }
  }

  lemma CreateReceiptKeeps(db: DB, project: PostedId, text: Option<string>)
    requires Inv(db)
    ensures Inv(StepCreateReceipt(db, project, text).db)
  {
    hide GoodSplits, GoodRows, GoodShares, GoodPayments, GoodExpenses, PositiveAmount;
    if project.Id? && PositiveAmount(text).Some? {
      GoodIdsAppend(db.receipts, Receipt(db.next.receipt, project.id, PositiveAmount(text).value),
                    ReceiptId, db.next.receipt);
    }
  }

  lemma PaymentStepsKeep(db: DB, req: Request)
    requires Inv(db) && (req.CreatePayment? || req.EditPayment? || req.DeletePayment? || req.SettleAll?)
    ensures Inv(Step(db, req).db)
  {
    hide Inv, StepEditPayment, StepDeletePayment, AddPayment, Balance, PositiveAmount;
    match req
    case CreatePayment(payee, project, text, confirmed) =>
      if payee.Id? && PositiveAmount(text).Some? && project != Malformed {
        AddPaymentKeeps(db, payee.id, if project == Absent then None else Some(project.id), PositiveAmount(text).value);
      }
    case EditPayment(id, text, confirmed) => EditPaymentKeeps(db, id, text, confirmed);
    case DeletePayment(id) => RemainingKeep(db, id);
    case SettleAll(worker) =>
      if Balance(db, worker) > 0 { AddPaymentKeeps(db, worker, None, Balance(db, worker)); }
  }

  lemma StepKeeps(db: DB, req: Request)
    requires Inv(db)
    ensures Inv(Step(db, req).db)
  {
    hide Inv, StepCreateWorker, StepEditWorker, StepDeleteWorker, StepCreateProject, StepEditProject, StepSetStatus,
         StepDeleteProject, StepCreatePayment, StepEditPayment, StepDeletePayment, StepSettleAll, StepCreateExpense,
         StepDeleteExpense, StepCreateReceipt, StepDeleteReceipt;
    match req
    case CreateWorker(name, percent, active) => CreateWorkerKeeps(db, name, percent, active);
    case EditWorker(id, name, percent, active) => EditWorkerKeeps(db, id, name, percent, active);
    case DeleteWorker(id) => DeleteWorkerKeeps(db, id);
    case CreateProject(form) => CreateProjectKeeps(db, form);
    case EditProject(id, form) => EditProjectKeeps(db, id, form);
    case SetStatus(id, code) => SetStatusKeeps(db, id, code);
    case DeleteProject(id) => DeleteProjectKeeps(db, id);
    case CreateExpense(project, category, text) => CreateExpenseKeeps(db, project, category, text);
    case DeleteExpense(id) => RemainingKeep(db, id);
    case CreateReceipt(project, text) => CreateReceiptKeeps(db, project, text);
    case DeleteReceipt(id) => RemainingKeep(db, id);
    case _ => PaymentStepsKeep(db, req);
  }

  /** A refused or failed request changes nothing. */
  lemma RefusalChangesNothing(db: DB, req: Request)
    ensures Step(db, req).outcome != Accepted ==> Step(db, req).db == db
  {
    hide Validate, InsertLines, Balance, Each, Where, WorkerIds, ProjectIds, PositiveAmount, ReadWorkerForm,
         KnownStatus, HasShares, FromDraft, OrEmpty;
  }

  /** Every ledger that requests can lead to, from the empty one, satisfies the invariant. */
  lemma {:induction false} ReachableLedgersAreGood(reqs: seq<Request>)
    ensures Inv(Run(EMPTY, reqs))
  {
    hide Inv, Step;
    if reqs == [] {
      EmptyIsGood();
    } else {
      ReachableLedgersAreGood(reqs[..|reqs| - 1]);
      StepKeeps(Run(EMPTY, reqs[..|reqs| - 1]), reqs[|reqs| - 1]);
    }
  }

  lemma EmptyIsGood()
    ensures Inv(EMPTY)
  {
  }
}
