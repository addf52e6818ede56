/**
 The database the blueprints write to, as an object that requests update in place. Every request is a
 method: it takes the branches of the blueprint, changes the tables the way its statements do, and is
 proved to take the ledger exactly where the step of module `Ledger` says, keeping the invariant. The
 loops and the transaction of saving a project are methods of their own.
 */
module LedgerStore {
  import opened Balances
  import opened DateText
  import opened Effects
  import opened Ledger
  import opened LedgerInvariant
  import opened MoneyText
  import opened ProjectForm
  import opened Queries
  import opened Shares
  import opened Tables
  import opened Text

  class Store {
    var workers: seq<Worker>
    var projects: seq<Project>
    var shares: seq<Share>
    var payments: seq<Payment>
    var expenses: seq<Expense>
    var receipts: seq<Receipt>
    var next: Counters

    /** The contents of all tables. */
    function Contents(): DB
      reads this
    {
      DB(workers, projects, shares, payments, expenses, receipts, next)
    }

    /** Between requests the tables satisfy the constraints of the schema and the rules of the forms. */
    ghost predicate Valid()
      reads this
    {
      Inv(Contents())
    }

    constructor ()
      ensures Valid() && Contents() == EMPTY
    {
      workers, projects, shares, payments, expenses, receipts := [], [], [], [], [], [];
      next := Counters(1, 1, 1, 1, 1);
      new;
      EmptyIsGood();
    }

    // ----- workers -----

    method CreateWorker(name: Option<string>, percent: Option<string>, active: bool) returns (outcome: Outcome)
      requires Valid()
      modifies this
      ensures Valid()
      ensures Result(Contents(), outcome) == Step(old(Contents()), Request.CreateWorker(name, percent, active))
    {
      hide Inv, ReadWorkerForm;
      StepKeeps(Contents(), Request.CreateWorker(name, percent, active));
      var form := ReadWorkerForm(name, percent);
      if form == None {
        return Refused;
      }
      workers := workers + [Worker(next.worker, form.value.0, form.value.1, active)];
      next := next.(worker := next.worker + 1);
      return Accepted;
    }

    method EditWorker(id: int, name: Option<string>, percent: Option<string>, active: bool) returns (outcome: Outcome)
      requires Valid()
      modifies this
      ensures Valid()
      ensures Result(Contents(), outcome) == Step(old(Contents()), Request.EditWorker(id, name, percent, active))
    {
      hide Inv, ReadWorkerForm, WorkerIds;
      StepKeeps(Contents(), Request.EditWorker(id, name, percent, active));
      if id !in WorkerIds(workers) {
        return Refused;
      }
      var form := ReadWorkerForm(name, percent);
      if form == None {
        return Refused;
      }
      workers := Each(workers, SetWorker(id, form.value.0, form.value.1, active));
      return Accepted;
    }

    method DeleteWorker(id: int) returns (outcome: Outcome)
      requires Valid()
      modifies this
      ensures Valid()
      ensures Result(Contents(), outcome) == Step(old(Contents()), Request.DeleteWorker(id))
    {
      hide Inv;
      StepKeeps(Contents(), Request.DeleteWorker(id));
      var used := 0;
      for i := 0 to |shares|
        invariant used > 0 <==> exists k :: 0 <= k < i && shares[k].worker == id
        invariant used >= 0
      {
        if shares[i].worker == id {
          used := used + 1;
        }
      }
      assert used > 0 <==> HasShares(Contents(), id);
      if used != 0 {
        return Refused;
      }
      workers := Where(workers, NotWorker(id));
      shares := Where(shares, NotShareBy(id));
      payments := Where(payments, NotPaidTo(id));
      return Accepted;
    }

    // ----- projects -----

    /**
     The reading loop of `_save_project`: rows that name a worker and can be read are chosen, and an
     error is noted for each that cannot.
     */
    method ChooseWorkers(inputs: seq<WorkerInput>) returns (chosen: seq<Row>, errors: nat)
      ensures errors == 0 <==> AllReadable(inputs)
      ensures chosen == ReadRows(inputs)
    {
      hide ParseAmount, ParsePercent, ParseMode;
      chosen, errors := [], 0;
      for i := 0 to |inputs|
        invariant chosen == ReadRows(inputs[..i])
        invariant errors == 0 <==> AllReadable(inputs[..i])
      {
        var w := inputs[i];
        ReadOneMore(inputs, i);
        if w.wid == None {
          continue;
        }
        if ParseMode(w.mode) == FixedMode {
          var amount := ParseAmount(w.amount);
          if amount == None {
            errors := errors + 1;
            continue;
          }
          chosen := chosen + [Row(w.wid.value, FixedMode, None, amount)];
        } else {
          var percent := ParsePercent(w.percent);
          if percent == None {
            errors := errors + 1;
            continue;
          }
          chosen := chosen + [Row(w.wid.value, PercentMode, percent, None)];
        }
      }
      assert inputs[..|inputs|] == inputs;
    }

    /** The second loop: the missing half of every chosen row is filled in, row by row in place. */
    method FillRows(chosen: array<Row>, labor: nat) returns (totalShare: int)
      requires forall i :: 0 <= i < chosen.Length ==> HalfRead(chosen[i])
      modifies chosen
      ensures forall i :: 0 <= i < chosen.Length ==> Filled(chosen[i], Fill(old(chosen[i]), labor))
      ensures totalShare == ShareTotal(FillAll(old(chosen[..]), labor))
    {
      totalShare := 0;
      ghost var before := chosen[..];
      for i := 0 to chosen.Length
        invariant forall k :: 0 <= k < i ==> Filled(chosen[k], Fill(before[k], labor))
        invariant forall k :: i <= k < chosen.Length ==> chosen[k] == before[k]
        invariant totalShare == ShareTotal(FillAll(before[..i], labor))
      {
        var row := chosen[i];
        if row.mode == FixedMode {
          chosen[i] := row.(percent := Some(EquivalentPercent(row.share.value, labor)));
        } else {
          chosen[i] := row.(share := Some(WorkerShare(labor, row.percent.value)));
        }
        totalShare := totalShare + chosen[i].share.value;
        assert FillAll(before[..i + 1], labor)[..i] == FillAll(before[..i], labor);
      }
      assert before[..chosen.Length] == before;
    }

    /** Inserting the rows one after the other; false when a constraint stops it. */
    method InsertRows(project: int, chosen: array<Row>, ghost lines: seq<Line>) returns (ok: bool)
      requires chosen.Length == |lines| && forall i :: 0 <= i < |lines| ==> Filled(chosen[i], lines[i])
      modifies this`shares
      ensures var t := InsertLines(WorkerIds(workers), old(shares), project, lines);
              ok == t.Some? && (ok ==> shares == t.value)
    {
      ghost var before := shares;
      ok := true;
      for i := 0 to chosen.Length
        invariant ok && InsertLines(WorkerIds(workers), before, project, lines[..i]) == Some(shares)
      {
        InsertOneMore(WorkerIds(workers), before, project, lines, i);
        var row := chosen[i];
        var share := Share(project, row.wid, row.mode, row.percent.value, row.share.value);
        if row.wid !in WorkerIds(workers) || exists s :: s in shares && s.project == project && s.worker == row.wid {
          InsertStopped(WorkerIds(workers), before, project, lines, i + 1);
          return false;
        }
        shares := shares + [share];
      }
      assert lines[..|lines|] == lines;
    }

    /**
     The transaction of `_save_project`: write the project row, delete its old shares and insert the
     new ones. An exception while inserting rolls everything back.
     */
    method WriteProject(id: Option<int>, row: Project, rows: array<Row>, ghost d: Draft) returns (outcome: Outcome)
      requires row == FromDraft(if id == None then next.project else id.value, d)
      requires rows.Length == |d.lines| && forall i :: 0 <= i < |d.lines| ==> Filled(rows[i], d.lines[i])
      modifies this
      ensures Result(Contents(), outcome) ==
              if id == None then StoreNew(old(Contents()), d) else StoreOver(old(Contents()), id.value, d)
    {
      hide InsertLines, WorkerIds, Each, Where, Filled;
      var savedProjects, savedShares, savedNext := projects, shares, next;
      if id == None {
        projects := projects + [row];
        next := next.(project := next.project + 1);
      } else {
        SameReplacement(projects, row, d);
        projects := Each(projects, ReplaceProject(row));
        shares := Where(shares, NotShareOf(id.value));
      }
      var ok := InsertRows(row.id, rows, d.lines);
      if !ok {
        projects, shares, next := savedProjects, savedShares, savedNext;
        return Failed;
      }
      return Accepted;
    }

    /**
     `_save_project` for a new project (id None) or an existing one: read, check, fill, check the
     total, then write.
     */
    method SaveProject(id: Option<int>, form: Form) returns (outcome: Outcome)
      requires Valid()
      requires id.Some? ==> id.value in ProjectIds(projects)
      modifies this
      ensures Valid()
      ensures Result(Contents(), outcome) ==
              if id == None then Step(old(Contents()), Request.CreateProject(form))
              else Step(old(Contents()), Request.EditProject(id.value, form))
    {
      hide Inv, ParseAmount, ParseDateInput, Strip, KnownStatus, AllReadable, ReadRows, ProjectIds, Fill, ShareTotal,
           StoreNew, StoreOver;
      StepKeeps(Contents(), if id == None then Request.CreateProject(form) else Request.EditProject(id.value, form));
      var name := Strip(OrEmpty(form.name));
      var labor := ParseAmount(form.labor);
      var customerTotal := ParseAmount(form.customerTotal);
      if customerTotal == None {
        customerTotal := if labor != None then labor else Some(0);
      }
      var date := ParseDateInput(form.date);
      var chosen, errors := ChooseWorkers(form.workers);
      if name == "" {
        errors := errors + 1;
      }
      if labor == None {
        errors := errors + 1;
      }
      var status := ParseStatus(form.status);
      var rows := new Row[|chosen|](i requires 0 <= i < |chosen| => chosen[i]);
      assert rows[..] == chosen;
      if labor != None {
        ChosenAreHalfRead(form.workers);
        var totalShare := FillRows(rows, labor.value);
        if totalShare > labor.value {
          errors := errors + 1;
        }
      }
      if errors > 0 {
        assert Validate(form) == None;
        return Refused;
      }
      ghost var lines := FillAll(chosen, labor.value);
      ghost var draft := Draft(name, status, labor.value, customerTotal.value, date.0, date.1, lines);
      assert Validate(form) == Some(draft);
      var projectId := if id == None then next.project else id.value;
      var row := Project(projectId, name, labor.value, customerTotal.value, date.0, date.1, status);
      outcome := WriteProject(id, row, rows, draft);
    }

    method EditProject(id: int, form: Form) returns (outcome: Outcome)
      requires Valid()
      modifies this
      ensures Valid()
      ensures Result(Contents(), outcome) == Step(old(Contents()), Request.EditProject(id, form))
    {
      hide Inv;
      StepKeeps(Contents(), Request.EditProject(id, form));
      if id !in ProjectIds(projects) {
        return Refused;
      }
      outcome := SaveProject(Some(id), form);
    }

    /** Only a known code is stored, on that project alone. */
    method SetStatus(id: int, code: Option<string>) returns (outcome: Outcome)
      requires Valid()
      modifies `projects
      ensures Valid()
      ensures Result(Contents(), outcome) == Step(old(Contents()), Request.SetStatus(id, code))
      ensures outcome == Accepted <==> KnownStatus(code).Some?
      ensures outcome == Accepted ==> forall p :: p in projects && p.id == id ==> Some(p.status) == KnownStatus(code)
      ensures forall p: Project :: p.id != id ==> (p in projects <==> p in old(projects))
      ensures ProjectIds(projects) == old(ProjectIds(projects))
    {
      hide Inv, KnownStatus;
      StepKeeps(Contents(), Request.SetStatus(id, code));
      var status := KnownStatus(code);
      if status == None {
        return Refused;
      }
      EachKeeps(projects, SetStatusOf(id, status.value), ProjectId);
      projects := Each(projects, SetStatusOf(id, status.value));
      return Accepted;
    }

    method DeleteProject(id: int) returns (outcome: Outcome)
      requires Valid()
      modifies `projects, `shares, `expenses, `receipts, `payments
      ensures Valid()
      ensures Result(Contents(), outcome) == Step(old(Contents()), Request.DeleteProject(id))
      ensures forall p :: p in projects <==> p in old(projects) && p.id != id
      ensures forall s :: s in shares <==> s in old(shares) && s.project != id
      ensures forall e :: e in expenses <==> e in old(expenses) && e.project != id
      ensures forall c :: c in receipts <==> c in old(receipts) && c.project != id
      ensures |payments| == |old(payments)| && forall i :: 0 <= i < |payments| ==>
                var p := old(payments)[i];
                payments[i] == if p.project == Some(id) then Payment(p.id, p.worker, None, p.amount) else p
      ensures forall p: Project :: p.id != id ==> FinancialsOf(Contents(), p) == old(FinancialsOf(Contents(), p))
      ensures forall w: int :: Balance(Contents(), w) == old(Balance(Contents(), w)) - old(ShareOf(Contents(), id, w))
    {
      hide Inv;
      StepKeeps(Contents(), Request.DeleteProject(id));
      ghost var before := Contents();
      projects := Where(projects, NotProject(id));
      shares := Where(shares, NotShareOf(id));
      expenses := Where(expenses, NotExpenseOf(id));
      receipts := Where(receipts, NotReceiptOf(id));
      payments := Each(payments, Detach(id));
      DeleteProjectScope(before, id, id);
      forall w: int ensures Balance(Contents(), w) == Balance(before, w) - ShareOf(before, id, w) {
        DeleteProjectEffect(before, id, w);
      }
      DeleteProjectPayments(before, id, None);
      forall p: Project | p.id != id ensures FinancialsOf(Contents(), p) == FinancialsOf(before, p) {
        DeleteProjectPages(before, id, p);
      }
      return Accepted;
    }

    // ----- payments -----

    /** The INSERT of a payment with its two foreign keys. */
    method InsertPayment(worker: int, project: Option<int>, amount: int) returns (outcome: Outcome)
      requires Valid() && amount > 0
      modifies `payments, `next
      ensures Valid()
      ensures Result(Contents(), outcome) == AddPayment(old(Contents()), worker, project, amount)
      ensures outcome == Accepted <==>
              worker in WorkerIds(workers) && (project.Some? ==> project.value in ProjectIds(projects))
      ensures outcome != Accepted ==> Contents() == old(Contents())
      ensures outcome == Accepted ==>
                && payments == old(payments) + [Payment(old(next.payment), worker, project, amount)]
                && forall p :: p in old(payments) ==> p.id != old(next.payment)
      ensures outcome == Accepted ==> forall w: int ::
                Balance(Contents(), w) == old(Balance(Contents(), w)) - if w == worker then amount else 0
    {
      hide Inv, WorkerIds, ProjectIds;
      AddPaymentKeeps(Contents(), worker, project, amount);
      PaymentIdsBelow(Contents());
      if worker !in WorkerIds(workers) || (project.Some? && project.value !in ProjectIds(projects)) {
        return Failed;
      }
      payments := payments + [Payment(next.payment, worker, project, amount)];
      next := next.(payment := next.payment + 1);
      return Accepted;
    }

    method CreatePayment(payee: PostedId, project: PostedId, text: Option<string>, confirmed: bool)
      returns (outcome: Outcome)
      requires Valid()
      modifies this
      ensures Valid()
      ensures Result(Contents(), outcome) ==
              Step(old(Contents()), Request.CreatePayment(payee, project, text, confirmed))
    {
      hide Inv, ParseAmount, AddPayment, Balance;
      StepKeeps(Contents(), Request.CreatePayment(payee, project, text, confirmed));
      var amount := ParseAmount(text);
      if payee == Absent {
        return Refused;
      }
      if amount == None || amount.value <= 0 {
        return Refused;
      }
      if payee == Malformed {
        return Failed;
      }
      var balance := Balance(Contents(), payee.id);
      if amount.value > balance && !confirmed {
        return Refused;
      }
      if project == Malformed {
        return Failed;
      }
      outcome := InsertPayment(payee.id, if project == Absent then None else Some(project.id), amount.value);
    }

    method EditPayment(id: int, text: Option<string>, confirmed: bool) returns (outcome: Outcome)
      requires Valid()
      modifies this
      ensures Valid()
      ensures Result(Contents(), outcome) == Step(old(Contents()), Request.EditPayment(id, text, confirmed))
    {
      hide Inv, ParseAmount, Balance, WorkerIds;
      StepKeeps(Contents(), Request.EditPayment(id, text, confirmed));
      var payment := FindPayment(payments, id);
      if payment == None || payment.value.worker !in WorkerIds(workers) {
        return Refused;
      }
      var amount := ParseAmount(text);
      if amount == None || amount.value <= 0 {
        return Refused;
      }
      var balanceExcl := Balance(Contents(), payment.value.worker) + payment.value.amount;
      if amount.value > balanceExcl && !confirmed {
        return Refused;
      }
      payments := Each(payments, SetAmount(id, amount.value));
      return Accepted;
    }

    method DeletePayment(id: int) returns (outcome: Outcome)
      requires Valid()
      modifies `payments
      ensures Valid()
      ensures Result(Contents(), outcome) == Step(old(Contents()), Request.DeletePayment(id))
      ensures forall p :: p in payments <==> p in old(payments) && p.id != id
      ensures forall p, w: int :: p in old(payments) && p.id == id ==>
                Balance(Contents(), w) == old(Balance(Contents(), w)) + if w == p.worker then p.amount else 0
    {
      hide Inv;
      StepKeeps(Contents(), Request.DeletePayment(id));
      ghost var before := Contents();
      WhereMembers(payments, NotPayment(id));
      payments := Where(payments, NotPayment(id));
      forall p, w: int | p in before.payments && p.id == id
        ensures Balance(Contents(), w) == Balance(before, w) + if w == p.worker then p.amount else 0
      {
        DeletePaymentEffect(before, p, w);
      }
      return Accepted;
    }

    method SettleAll(worker: int) returns (outcome: Outcome)
      requires Valid()
      modifies this
      ensures Valid()
      ensures Result(Contents(), outcome) == Step(old(Contents()), Request.SettleAll(worker))
    {
      hide Inv, AddPayment, Balance;
      StepKeeps(Contents(), Request.SettleAll(worker));
      var balance := Balance(Contents(), worker);
      if balance <= 0 {
        return Refused;
      }
      outcome := InsertPayment(worker, None, balance);
    }

    // ----- expenses and receipts -----

    method CreateExpense(project: PostedId, category: Option<string>, text: Option<string>) returns (outcome: Outcome)
      requires Valid()
      modifies this
      ensures Valid()
      ensures Result(Contents(), outcome) == Step(old(Contents()), Request.CreateExpense(project, category, text))
    {
      hide Inv, ParseAmount, OrEmpty, ProjectIds;
      StepKeeps(Contents(), Request.CreateExpense(project, category, text));
      var amount := ParseAmount(text);
      if project == Malformed {
        return Failed;
      }
      if project == Absent {
        return Refused;
      }
      if OrEmpty(category) !in EXPENSE_CATEGORIES {
        return Refused;
      }
      if amount == None || amount.value <= 0 {
        return Refused;
      }
      if project.id !in ProjectIds(projects) {
        return Failed;
      }
      expenses := expenses + [Expense(next.expense, project.id, OrEmpty(category), amount.value)];
      next := next.(expense := next.expense + 1);
      return Accepted;
    }

    method DeleteExpense(id: int) returns (outcome: Outcome)
      requires Valid()
      modifies `expenses
      ensures Valid()
      ensures Result(Contents(), outcome) == Step(old(Contents()), Request.DeleteExpense(id))
      ensures forall e :: e in expenses <==> e in old(expenses) && e.id != id
      ensures forall e, p: Project :: e in old(expenses) && e.id == id ==>
                FinancialsOf(Contents(), p).shopAfter ==
                old(FinancialsOf(Contents(), p).shopAfter) + if p.id == e.project then e.amount else 0
    {
      hide Inv;
      StepKeeps(Contents(), Request.DeleteExpense(id));
      ghost var before := Contents();
      WhereMembers(expenses, NotExpense(id));
      expenses := Where(expenses, NotExpense(id));
      forall e, p: Project | e in before.expenses && e.id == id
        ensures FinancialsOf(Contents(), p).shopAfter ==
                FinancialsOf(before, p).shopAfter + if p.id == e.project then e.amount else 0
      {
        DeleteExpenseEffect(before, e, p);
      }
      return Accepted;
    }

    method CreateReceipt(project: PostedId, text: Option<string>) returns (outcome: Outcome)
      requires Valid()
      modifies this
      ensures Valid()
      ensures Result(Contents(), outcome) == Step(old(Contents()), Request.CreateReceipt(project, text))
    {
      hide Inv, ParseAmount, ProjectIds;
      StepKeeps(Contents(), Request.CreateReceipt(project, text));
      var amount := ParseAmount(text);
      if project == Malformed {
        return Failed;
      }
      if project == Absent {
        return Refused;
      }
      if amount == None || amount.value <= 0 {
        return Refused;
      }
      if project.id !in ProjectIds(projects) {
        return Failed;
      }
      receipts := receipts + [Receipt(next.receipt, project.id, amount.value)];
      next := next.(receipt := next.receipt + 1);
      return Accepted;
    }

    method DeleteReceipt(id: int) returns (outcome: Outcome)
      requires Valid()
      modifies `receipts
      ensures Valid()
      ensures Result(Contents(), outcome) == Step(old(Contents()), Request.DeleteReceipt(id))
      ensures forall c :: c in receipts <==> c in old(receipts) && c.id != id
      ensures forall c, p: Project :: c in old(receipts) && c.id == id ==>
                FinancialsOf(Contents(), p).customerBalance ==
                old(FinancialsOf(Contents(), p).customerBalance) + if p.id == c.project then c.amount else 0
    {
      hide Inv;
      StepKeeps(Contents(), Request.DeleteReceipt(id));
      ghost var before := Contents();
      WhereMembers(receipts, NotReceipt(id));
      receipts := Where(receipts, NotReceipt(id));
      forall c, p: Project | c in before.receipts && c.id == id
        ensures FinancialsOf(Contents(), p).customerBalance ==
                FinancialsOf(before, p).customerBalance + if p.id == c.project then c.amount else 0
      {
        DeleteReceiptEffect(before, c, p);
      }
      return Accepted;
    }
  }

  // ----- rows while they are being filled -----

  /** A row as the reading loop leaves it: exactly the half its mode asks for. */
  predicate HalfRead(row: Row) {
    if row.mode == FixedMode then row.share.Some? && row.percent.None? else row.percent.Some? && row.share.None?
  }

  /** A row with both halves, standing for a line. */
  predicate Filled(row: Row, line: Line) {
    row == Row(line.wid, line.mode, Some(line.percent), Some(line.share))
  }

  lemma ReadOneMore(inputs: seq<WorkerInput>, i: nat)
    requires i < |inputs|
    ensures AllReadable(inputs[..i + 1]) <==> AllReadable(inputs[..i]) && ReadWorker(inputs[i]) != Invalid
    ensures ReadRows(inputs[..i + 1]) ==
            ReadRows(inputs[..i]) + if ReadWorker(inputs[i]).Read? then [ReadWorker(inputs[i]).row] else []
    ensures ReadRows(inputs[..i]) + [] == ReadRows(inputs[..i])
  {
    hide ReadWorker;
    var more := inputs[..i + 1];
    assert more[..i] == inputs[..i] && more[i] == inputs[i];
    assert forall k :: 0 <= k < i ==> more[k] == inputs[..i][k];
  }

  lemma ChosenAreHalfRead(inputs: seq<WorkerInput>)
    ensures forall row :: row in ReadRows(inputs) ==> HalfRead(row)
  {
    hide ParseAmount, ParsePercent, ReadRows, ParseMode;
    forall row | row in ReadRows(inputs) ensures HalfRead(row) {
      RowsAreReadings(inputs, row);
      var k :| 0 <= k < |inputs| && ReadWorker(inputs[k]) == Read(row);
    }
  }

  lemma InsertOneMore(workers: seq<int>, shares: seq<Share>, project: int, lines: seq<Line>, i: nat)
    requires i < |lines|
    ensures InsertLines(workers, shares, project, lines[..i + 1]) ==
            match InsertLines(workers, shares, project, lines[..i])
            case None => None
            case Some(t) =>
              if lines[i].wid !in workers || (exists s :: s in t && s.project == project && s.worker == lines[i].wid)
              then None else Some(t + [LineShare(project)(lines[i])])
  {
    assert lines[..i + 1][..i] == lines[..i];
  }

  /** Once a row is rejected the whole insertion is. */
  lemma {:induction false} InsertStopped(workers: seq<int>, shares: seq<Share>, project: int, lines: seq<Line>, i: nat)
    requires i <= |lines| && InsertLines(workers, shares, project, lines[..i]) == None
    ensures InsertLines(workers, shares, project, lines) == None
    decreases |lines| - i
  {
    if i < |lines| {
      InsertOneMore(workers, shares, project, lines, i);
      InsertStopped(workers, shares, project, lines, i + 1);
    } else {
      assert lines[..i] == lines;
    }
  }

  function ReplaceProject(p: Project): Project -> Project {
    (q: Project) => if q.id == p.id then p else q
  }

  lemma SameReplacement(projects: seq<Project>, p: Project, d: Draft)
    requires p == FromDraft(p.id, d)
    ensures Each(projects, ReplaceProject(p)) == Each(projects, SetDraft(p.id, d))
  {
  }
}
