/**
 The shared queries of payroll/queries.py. Each is a set of sums over different tables; the lemmas
 show that in every reachable ledger the different views agree to the unit.
 */
module Queries {
  import opened Ledger
  import opened LedgerInvariant
  import opened Tables
  import opened Text

  // ----- one project -----

  datatype CustomerStatus = NotReceived | Partial | Received

  function StatusOfCustomer(total: int, received: int): CustomerStatus {
    if received <= 0 then NotReceived else if received < total then Partial else Received
  }

  datatype Financials = Financials(labor: int, customerTotal: int, workersShare: int, workersPaid: int,
                                   expensesTotal: int, shopBefore: int, shopAfter: int,
                                   customerReceived: int, customerBalance: int, status: CustomerStatus)

  function WorkersShare(db: DB, project: int): int {
    SumOf(db.shares, ShareProject, ShareAmount, project)
  }

  function ExpensesTotal(db: DB, project: int): int {
    SumOf(db.expenses, ExpenseProject, ExpenseAmount, project)
  }

  function CustomerReceived(db: DB, project: int): int {
    SumOf(db.receipts, ReceiptProject, ReceiptAmount, project)
  }

  function FinancialsOf(db: DB, p: Project): Financials {
    var share := WorkersShare(db, p.id);
    var expenses := ExpensesTotal(db, p.id);
    var received := CustomerReceived(db, p.id);
    Financials(p.labor, p.customerTotal, share, SumOf(db.payments, PaymentProject, PaymentAmount, Some(p.id)),
               expenses, p.labor - share, p.labor - share - expenses,
               received, p.customerTotal - received, StatusOfCustomer(p.customerTotal, received))
  }

  // ----- the dashboard -----

  datatype Dashboard = Dashboard(totalLabor: int, totalWorkersShare: int, shopShare: int, totalPaid: int,
                                 totalDebt: int, totalExpenses: int, shopReal: int, customerReceivable: int)

  function DashboardOf(db: DB): Dashboard {
    var labor := Total(db.projects, Labor);
    var share := Total(db.shares, ShareAmount);
    var paid := Total(db.payments, PaymentAmount);
    var expenses := Total(db.expenses, ExpenseAmount);
    Dashboard(labor, share, labor - share, paid, share - paid, expenses, labor - share - expenses,
              Total(db.projects, CustomerTotal) - Total(db.receipts, ReceiptAmount))
  }

  // ----- the dashboard against the single views -----

  function EarnedBy(db: DB): Worker -> int { (w: Worker) => Earned(db, w.id) }
  function PaidTo(db: DB): Worker -> int { (w: Worker) => Paid(db, w.id) }
  function BalanceOf(db: DB): Worker -> int { (w: Worker) => Balance(db, w.id) }
  function ShareIn(db: DB): Project -> int { (p: Project) => WorkersShare(db, p.id) }
  function ExpensesIn(db: DB): Project -> int { (p: Project) => ExpensesTotal(db, p.id) }
  function ReceivedFor(db: DB): Project -> int { (p: Project) => CustomerReceived(db, p.id) }
  function ShopAfterOf(db: DB): Project -> int { (p: Project) => FinancialsOf(db, p).shopAfter }
  function CustomerBalanceOf(db: DB): Project -> int { (p: Project) => FinancialsOf(db, p).customerBalance }

  lemma {:induction false} TotalDifference<T>(rows: seq<T>, a: T -> int, b: T -> int, c: T -> int)
    requires forall r :: r in rows ==> c(r) == a(r) - b(r)
    ensures Total(rows, c) == Total(rows, a) - Total(rows, b)
  {
    if rows != [] {
      var front := rows[..|rows| - 1];
      assert forall r :: r in front ==> r in rows;
      TotalDifference(front, a, b, c);
    }
  }

  lemma {:induction false} SameTotal<T>(rows: seq<T>, a: T -> int, b: T -> int)
    requires forall r :: r in rows ==> a(r) == b(r)
    ensures Total(rows, a) == Total(rows, b)
  {
    if rows != [] {
      var front := rows[..|rows| - 1];
      assert forall r :: r in front ==> r in rows;
      SameTotal(front, a, b);
    }
  }

  /** Per-row sums over a dependent table add up to that table's total, when every row's parent exists. */
  lemma PerRowSums<P, T>(ps: seq<P>, id: P -> int, val: P -> int, rows: seq<T>, key: T -> int, amount: T -> int)
    requires Distinct(Each(ps, id))
    requires forall r :: r in rows ==> key(r) in Each(ps, id)
    requires forall p :: p in ps ==> val(p) == SumOf(rows, key, amount, id(p))
    ensures Total(ps, val) == Total(rows, amount)
  {
    TotalIsSumOver(ps, id, val, rows, key, amount);
    SumExchange(rows, key, amount, Each(ps, id));
  }

  lemma WorkerTotalsAgree(db: DB)
    requires Inv(db)
    ensures Total(db.workers, EarnedBy(db)) == DashboardOf(db).totalWorkersShare
    ensures Total(db.workers, PaidTo(db)) == DashboardOf(db).totalPaid
    ensures Total(db.workers, BalanceOf(db)) == DashboardOf(db).totalDebt
  {
    hide GoodSplits, GoodRows, GoodExpenses, GoodReceipts;
    PerRowSums(db.workers, WorkerId, EarnedBy(db), db.shares, ShareWorker, ShareAmount);
    PerRowSums(db.workers, WorkerId, PaidTo(db), db.payments, PaymentWorker, PaymentAmount);
    TotalDifference(db.workers, EarnedBy(db), PaidTo(db), BalanceOf(db));
  }

  function LaborShown(db: DB): Project -> int { (p: Project) => FinancialsOf(db, p).labor }
  function TotalShown(db: DB): Project -> int { (p: Project) => FinancialsOf(db, p).customerTotal }

  lemma ProjectTotalsAgree(db: DB)
    requires Inv(db)
    ensures Total(db.projects, LaborShown(db)) == DashboardOf(db).totalLabor
    ensures Total(db.projects, TotalShown(db)) - Total(db.projects, ReceivedFor(db)) ==
            DashboardOf(db).customerReceivable
    ensures Total(db.projects, ShareIn(db)) == DashboardOf(db).totalWorkersShare
    ensures Total(db.projects, ExpensesIn(db)) == DashboardOf(db).totalExpenses
    ensures Total(db.projects, ReceivedFor(db)) == Total(db.receipts, ReceiptAmount)
  {
    hide GoodSplits, GoodRows, GoodPayments, SumOf, Distinct;
    SameTotal(db.projects, Labor, LaborShown(db));
    SameTotal(db.projects, CustomerTotal, TotalShown(db));
    PerRowSums(db.projects, ProjectId, ShareIn(db), db.shares, ShareProject, ShareAmount);
    PerRowSums(db.projects, ProjectId, ExpensesIn(db), db.expenses, ExpenseProject, ExpenseAmount);
    PerRowSums(db.projects, ProjectId, ReceivedFor(db), db.receipts, ReceiptProject, ReceiptAmount);
  }

  function ShopBeforeOf(db: DB): Project -> int { (p: Project) => FinancialsOf(db, p).shopBefore }

  /** The three headline figures of the dashboard are the sums of what the single pages show. */
  lemma DashboardConserves(db: DB)
    requires Inv(db)
    ensures DashboardOf(db).totalDebt == Total(db.workers, BalanceOf(db))
    ensures DashboardOf(db).shopReal == Total(db.projects, ShopAfterOf(db))
    ensures DashboardOf(db).customerReceivable == Total(db.projects, CustomerBalanceOf(db))
  {
    hide Inv;
    WorkerTotalsAgree(db);
    ProjectTotalsAgree(db);
    TotalDifference(db.projects, Labor, ShareIn(db), ShopBeforeOf(db));
    TotalDifference(db.projects, ShopBeforeOf(db), ExpensesIn(db), ShopAfterOf(db));
    TotalDifference(db.projects, CustomerTotal, ReceivedFor(db), CustomerBalanceOf(db));
  }

  function ProjectKey(p: Project): Option<int> { Some(p.id) }

  /** The values of a payment's project column: none, or one of the projects. */
  lemma ProjectKeys(db: DB)
    requires Inv(db)
    ensures Distinct([None] + Each(db.projects, ProjectKey))
    ensures forall p :: p in db.payments ==> p.project in [None] + Each(db.projects, ProjectKey)
  {
    hide GoodSplits, GoodRows, GoodShares, GoodExpenses, GoodReceipts;
    var some := Each(db.projects, ProjectKey);
    forall i, j | 0 <= i < j < |some| ensures some[i] != some[j] {
      assert ProjectIds(db.projects)[i] != ProjectIds(db.projects)[j];
    }
    forall p | p in db.payments ensures p.project in [None] + some {
      if p.project.Some? {
        var i :| 0 <= i < |db.projects| && ProjectIds(db.projects)[i] == p.project.value;
        assert some[i] == p.project;
      }
    }
  }

  function PaidInOf(db: DB): Project -> int { (p: Project) => FinancialsOf(db, p).workersPaid }

  /** What the project pages show as paid, plus the payments on no project, is everything paid. */
  lemma PaidByProject(db: DB)
    requires Inv(db)
    ensures Total(db.projects, PaidInOf(db)) + SumOf(db.payments, PaymentProject, PaymentAmount, None) ==
            DashboardOf(db).totalPaid
  {
    hide GoodSplits, GoodRows, GoodShares, GoodExpenses, GoodReceipts, SumOf, SumOver;
    var some := Each(db.projects, ProjectKey);
    ProjectKeys(db);
    TotalIsSumOver(db.projects, ProjectKey, PaidInOf(db), db.payments, PaymentProject, PaymentAmount);
    SumOverCons(db.payments, PaymentProject, PaymentAmount, None, some);
    SumExchange(db.payments, PaymentProject, PaymentAmount, [None] + some);
  }

  /** In particular over every run of requests. */
  lemma DashboardConservesOverRuns(reqs: seq<Request>)
    ensures var db := Run(EMPTY, reqs);
            && DashboardOf(db).totalDebt == Total(db.workers, BalanceOf(db))
            && DashboardOf(db).shopReal == Total(db.projects, ShopAfterOf(db))
            && DashboardOf(db).customerReceivable == Total(db.projects, CustomerBalanceOf(db))
  {
    hide Inv, Run;
    ReachableLedgersAreGood(reqs);
    DashboardConserves(Run(EMPTY, reqs));
  }

  // ----- positive parts -----

  function PositivePart(val: int): int {
    if val > 0 then val else 0
  }

  /** Adding up only the positive values gives at least the net sum, and the net sum iff none is negative. */
  lemma {:induction false} PositiveTotal<T>(rows: seq<T>, val: T -> int, pos: T -> int)
    requires forall r :: r in rows ==> pos(r) == PositivePart(val(r))
    ensures Total(rows, pos) >= Total(rows, val)
    ensures Total(rows, pos) == Total(rows, val) <==> forall r :: r in rows ==> val(r) >= 0
  {
    if rows != [] {
      var front, last := rows[..|rows| - 1], rows[|rows| - 1];
      assert rows == front + [last];
      PositiveTotal(front, val, pos);
    }
  }

  // ----- workers joined with their grouped sums -----

  datatype WorkerRow = WorkerRow(worker: Worker, share: int, paid: int, balance: int)

  /** LEFT JOIN: the sums of the groups with key k, or a single missing value. */
  function MatchesOf(groups: seq<Group<int>>, k: int): seq<Option<int>> {
    var found := MatchingSums(groups, k);
    if found == [] then [None] else found
  }

  function MatchingSums(groups: seq<Group<int>>, k: int): seq<Option<int>> {
    if groups == [] then []
    else (if groups[0].key == k then [Some(groups[0].sum)] else []) + MatchingSums(groups[1..], k)
  }

  function Coalesce(v: Option<int>): int {
    if v == None then 0 else v.value
  }

  /** One row for every pair of a matching share group and a matching payment group. */
  function JoinRows(w: Worker, shares: seq<Option<int>>, paids: seq<Option<int>>): seq<WorkerRow> {
    if shares == [] then []
    else JoinRows(w, shares[..|shares| - 1], paids) + PairRows(w, Coalesce(shares[|shares| - 1]), paids)
  }

  function PairRows(w: Worker, share: int, paids: seq<Option<int>>): seq<WorkerRow> {
    if paids == [] then []
    else
      var paid := Coalesce(paids[|paids| - 1]);
      PairRows(w, share, paids[..|paids| - 1]) + [WorkerRow(w, share, paid, share - paid)]
  }

  function JoinedRows(workers: seq<Worker>, shares: seq<Group<int>>, paids: seq<Group<int>>): seq<WorkerRow> {
    if workers == [] then []
    else
      var w := workers[|workers| - 1];
      JoinedRows(workers[..|workers| - 1], shares, paids) + JoinRows(w, MatchesOf(shares, w.id), MatchesOf(paids, w.id))
  }

  function RowOf(db: DB): Worker -> WorkerRow {
    (w: Worker) => WorkerRow(w, Earned(db, w.id), Paid(db, w.id), Balance(db, w.id))
  }

  lemma {:induction false} AtMostOneMatch(groups: seq<Group<int>>, k: int)
    requires OneGroupPerKey(groups)
    ensures MatchingSums(groups, k) == match FindGroup(groups, k) case None => [] case Some(s) => [Some(s)]
  {
    if groups != [] {
      AtMostOneMatch(groups[1..], k);
      if groups[0].key == k { NoGroup(groups[1..], k); }
    }
  }

  lemma {:induction false} NoGroup(groups: seq<Group<int>>, k: int)
    requires forall g :: g in groups ==> g.key != k
    ensures FindGroup(groups, k) == None
  {
    if groups != [] { NoGroup(groups[1..], k); }
  }

  lemma GroupedSumIsSum<T>(rows: seq<T>, key: T -> int, val: T -> int, k: int)
    ensures var m := MatchesOf(GroupSums(rows, key, val), k);
            |m| == 1 && Coalesce(m[0]) == SumOf(rows, key, val, k)
  {
    GroupSumsMeans(rows, key, val, k);
    AtMostOneMatch(GroupSums(rows, key, val), k);
    if !(exists r :: r in rows && key(r) == k) { SumOfNone(rows, key, val, k); }
  }

  /**
   Joining with the two grouped tables neither loses nor repeats a worker and gives each the two
   independent sums, a missing group counting as zero.
   */
  lemma {:induction false} JoinHasNoFanOut(db: DB, workers: seq<Worker>)
    ensures JoinedRows(workers, GroupSums(db.shares, ShareWorker, ShareAmount),
                       GroupSums(db.payments, PaymentWorker, PaymentAmount)) == Each(workers, RowOf(db))
  {
    hide GroupSums, MatchesOf, JoinRows, SumOf, Coalesce;
    if workers != [] {
      var front, w := workers[..|workers| - 1], workers[|workers| - 1];
      JoinHasNoFanOut(db, front);
      var shares := MatchesOf(GroupSums(db.shares, ShareWorker, ShareAmount), w.id);
      var paids := MatchesOf(GroupSums(db.payments, PaymentWorker, PaymentAmount), w.id);
      GroupedSumIsSum(db.shares, ShareWorker, ShareAmount, w.id);
      GroupedSumIsSum(db.payments, PaymentWorker, PaymentAmount, w.id);
      SinglePair(w, shares, paids);
      assert Each(workers, RowOf(db)) == Each(front, RowOf(db)) + [RowOf(db)(w)];
    }
  }

  lemma SinglePair(w: Worker, shares: seq<Option<int>>, paids: seq<Option<int>>)
    requires |shares| == |paids| == 1
    ensures var s, p := Coalesce(shares[0]), Coalesce(paids[0]);
            JoinRows(w, shares, paids) == [WorkerRow(w, s, p, s - p)]
  {
    assert shares[..0] == [] && paids[..0] == [];
    assert JoinRows(w, shares, paids) == [] + PairRows(w, Coalesce(shares[0]), paids);
    assert PairRows(w, Coalesce(shares[0]), paids[..0]) == [];
  }

  // ----- the customer's status -----

  lemma {:induction false} SumOfPositive<T, K>(rows: seq<T>, key: T -> K, val: T -> int, k: K)
    requires forall r :: r in rows ==> val(r) > 0
    ensures SumOf(rows, key, val, k) >= 0
    ensures SumOf(rows, key, val, k) == 0 <==> forall r :: r in rows ==> key(r) != k
  {
    if rows != [] {
      var front, last := rows[..|rows| - 1], rows[|rows| - 1];
      assert rows == front + [last];
      SumOfPositive(front, key, val, k);
    }
  }

  /** Nothing received means no receipt, partly received some but not all, received all of the total or more. */
  lemma CustomerStatusMeans(db: DB, p: Project)
    requires Inv(db)
    ensures var f, some := FinancialsOf(db, p), exists c :: c in db.receipts && c.project == p.id;
            && (f.status == NotReceived <==> !some)
            && (f.status == Partial <==> some && f.customerBalance > 0)
            && (f.status == Received <==> some && f.customerBalance <= 0)
  {
    hide SumOf, GoodSplits, GoodPayments, GoodExpenses, GoodShares, GoodRows, GoodIds;
    SumOfPositive(db.receipts, ReceiptProject, ReceiptAmount, p.id);
  }

  // ----- the customer filter of the project list -----

  /** The list's "unpaid" and "paid" filters. */
  predicate Unpaid(db: DB, p: Project) {
    p.customerTotal > CustomerReceived(db, p.id)
  }

  predicate PaidUp(db: DB, p: Project) {
    p.customerTotal > 0 && p.customerTotal <= CustomerReceived(db, p.id)
  }

  /** The filters and the status badge tell the same story: they part only over a total of zero. */
  lemma FiltersMatchStatus(db: DB, p: Project)
    requires Inv(db) && p in db.projects
    ensures Unpaid(db, p) <==> FinancialsOf(db, p).customerBalance > 0
    ensures PaidUp(db, p) <==> FinancialsOf(db, p).status == Received && p.customerTotal > 0
    ensures Unpaid(db, p) ==> FinancialsOf(db, p).status != Received
    ensures p.customerTotal == 0 ==> !Unpaid(db, p) && !PaidUp(db, p)
  {
    hide SumOf, GoodSplits, GoodPayments, GoodExpenses, GoodShares;
    SumOfBounds(db.receipts, ReceiptProject, ReceiptAmount, p.id);
  }
}
