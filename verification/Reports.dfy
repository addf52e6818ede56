/**
 The reports of payroll/blueprints/reports.py: sums over joins restricted to a range of dates. They
 are compared with the per-project figures of module `Queries`, with one another, and with the
 Jalali dates the user typed.
 */
module Reports {
  import opened Calendar
  import opened DateText
  import opened Jalali
  import opened Ledger
  import opened LedgerInvariant
  import opened Queries
  import opened Tables
  import opened Text

  // ----- the date clause -----

  /** ISO bounds; None where the user gave no readable date. */
  datatype Range = Range(from: Option<string>, to: Option<string>)

  function RangeOfInput(from: Option<string>, to: Option<string>): Range {
    Range(ParseDateInput(from).1, ParseDateInput(to).1)
  }

  /** A bound selects no row without a date, as comparison with NULL is never true. */
  predicate InRange(r: Range, iso: Option<string>) {
    && (r.from.Some? ==> iso.Some? && StrAtMost(r.from.value, iso.value))
    && (r.to.Some? ==> iso.Some? && StrAtMost(iso.value, r.to.value))
  }

  function Dated(r: Range): Project -> bool { (p: Project) => InRange(r, p.dateIso) }

  function Undated(): Project -> bool { (p: Project) => p.dateIso == None }

  function ProjectsIn(db: DB, r: Range): seq<Project> {
    Where(db.projects, Dated(r))
  }

  // ----- sums over joins -----

  function OnProject<T>(r: Range): ((T, Project)) -> bool { (x: (T, Project)) => InRange(r, x.1.dateIso) }

  function OfFirst<T>(val: T -> int): ((T, Project)) -> int { (x: (T, Project)) => val(x.0) }

  /** SELECT SUM(val) FROM rows JOIN projects ON project_id = id WHERE the project is in range. */
  function JoinedSum<T>(rows: seq<T>, fk: T -> int, val: T -> int, projects: seq<Project>, r: Range): int {
    Total(Where(Join(rows, fk, projects, ProjectId), OnProject<T>(r)), OfFirst(val))
  }

  function LaborIn(db: DB, r: Range): int { Total(ProjectsIn(db, r), Labor) }

  function SharesIn(db: DB, r: Range): int { JoinedSum(db.shares, ShareProject, ShareAmount, db.projects, r) }

  function CostsIn(db: DB, r: Range): int { JoinedSum(db.expenses, ExpenseProject, ExpenseAmount, db.projects, r) }

  /** The "shop_income" and "shop_profit" figures. */
  function ShopIncome(db: DB, r: Range): int { LaborIn(db, r) - SharesIn(db, r) }

  function ShopProfit(db: DB, r: Range): int { LaborIn(db, r) - SharesIn(db, r) - CostsIn(db, r) }

  /** One row's contribution to a joined sum: its value if its project is in range. */
  lemma JoinedRow<T>(x: T, fk: T -> int, val: T -> int, projects: seq<Project>, r: Range)
    requires Distinct(ProjectIds(projects))
    ensures Total(Where(Each(Where(projects, HasKey(ProjectId, fk(x))), PairWith(x)), OnProject<T>(r)), OfFirst(val)) ==
            if fk(x) in ProjectIds(Where(projects, Dated(r))) then val(x) else 0
  {
    var found := Where(projects, HasKey(ProjectId, fk(x)));
    UniqueMatch(projects, ProjectId, fk(x));
    EachWhereMembers(projects, ProjectId, Dated(r));
    WhereMembers(projects, Dated(r));
    if fk(x) in ProjectIds(projects) {
      var p := found[0];
      var pair := PairWith(x)(p);
      assert found == [p] && Each(found, PairWith(x)) == [pair];
      WhereAppend([], pair, OnProject<T>(r));
      assert [] + [pair] == [pair];
      TotalOne(pair, OfFirst(val));
      if fk(x) in ProjectIds(Where(projects, Dated(r))) {
        var q :| q in Where(projects, Dated(r)) && q.id == fk(x);
        SameIdSameProject(projects, p, q);
      }
    } else {
      assert Each(found, PairWith(x)) == [];
    }
  }

  lemma SameIdSameProject(projects: seq<Project>, p: Project, q: Project)
    requires Distinct(ProjectIds(projects)) && p in projects && q in projects && p.id == q.id
    ensures p == q
  {
    var i :| 0 <= i < |projects| && projects[i] == p;
    var j :| 0 <= j < |projects| && projects[j] == q;
    assert ProjectIds(projects)[i] == ProjectIds(projects)[j];
  }

  /** A joined, filtered sum is the sum of the per-project sums of the projects in range. */
  lemma {:induction false} JoinedSumIsPerProject<T>(rows: seq<T>, fk: T -> int, val: T -> int,
                                                    projects: seq<Project>, r: Range)
    requires Distinct(ProjectIds(projects))
    ensures JoinedSum(rows, fk, val, projects, r) == SumOver(rows, fk, val, ProjectIds(Where(projects, Dated(r))))
  {
    var ids := ProjectIds(Where(projects, Dated(r)));
    DistinctWhere(projects, ProjectId, Dated(r));
    if rows == [] {
      SumOverEmpty(fk, val, ids);
    } else {
      var front, last := rows[..|rows| - 1], rows[|rows| - 1];
      assert rows == front + [last];
      JoinedSumIsPerProject(front, fk, val, projects, r);
      SumOverAppend(front, last, fk, val, ids);
      JoinedRow(last, fk, val, projects, r);
      var before := Join(front, fk, projects, ProjectId);
      var added := Each(Where(projects, HasKey(ProjectId, fk(last))), PairWith(last));
      WhereConcat(before, added, OnProject<T>(r));
      TotalConcat(Where(before, OnProject<T>(r)), Where(added, OnProject<T>(r)), OfFirst(val));
    }
  }

  // ----- the reports against the per-project figures -----

  lemma SharesInAgrees(db: DB, r: Range)
    requires Inv(db)
    ensures SharesIn(db, r) == Total(ProjectsIn(db, r), ShareIn(db))
    ensures CostsIn(db, r) == Total(ProjectsIn(db, r), ExpensesIn(db))
  {
    hide GoodSplits, GoodRows, GoodShares, GoodPayments, GoodExpenses, GoodReceipts, Where, JoinedSum;
    JoinedSumIsPerProject(db.shares, ShareProject, ShareAmount, db.projects, r);
    TotalIsSumOver(ProjectsIn(db, r), ProjectId, ShareIn(db), db.shares, ShareProject, ShareAmount);
    JoinedSumIsPerProject(db.expenses, ExpenseProject, ExpenseAmount, db.projects, r);
    TotalIsSumOver(ProjectsIn(db, r), ProjectId, ExpensesIn(db), db.expenses, ExpenseProject, ExpenseAmount);
  }

  /** For any range, the profit report is the sum of the project pages' "shop after expenses". */
  lemma ShopProfitAgrees(db: DB, r: Range)
    requires Inv(db)
    ensures ShopProfit(db, r) == Total(ProjectsIn(db, r), ShopAfterOf(db))
    ensures ShopIncome(db, r) == Total(ProjectsIn(db, r), ShopBeforeOf(db))
  {
    hide Inv, SharesIn, CostsIn, ProjectsIn;
    SharesInAgrees(db, r);
    TotalDifference(ProjectsIn(db, r), Labor, ShareIn(db), ShopBeforeOf(db));
    TotalDifference(ProjectsIn(db, r), ShopBeforeOf(db), ExpensesIn(db), ShopAfterOf(db));
  }

  /** Without bounds the report covers every project, dated or not, and meets the dashboard. */
  lemma UnboundedReportIsDashboard(db: DB)
    requires Inv(db)
    ensures ShopProfit(db, Range(None, None)) == DashboardOf(db).shopReal
    ensures ShopIncome(db, Range(None, None)) == DashboardOf(db).shopShare
  {
    hide Inv, ShopProfit;
    ShopProfitAgrees(db, Range(None, None));
    DashboardConserves(db);
    WhereAll(db.projects, Dated(Range(None, None)));
    ProjectTotalsAgree(db);
    TotalDifference(db.projects, Labor, ShareIn(db), ShopBeforeOf(db));
  }

  // ----- "workers_share": a three-way join grouped by worker -----

  function PairWorker(x: (Share, Project)): int { x.0.worker }

  function TripleInRange(r: Range): (((Share, Project), Worker)) -> bool {
    (x: ((Share, Project), Worker)) => InRange(r, x.0.1.dateIso)
  }

  function TripleWorker(x: ((Share, Project), Worker)): int { x.1.id }

  function TripleAmount(x: ((Share, Project), Worker)): int { x.0.0.amount }

  /** The rows of the "workers_share" report: worker id and summed share. */
  function WorkersShareRows(db: DB, r: Range): seq<Group<int>> {
    var pairs := Join(db.shares, ShareProject, db.projects, ProjectId);
    var triples := Join(pairs, PairWorker, db.workers, WorkerId);
    GroupSums(Where(triples, TripleInRange(r)), TripleWorker, TripleAmount)
  }

  function WorkersShareTotal(db: DB, r: Range): int {
    Total(WorkersShareRows(db, r), GroupSum)
  }

  /** A row that refers to an existing worker is joined with that worker once. */
  lemma JoinOneWorker(front: seq<(Share, Project)>, last: (Share, Project), workers: seq<Worker>)
    returns (triple: ((Share, Project), Worker))
    requires Distinct(WorkerIds(workers)) && PairWorker(last) in WorkerIds(workers)
    ensures triple.0 == last && triple.1.id == PairWorker(last)
    ensures Join(front + [last], PairWorker, workers, WorkerId) == Join(front, PairWorker, workers, WorkerId) + [triple]
  {
    var found := Where(workers, HasKey(WorkerId, PairWorker(last)));
    UniqueMatch(workers, WorkerId, PairWorker(last));
    triple := PairWith(last)(found[0]);
    assert Each(found, PairWith(last)) == [triple];
    assert (front + [last])[..|front|] == front;
  }

  /** Joining rows to the workers they all refer to loses and repeats nothing. */
  lemma {:induction false} WorkerJoinKeepsTotal(pairs: seq<(Share, Project)>, workers: seq<Worker>, r: Range)
    requires Distinct(WorkerIds(workers))
    requires forall x :: x in pairs ==> PairWorker(x) in WorkerIds(workers)
    ensures Total(Where(Join(pairs, PairWorker, workers, WorkerId), TripleInRange(r)), TripleAmount) ==
            Total(Where(pairs, OnProject<Share>(r)), OfFirst(ShareAmount))
  {
    hide Join, WorkerIds, Distinct, PairWorker, Where, Total;
    if pairs != [] {
      var front, last := pairs[..|pairs| - 1], pairs[|pairs| - 1];
      assert pairs == front + [last];
      WorkerJoinKeepsTotal(front, workers, r);
      assert last in pairs;
      var triple := JoinOneWorker(front, last, workers);
      var joined := Join(front, PairWorker, workers, WorkerId);
      WhereAppend(joined, triple, TripleInRange(r));
      WhereAppend(front, last, OnProject<Share>(r));
      TotalAppend(Where(joined, TripleInRange(r)), triple, TripleAmount);
      TotalAppend(Where(front, OnProject<Share>(r)), last, OfFirst(ShareAmount));
    } else {
      EmptyJoin(workers, r);
    }
  }

  lemma EmptyJoin(workers: seq<Worker>, r: Range)
    ensures Total(Where(Join([], PairWorker, workers, WorkerId), TripleInRange(r)), TripleAmount) == 0
    ensures Total(Where([], OnProject<Share>(r)), OfFirst(ShareAmount)) == 0
  {
  }

  lemma {:induction false} JoinedFromRows<A, B, K>(xs: seq<A>, fk: A -> K, bs: seq<B>, id: B -> K)
    ensures forall x :: x in Join(xs, fk, bs, id) ==> x.0 in xs
  {
    if xs != [] {
      var front, a := xs[..|xs| - 1], xs[|xs| - 1];
      assert xs == front + [a];
      JoinedFromRows(front, fk, bs, id);
      EachMembers(Where(bs, HasKey(id, fk(a))), PairWith(a));
    }
  }

  /** The workers' shares add up to the share sum that the income reports subtract. */
  lemma WorkersShareAgrees(db: DB, r: Range)
    requires Inv(db)
    ensures WorkersShareTotal(db, r) == SharesIn(db, r)
  {
    hide GoodSplits, GoodRows, GoodPayments, GoodExpenses, GoodReceipts;
    var pairs := Join(db.shares, ShareProject, db.projects, ProjectId);
    JoinedFromRows(db.shares, ShareProject, db.projects, ProjectId);
    WorkerJoinKeepsTotal(pairs, db.workers, r);
    GroupsKeepTotal(Where(Join(pairs, PairWorker, db.workers, WorkerId), TripleInRange(r)), TripleWorker, TripleAmount);
  }

  /** The worker's shares on projects in range. */
  function ShareInRange(db: DB, r: Range, worker: int): Share -> bool {
    (s: Share) => s.worker == worker && s.project in ProjectIds(ProjectsIn(db, r))
  }

  /** Rows that run in step with others have their sums, under any filter and key that agree row by row. */
  lemma {:induction false} SumsInStep<A, B>(xs: seq<A>, ys: seq<B>, keepX: A -> bool, keepY: B -> bool, key: A -> int,
                                            val: A -> int, amount: B -> int, k: int)
    requires |xs| == |ys|
    requires forall i :: 0 <= i < |xs| ==>
               (keepX(xs[i]) && key(xs[i]) == k <==> keepY(ys[i])) && val(xs[i]) == amount(ys[i])
    ensures SumOf(Where(xs, keepX), key, val, k) == Total(Where(ys, keepY), amount)
    ensures (exists x :: x in Where(xs, keepX) && key(x) == k) <==> Where(ys, keepY) != []
  {
    hide SumOf, Total, Where;
    if xs == [] {
      NothingKept(keepX, keepY, key, val, amount, k);
    } else {
      var xs', x, ys', y := xs[..|xs| - 1], xs[|xs| - 1], ys[..|ys| - 1], ys[|ys| - 1];
      assert xs == xs' + [x] && ys == ys' + [y];
      SumsInStep(xs', ys', keepX, keepY, key, val, amount, k);
      WhereAppend(xs', x, keepX);
      WhereAppend(ys', y, keepY);
      SumOfAppend(Where(xs', keepX), x, key, val, k);
      TotalAppend(Where(ys', keepY), y, amount);
      OccursAppend(Where(xs', keepX), x, key, k);
    }
  }

  lemma NothingKept<A, B>(keepX: A -> bool, keepY: B -> bool, key: A -> int, val: A -> int, amount: B -> int, k: int)
    ensures Where<A>([], keepX) == [] && Where<B>([], keepY) == []
    ensures SumOf([], key, val, k) == Total([], amount) == 0
  {
  }

  lemma OccursAppend<A>(rows: seq<A>, r: A, key: A -> int, k: int)
    ensures (exists x :: x in rows + [r] && key(x) == k) <==> (exists x :: x in rows && key(x) == k) || key(r) == k
  {
    if key(r) == k { assert r in rows + [r]; }
    if x :| x in rows && key(x) == k { assert x in rows + [r]; }
  }

  /** In a good ledger every share is joined with its project and its worker, once. */
  lemma {:induction false} TriplesInStep(shares: seq<Share>, projects: seq<Project>, workers: seq<Worker>)
    requires Distinct(ProjectIds(projects)) && Distinct(WorkerIds(workers))
    requires forall s :: s in shares ==> s.project in ProjectIds(projects) && s.worker in WorkerIds(workers)
    ensures var triples := Join(Join(shares, ShareProject, projects, ProjectId), PairWorker, workers, WorkerId);
            |triples| == |shares| && forall i :: 0 <= i < |shares| ==>
              && triples[i].0.0 == shares[i] && triples[i].0.1 in projects && triples[i].0.1.id == shares[i].project
              && triples[i].1.id == shares[i].worker
  {
    hide Join, Distinct, ProjectIds, WorkerIds, Where, Each;
    if shares == [] {
      NothingJoined(projects, workers);
    } else {
      var front, s := shares[..|shares| - 1], shares[|shares| - 1];
      assert shares == front + [s];
      TriplesInStep(front, projects, workers);
      assert s in shares;
      var pairs := Join(front, ShareProject, projects, ProjectId);
      var pair := JoinOneProject(front, s, projects);
      var triple := JoinOneWorker(pairs, pair, workers);
    }
  }

  lemma NothingJoined(projects: seq<Project>, workers: seq<Worker>)
    ensures Join(Join([], ShareProject, projects, ProjectId), PairWorker, workers, WorkerId) == []
  {
  }

  lemma JoinOneProject(front: seq<Share>, s: Share, projects: seq<Project>) returns (pair: (Share, Project))
    requires Distinct(ProjectIds(projects)) && s.project in ProjectIds(projects)
    ensures pair.0 == s && pair.1 in projects && pair.1.id == s.project
    ensures Join(front + [s], ShareProject, projects, ProjectId) ==
            Join(front, ShareProject, projects, ProjectId) + [pair]
  {
    var found := Where(projects, HasKey(ProjectId, s.project));
    UniqueMatch(projects, ProjectId, s.project);
    pair := PairWith(s)(found[0]);
    assert Each(found, PairWith(s)) == [pair];
    assert (front + [s])[..|front|] == front;
  }

  /** One group for each worker with a share on a project in range, with the sum of those shares; no other group. */
  lemma WorkersShareByWorker(db: DB, r: Range, worker: int)
    requires Inv(db)
    ensures OneGroupPerKey(WorkersShareRows(db, r))
    ensures FindGroup(WorkersShareRows(db, r), worker) ==
            var mine := Where(db.shares, ShareInRange(db, r, worker));
            if mine != [] then Some(Total(mine, ShareAmount)) else None
  {
    hide Inv, Join, Where, Total, SumOf, GroupSums, FindGroup, OneGroupPerKey, InRange, ProjectIds, WorkerIds;
    GoodReferences(db);
    TriplesInStep(db.shares, db.projects, db.workers);
    var triples := Join(Join(db.shares, ShareProject, db.projects, ProjectId), PairWorker, db.workers, WorkerId);
    forall i | 0 <= i < |triples|
      ensures TripleInRange(r)(triples[i]) && TripleWorker(triples[i]) == worker <==>
              ShareInRange(db, r, worker)(db.shares[i])
    {
      InRangeById(db, r, triples[i].0.1);
    }
    SumsInStep(triples, db.shares, TripleInRange(r), ShareInRange(db, r, worker), TripleWorker, TripleAmount,
               ShareAmount, worker);
    GroupSumsMeans(Where(triples, TripleInRange(r)), TripleWorker, TripleAmount, worker);
  }

  lemma GoodReferences(db: DB)
    requires Inv(db)
    ensures Distinct(ProjectIds(db.projects)) && Distinct(WorkerIds(db.workers))
    ensures forall s :: s in db.shares ==> s.project in ProjectIds(db.projects) && s.worker in WorkerIds(db.workers)
  {
    hide GoodSplits, GoodRows, GoodPayments, GoodExpenses, GoodReceipts, ProjectIds, WorkerIds;
  }

  /** A project is in range exactly when its id is among those of the projects in range. */
  lemma InRangeById(db: DB, r: Range, p: Project)
    requires Distinct(ProjectIds(db.projects)) && p in db.projects
    ensures InRange(r, p.dateIso) <==> p.id in ProjectIds(ProjectsIn(db, r))
  {
    hide InRange, Distinct;
    EachWhereMembers(db.projects, ProjectId, Dated(r));
    WhereMembers(db.projects, Dated(r));
    if p.id in ProjectIds(ProjectsIn(db, r)) {
      var q :| q in Where(db.projects, Dated(r)) && q.id == p.id;
      SameIdSameProject(db.projects, p, q);
    }
  }

  // ----- ranges: what they select, and how they add up -----

  lemma StoredIso(p: Project) returns (g: Date)
    requires GoodProject(p) && p.dateIso.Some?
    ensures IsoRange(g) && p.dateIso == Some(IsoText(g))
  {
    hide ReadJalali, IsoText, JalaliText;
    var norm := NormalizeJalali(p.dateJalali);
    var j := ReadJalali(norm.value).value;
    g := ToGregorian(j);
    AcceptedRoundTrip(j);
    PositiveYearsConvertLate(j);
  }

  /** Every stored day is either up to g or from the day after g on. */
  lemma DaySplits(a: Date, g: Date)
    requires IsoRange(a) && IsoRange(g) && IsoRange(Next(Gregorian, g))
    ensures StrAtMost(IsoText(a), IsoText(g)) <==> !StrAtMost(IsoText(Next(Gregorian, g)), IsoText(a))
  {
    hide IsoText, StrLess, DayNumber;
    var h := Next(Gregorian, g);
    IsoOrder(a, g);
    IsoOrder(h, a);
    NextDayNumber(Gregorian, g);
    DayNumberOrder(Gregorian, a, g);
    DayNumberOrder(Gregorian, h, a);
  }

  lemma AtMostTransitive(a: string, b: string, c: string)
    requires StrAtMost(a, b) && StrAtMost(b, c)
    ensures StrAtMost(a, c)
  {
    if StrLess(a, b) && StrLess(b, c) { StrLessTransitive(a, b, c); }
  }

  /** The part of a range up to the day g, and the part from the next day on. */
  function UpTo(r: Range, g: Date): Range
    requires IsoRange(g)
  {
    Range(r.from, Some(IsoText(g)))
  }

  function After(r: Range, g: Date): Range
    requires IsoRange(g) && IsoRange(Next(Gregorian, g))
  {
    Range(Some(IsoText(Next(Gregorian, g))), r.to)
  }

  /** g can cut the range: it does not lie past its end, nor its next day before its start. */
  predicate Cuts(r: Range, g: Date) {
    && IsoRange(g) && IsoRange(Next(Gregorian, g))
    && (r.from.Some? ==> StrAtMost(r.from.value, IsoText(Next(Gregorian, g))))
    && (r.to.Some? ==> StrAtMost(IsoText(g), r.to.value))
  }

  function Indicator(b: bool): int { if b then 1 else 0 }

  /** Each project of the whole range lies in exactly one part, or is undated in an unbounded range. */
  lemma ProjectInOnePart(p: Project, r: Range, g: Date)
    requires GoodProject(p) && Cuts(r, g)
    ensures Indicator(InRange(r, p.dateIso)) ==
            Indicator(InRange(UpTo(r, g), p.dateIso)) + Indicator(InRange(After(r, g), p.dateIso))
            + Indicator(r == Range(None, None) && p.dateIso == None)
  {
    hide GoodProject, IsoText, StrAtMost;
    if p.dateIso.Some? {
      var a := StoredIso(p);
      DaySplits(a, g);
      var t, c, n := IsoText(a), IsoText(g), IsoText(Next(Gregorian, g));
      if StrAtMost(t, c) && r.to.Some? { AtMostTransitive(t, c, r.to.value); }
      if StrAtMost(n, t) && r.from.Some? { AtMostTransitive(r.from.value, n, t); }
    }
  }

  lemma {:induction false} PartsAddUp(ps: seq<Project>, val: Project -> int, r: Range, g: Date)
    requires (forall p :: p in ps ==> GoodProject(p)) && Cuts(r, g)
    ensures Total(Where(ps, Dated(r)), val) ==
            Total(Where(ps, Dated(UpTo(r, g))), val) + Total(Where(ps, Dated(After(r, g))), val)
            + (if r == Range(None, None) then Total(Where(ps, Undated()), val) else 0)
  {
    hide GoodProject, UpTo, After, InRange, StrAtMost, IsoText;
    if ps != [] {
      var front, last := ps[..|ps| - 1], ps[|ps| - 1];
      assert ps == front + [last];
      PartsAddUp(front, val, r, g);
      ProjectInOnePart(last, r, g);
      WhereStep(front, last, val, Dated(r));
      WhereStep(front, last, val, Dated(UpTo(r, g)));
      WhereStep(front, last, val, Dated(After(r, g)));
      WhereStep(front, last, val, Undated());
    }
  }

  lemma WhereStep(front: seq<Project>, last: Project, val: Project -> int, keep: Project -> bool)
    ensures Total(Where(front + [last], keep), val) ==
            Total(Where(front, keep), val) + if keep(last) then val(last) else 0
  {
    WhereAppend(front, last, keep);
    TotalAppend(Where(front, keep), last, val);
  }

  /**
   Cutting a range at any day cuts every reported sum in two: labour, shares (of the income reports
   and of the "workers_share" report), expenses, profit and income. An unbounded report has the
   undated projects on top.
   */
  lemma ReportsAddUp(db: DB, r: Range, g: Date)
    requires Inv(db) && Cuts(r, g)
    ensures ShopProfit(db, r) == ShopProfit(db, UpTo(r, g)) + ShopProfit(db, After(r, g))
            + (if r == Range(None, None) then Total(Where(db.projects, Undated()), ShopAfterOf(db)) else 0)
    ensures ShopIncome(db, r) == ShopIncome(db, UpTo(r, g)) + ShopIncome(db, After(r, g))
            + (if r == Range(None, None) then Total(Where(db.projects, Undated()), ShopBeforeOf(db)) else 0)
    ensures LaborIn(db, r) == LaborIn(db, UpTo(r, g)) + LaborIn(db, After(r, g))
            + (if r == Range(None, None) then Total(Where(db.projects, Undated()), Labor) else 0)
    ensures SharesIn(db, r) == SharesIn(db, UpTo(r, g)) + SharesIn(db, After(r, g))
            + (if r == Range(None, None) then Total(Where(db.projects, Undated()), ShareIn(db)) else 0)
    ensures CostsIn(db, r) == CostsIn(db, UpTo(r, g)) + CostsIn(db, After(r, g))
            + (if r == Range(None, None) then Total(Where(db.projects, Undated()), ExpensesIn(db)) else 0)
    ensures WorkersShareTotal(db, r) == WorkersShareTotal(db, UpTo(r, g)) + WorkersShareTotal(db, After(r, g))
            + (if r == Range(None, None) then Total(Where(db.projects, Undated()), ShareIn(db)) else 0)
  {
    hide Inv, GoodProject, ShopProfit, ShopIncome, SharesIn, CostsIn, WorkersShareTotal, UpTo, After, StrAtMost,
         IsoText, Where, IsoRange, Total, Next;
    assert forall p :: p in db.projects ==> GoodProject(p) by { StoredRowsAreGood(db); }
    PartsAddUp(db.projects, ShopAfterOf(db), r, g);
    PartsAddUp(db.projects, ShopBeforeOf(db), r, g);
    PartsAddUp(db.projects, Labor, r, g);
    PartsAddUp(db.projects, ShareIn(db), r, g);
    PartsAddUp(db.projects, ExpensesIn(db), r, g);
    ReportsArePerProject(db, r);
    ReportsArePerProject(db, UpTo(r, g));
    ReportsArePerProject(db, After(r, g));
  }

  lemma StoredRowsAreGood(db: DB)
    requires Inv(db)
    ensures forall p :: p in db.projects ==> GoodProject(p)
  {
    hide GoodProject, GoodSplits, GoodShares, GoodPayments, GoodExpenses, GoodReceipts, AllGoodIds;
  }

  lemma ReportsArePerProject(db: DB, r: Range)
    requires Inv(db)
    ensures ShopProfit(db, r) == Total(ProjectsIn(db, r), ShopAfterOf(db))
    ensures ShopIncome(db, r) == Total(ProjectsIn(db, r), ShopBeforeOf(db))
    ensures SharesIn(db, r) == Total(ProjectsIn(db, r), ShareIn(db))
    ensures CostsIn(db, r) == Total(ProjectsIn(db, r), ExpensesIn(db))
    ensures WorkersShareTotal(db, r) == SharesIn(db, r)
  {
    hide *;
    ShopProfitAgrees(db, r);
    SharesInAgrees(db, r);
    WorkersShareAgrees(db, r);
  }

  /**
   What any two typed bounds select, a project with or without a date: every bound that is readable
   and has an ISO form asks for a dated project whose Jalali day is on its side. A missing, unreadable
   or too distant bound is no bound.
   */
  lemma RangeSelectsJalaliDays(p: Project, from: Option<string>, to: Option<string>)
    requires GoodProject(p)
    ensures
      var day, f, t := ComparableDay(p.dateJalali), ComparableDay(from), ComparableDay(to);
      InRange(RangeOfInput(from, to), p.dateIso) <==>
      && (f.Some? ==> day.Some? && AtMost(Rolled(f.value), Rolled(day.value)))
      && (t.Some? ==> day.Some? && AtMost(Rolled(day.value), Rolled(t.value)))
  {
    hide ComparableDay, ParseDateInput, IsoOfJalali, StrAtMost, Rolled, AtMost;
    var day, f, t := ComparableDay(p.dateJalali), ComparableDay(from), ComparableDay(to);
    IsoOfText(p.dateJalali);
    IsoOfText(from);
    IsoOfText(to);
    if day.Some? && f.Some? { IsoComparesJalali(f.value, day.value); }
    if day.Some? && t.Some? { IsoComparesJalali(day.value, t.value); }
  }

  // ----- the report loops -----

  datatype ProjectLine = ProjectLine(project: Project, labor: int, share: int, shop: int)

  function LineOf(db: DB): Project -> ProjectLine {
    (p: Project) => ProjectLine(p, p.labor, WorkersShare(db, p.id), p.labor - WorkersShare(db, p.id))
  }

  /** The "projects" report: one line per project in range and the three sums under them. */
  method ProjectsReport(db: DB, r: Range)
    returns (data: seq<ProjectLine>, sumLabor: int, sumShare: int, sumShop: int)
    ensures data == Each(ProjectsIn(db, r), LineOf(db))
    ensures forall i :: 0 <= i < |data| ==>
              var p, f := ProjectsIn(db, r)[i], FinancialsOf(db, ProjectsIn(db, r)[i]);
              data[i] == ProjectLine(p, f.labor, f.workersShare, f.shopBefore)
    ensures sumLabor == LaborIn(db, r) && sumShare == Total(ProjectsIn(db, r), ShareIn(db))
    ensures Inv(db) ==> sumShare == SharesIn(db, r)
    ensures sumShop == sumLabor - sumShare && (Inv(db) ==> sumShop == ShopIncome(db, r))
  {
    var rows := ProjectsIn(db, r);
    data, sumLabor, sumShare := [], 0, 0;
    for i := 0 to |rows|
      invariant data == Each(rows[..i], LineOf(db))
      invariant sumLabor == Total(rows[..i], Labor) && sumShare == Total(rows[..i], ShareIn(db))
    {
      TotalTake(rows, i, Labor);
      TotalTake(rows, i, ShareIn(db));
      EachTake(rows, i, LineOf(db));
      var share := WorkersShare(db, rows[i].id);
      var shop := rows[i].labor - share;
      sumLabor := sumLabor + rows[i].labor;
      sumShare := sumShare + share;
      data := data + [ProjectLine(rows[i], rows[i].labor, share, shop)];
    }
    TakeAll(rows);
    if Inv(db) { SharesInAgrees(db, r); }
    sumShop := sumLabor - sumShare;
  }

  function DebtTo(db: DB): Worker -> int { (w: Worker) => PositivePart(Balance(db, w.id)) }

  /** The "worker_debt" report: each worker's two sums, and the total of the positive balances. */
  method WorkerDebtReport(db: DB) returns (data: seq<WorkerRow>, totalDebt: int)
    ensures data == Each(db.workers, RowOf(db))
    ensures forall i :: 0 <= i < |data| ==>
              data[i] == WorkerRow(db.workers[i], Earned(db, db.workers[i].id), Paid(db, db.workers[i].id),
                                   Balance(db, db.workers[i].id))
    ensures totalDebt == Total(db.workers, DebtTo(db))
  {
    data, totalDebt := [], 0;
    for i := 0 to |db.workers|
      invariant data == Each(db.workers[..i], RowOf(db))
      invariant totalDebt == Total(db.workers[..i], DebtTo(db))
    {
      var w := db.workers[i];
      TotalTake(db.workers, i, DebtTo(db));
      EachTake(db.workers, i, RowOf(db));
      var share, paid := Earned(db, w.id), Paid(db, w.id);
      var bal := share - paid;
      totalDebt := totalDebt + if bal > 0 then bal else 0;
      data := data + [WorkerRow(w, share, paid, bal)];
    }
    TakeAll(db.workers);
  }

  /** The report's debt is never below the dashboard's, and equals it iff nobody is overpaid. */
  lemma DebtReportAgainstDashboard(db: DB)
    requires Inv(db)
    ensures Total(db.workers, DebtTo(db)) >= DashboardOf(db).totalDebt
    ensures Total(db.workers, DebtTo(db)) == DashboardOf(db).totalDebt <==>
            forall w :: w in db.workers ==> Balance(db, w.id) >= 0
  {
    hide Inv, DashboardOf, Balance;
    DashboardConserves(db);
    PositiveTotal(db.workers, BalanceOf(db), DebtTo(db));
  }

  function OwedBy(db: DB): Project -> int { (p: Project) => PositivePart(FinancialsOf(db, p).customerBalance) }

  function UnpaidBy(db: DB): Project -> bool { (p: Project) => Unpaid(db, p) }

  /** The "customer_unpaid" report skips settled projects and sums what the others still owe. */
  method CustomerUnpaidReport(db: DB) returns (data: seq<Project>, totalOwed: int)
    ensures data == Where(db.projects, UnpaidBy(db))
    ensures totalOwed == Total(db.projects, OwedBy(db))
  {
    data, totalOwed := [], 0;
    for i := 0 to |db.projects|
      invariant data == Where(db.projects[..i], UnpaidBy(db))
      invariant totalOwed == Total(db.projects[..i], OwedBy(db))
    {
      var p := db.projects[i];
      TotalTake(db.projects, i, OwedBy(db));
      WhereTake(db.projects, i, UnpaidBy(db));
      var bal := p.customerTotal - CustomerReceived(db, p.id);
      if bal <= 0 {
        continue;
      }
      totalOwed := totalOwed + bal;
      data := data + [p];
    }
    TakeAll(db.projects);
  }

  lemma UnpaidReportAgainstDashboard(db: DB)
    requires Inv(db)
    ensures Total(db.projects, OwedBy(db)) >= DashboardOf(db).customerReceivable
    ensures Total(db.projects, OwedBy(db)) == DashboardOf(db).customerReceivable <==>
            forall p :: p in db.projects ==> FinancialsOf(db, p).customerBalance >= 0
  {
    hide Inv, DashboardOf, FinancialsOf;
    DashboardConserves(db);
    PositiveTotal(db.projects, CustomerBalanceOf(db), OwedBy(db));
  }

  predicate Listed(db: DB, onlyActive: bool, onlyDebt: bool, w: Worker) {
    (onlyActive ==> w.active) && (onlyDebt ==> Balance(db, w.id) > 0)
  }

  function ListedIn(db: DB, onlyActive: bool, onlyDebt: bool): Worker -> bool {
    (w: Worker) => Listed(db, onlyActive, onlyDebt, w)
  }

  function IsActive(w: Worker): bool { w.active }

  function RowListed(onlyDebt: bool): WorkerRow -> bool {
    (d: WorkerRow) => onlyDebt ==> d.balance > 0
  }

  /** `workers_with_balances`: join with the grouped sums, then drop rows in the loop. */
  method WorkersWithBalances(db: DB, onlyActive: bool, onlyDebt: bool) returns (rows: seq<WorkerRow>)
    ensures rows == Each(Where(db.workers, ListedIn(db, onlyActive, onlyDebt)), RowOf(db))
    ensures forall d :: d in rows <==>
              && d.worker in db.workers && (onlyActive ==> d.worker.active) && (onlyDebt ==> d.balance > 0)
              && d == WorkerRow(d.worker, Earned(db, d.worker.id), Paid(db, d.worker.id), Balance(db, d.worker.id))
  {
    hide GroupSums, JoinedRows;
    var workers := if onlyActive then Where(db.workers, IsActive) else db.workers;
    var joined := JoinedRows(workers, GroupSums(db.shares, ShareWorker, ShareAmount),
                             GroupSums(db.payments, PaymentWorker, PaymentAmount));
    rows := [];
    for i := 0 to |joined|
      invariant rows == Where(joined[..i], RowListed(onlyDebt))
    {
      var d := joined[i];
      WhereTake(joined, i, RowListed(onlyDebt));
      if !(onlyDebt && d.balance <= 0) {
        rows := rows + [d];
      }
    }
    TakeAll(joined);
    ListedRows(db, onlyActive, onlyDebt, workers, joined);
    WhereMembers(db.workers, ListedIn(db, onlyActive, onlyDebt));
    EachMembers(Where(db.workers, ListedIn(db, onlyActive, onlyDebt)), RowOf(db));
  }

  lemma ListedRows(db: DB, onlyActive: bool, onlyDebt: bool, workers: seq<Worker>, joined: seq<WorkerRow>)
    requires workers == if onlyActive then Where(db.workers, IsActive) else db.workers
    requires joined == JoinedRows(workers, GroupSums(db.shares, ShareWorker, ShareAmount),
                                  GroupSums(db.payments, PaymentWorker, PaymentAmount))
    ensures Where(joined, RowListed(onlyDebt)) == Each(Where(db.workers, ListedIn(db, onlyActive, onlyDebt)), RowOf(db))
  {
    hide JoinedRows, GroupSums, Where;
    JoinHasNoFanOut(db, workers);
    WhereEach(workers, RowOf(db), RowListed(onlyDebt), ListedIn(db, false, onlyDebt));
    if onlyActive { FilterTwice(db, db.workers, onlyDebt); }
  }

  lemma {:induction false} FilterTwice(db: DB, ws: seq<Worker>, onlyDebt: bool)
    ensures Where(Where(ws, IsActive), ListedIn(db, false, onlyDebt)) == Where(ws, ListedIn(db, true, onlyDebt))
  {
    if ws != [] {
      var front, last := ws[..|ws| - 1], ws[|ws| - 1];
      FilterTwice(db, front, onlyDebt);
      if last.active { WhereAppend(Where(front, IsActive), last, ListedIn(db, false, onlyDebt)); }
    }
  }
}
