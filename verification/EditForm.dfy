/**
 Opening a project's edit form and posting it untouched (`edit` in payroll/blueprints/projects.py
 and templates/projects/form.html): printing, the browser's field formatting, parsing, date
 normalisation and share computation together leave the ledger as it was, under a condition that
 can be read off the stored rows.
 */
module EditForm {
  import opened DateText
  import opened Ledger
  import opened LedgerInvariant
  import opened MoneyText
  import opened Preview
  import opened ProjectForm
  import opened Shares
  import opened Tables
  import opened Text

  // ----- the prefilled form -----

  /** A money field: blank for zero, otherwise the print, as the browser formats it on loading. */
  function MoneyField(amount: int): string {
    Fmt(if amount != 0 then FormatMoney(amount) else "")
  }

  /** A percent field; stored percents are never negative. */
  function PercentField(percent: int): string {
    FormatPercent(if percent >= 0 then percent else 0)
  }

  function PrefilledRow(s: Share): WorkerInput {
    WorkerInput(Some(s.worker), Some(ModeCode(s.mode)), Some(PercentField(s.percent)), Some(MoneyField(s.amount)))
  }

  function DateField(date: Option<string>): string {
    OrEmpty(date)
  }

  /** `rows` are the project's share rows in the order the form lists its workers. */
  function PrefilledForm(p: Project, rows: seq<Share>): Form {
    Form(Some(p.name), Some(StatusCode(p.status)), Some(MoneyField(p.labor)), Some(MoneyField(p.customerTotal)),
         Some(DateField(p.dateJalali)), Each(rows, PrefilledRow))
  }

  function ShareIn(project: int): Share -> bool {
    (s: Share) => s.project == project
  }

  /** The stored rows of a project, in any order. */
  predicate RowsOf(db: DB, project: int, rows: seq<Share>) {
    multiset(rows) == multiset(Where(db.shares, ShareIn(project)))
  }

  /** The same ledger, up to the order in which share rows were inserted. */
  predicate SameLedger(a: DB, b: DB) {
    a.(shares := []) == b.(shares := []) && multiset(a.shares) == multiset(b.shares)
  }

  /** What the form can give back: nothing that prints as a blank field. */
  predicate Resubmittable(p: Project, rows: seq<Share>) {
    && p.labor > 0 && p.customerTotal > 0
    && forall s :: s in rows && s.mode == FixedMode ==> s.amount > 0
  }

  // ----- each field -----

  lemma MoneyFieldReads(amount: int)
    requires amount >= 0
    ensures ParseAmount(Some(MoneyField(amount))) == if amount > 0 then Some(amount) else None
  {
    hide ParseAmount, FormatMoney;
    if amount > 0 {
      FmtKeepsPrint(amount);
      MoneyReadsBack(amount);
    } else {
      FieldReadsAsNumber("");
      assert Fmt("") == "" && Digits("") == "";
    }
  }

  lemma StatusReads(status: Status)
    ensures ParseStatus(Some(StatusCode(status))) == status
  {
  }

  lemma DateReads(p: Project)
    requires GoodProject(p)
    ensures ParseDateInput(Some(DateField(p.dateJalali))) == (p.dateJalali, p.dateIso)
  {
    hide ReadJalali;
    if p.dateJalali == None {
      assert ParseDateInput(Some("")) == (None, None);
    }
  }

  /** A stored row is read back from its fields, unless it is a fixed share of nothing. */
  lemma RowReads(s: Share, labor: nat)
    requires SoundLine(AsLine(s), labor)
    ensures var reading := ReadWorker(PrefilledRow(s));
            if s.mode == FixedMode && s.amount == 0 then reading == Invalid
            else reading.Read? && Fill(reading.row, labor) == AsLine(s)
  {
    hide ParseAmount, ParsePercent, MoneyField, FormatPercent, Strip, WorkerShare, EquivalentPercent;
    ModeReadsBack(s.mode);
    MoneyFieldReads(s.amount);
    PercentReadsBack(s.percent);
  }

  lemma {:induction false} RowsRead(rows: seq<Share>, labor: nat)
    requires forall s :: s in rows ==> SoundLine(AsLine(s), labor)
    ensures AllReadable(Each(rows, PrefilledRow)) <==> forall s :: s in rows && s.mode == FixedMode ==> s.amount > 0
    ensures AllReadable(Each(rows, PrefilledRow)) ==>
              FillAll(ReadRows(Each(rows, PrefilledRow)), labor) == Each(rows, AsLine)
  {
    hide SoundLine, PrefilledRow, ReadWorker, Fill;
    if rows != [] {
      var front, last := rows[..|rows| - 1], rows[|rows| - 1];
      assert rows == front + [last];
      RowsRead(front, labor);
      RowReads(last, labor);
      assert SoundLine(AsLine(last), labor);
      NotNegative(last, labor);
      assert Each(rows, PrefilledRow) == Each(front, PrefilledRow) + [PrefilledRow(last)];
      ReadableAppend(Each(front, PrefilledRow), PrefilledRow(last));
      if AllReadable(Each(rows, PrefilledRow)) {
        var line := Fill(ReadWorker(PrefilledRow(last)).row, labor);
        ReadRowsAppend(Each(front, PrefilledRow), PrefilledRow(last), labor);
        assert Each(rows, AsLine) == Each(front, AsLine) + [AsLine(last)];
      }
    }
  }

  lemma NotNegative(s: Share, labor: nat)
    requires SoundLine(AsLine(s), labor)
    ensures s.amount >= 0
  {
  }

  // ----- totals do not depend on the order of rows -----

  /** The last row of one arrangement, found and taken out of another. */
  lemma TakeOut<T>(a: seq<T>, b: seq<T>) returns (i: nat)
    requires a != [] && multiset(a) == multiset(b)
    ensures i < |b| && b[i] == a[|a| - 1]
    ensures multiset(a[..|a| - 1]) == multiset(b[..i] + b[i + 1..])
    ensures b == b[..i] + [b[i]] + b[i + 1..]
  {
    var last := a[|a| - 1];
    assert last in multiset(b);
    i :| 0 <= i < |b| && b[i] == last;
    assert a == a[..|a| - 1] + [last];
    assert b == b[..i] + [last] + b[i + 1..];
    assert multiset(a[..|a| - 1]) == multiset(a) - multiset{last};
    assert multiset(b[..i] + b[i + 1..]) == multiset(b) - multiset{last};
  }

  lemma {:induction false} TotalIgnoresOrder<T>(a: seq<T>, b: seq<T>, val: T -> int)
    requires multiset(a) == multiset(b)
    ensures Total(a, val) == Total(b, val)
  {
    if a == [] {
      assert |multiset(b)| == 0;
    } else {
      var front, last := a[..|a| - 1], a[|a| - 1];
      var i := TakeOut(a, b);
      var rest := b[..i] + b[i + 1..];
      TotalIgnoresOrder(front, rest, val);
      TotalConcat(b[..i], b[i + 1..], val);
      TotalConcat(b[..i] + [last], b[i + 1..], val);
      TotalAppend(b[..i], last, val);
    }
  }

  lemma {:induction false} LineTotal(rows: seq<Share>)
    ensures ShareTotal(Each(rows, AsLine)) == Total(rows, ShareAmount)
  {
    if rows != [] {
      var front := rows[..|rows| - 1];
      LineTotal(front);
      assert Each(rows, AsLine)[..|rows| - 1] == Each(front, AsLine);
    }
  }

  lemma RowsTotal(db: DB, p: Project, rows: seq<Share>)
    requires Inv(db) && p in db.projects && RowsOf(db, p.id, rows)
    ensures ShareTotal(Each(rows, AsLine)) <= p.labor
  {
    hide GoodIds, GoodRows, GoodShares, GoodPayments, GoodExpenses, GoodReceipts, SoundLine;
    LineTotal(rows);
    TotalIgnoresOrder(rows, Where(db.shares, ShareIn(p.id)), ShareAmount);
    SumOfIsTotal(db.shares, ShareProject, ShareAmount, p.id, ShareIn(p.id));
  }

  lemma RowsMembers(db: DB, project: int, rows: seq<Share>)
    requires RowsOf(db, project, rows)
    ensures forall s :: s in rows <==> s in db.shares && s.project == project
  {
    var kept := Where(db.shares, ShareIn(project));
    WhereMembers(db.shares, ShareIn(project));
    forall s ensures s in rows <==> s in kept {
      assert s in rows <==> s in multiset(rows);
      assert s in kept <==> s in multiset(kept);
    }
  }

  // ----- the rows are stored again -----

  lemma MultisetAppend<T>(a: seq<T>, x: T)
    ensures multiset(a + [x]) == multiset(a) + multiset{x}
  {
  }

  lemma {:induction false} SplitIsWhole<T>(rows: seq<T>, keep: T -> bool, drop: T -> bool)
    requires forall r :: r in rows ==> keep(r) != drop(r)
    ensures multiset(Where(rows, keep)) + multiset(Where(rows, drop)) == multiset(rows)
  {
    if rows != [] {
      var front, last := rows[..|rows| - 1], rows[|rows| - 1];
      assert rows == front + [last];
      SplitIsWhole(front, keep, drop);
      MultisetAppend(front, last);
      MultisetAppend(Where(front, keep), last);
      MultisetAppend(Where(front, drop), last);
    }
  }

  lemma {:induction false} DistinctByMultiset<T, K>(a: seq<T>, b: seq<T>, key: T -> K)
    requires multiset(a) == multiset(b) && Distinct(Each(b, key))
    ensures Distinct(Each(a, key))
  {
    if a != [] {
      var front, last := a[..|a| - 1], a[|a| - 1];
      var i := TakeOut(a, b);
      var rest := b[..i] + b[i + 1..];
      DistinctWithout(b, i, key);
      DistinctByMultiset(front, rest, key);
      assert Each(a, key) == Each(front, key) + [key(last)];
      forall r | r in front ensures key(r) != key(last) {
        assert r in multiset(rest);
      }
      EachMembers(front, key);
      DistinctAppend(Each(front, key), key(last));
    }
  }

  /** Taking one row out keeps the keys distinct and its key gone. */
  lemma DistinctWithout<T, K>(b: seq<T>, i: nat, key: T -> K)
    requires i < |b| && Distinct(Each(b, key))
    ensures Distinct(Each(b[..i] + b[i + 1..], key))
    ensures forall r :: r in b[..i] + b[i + 1..] ==> key(r) != key(b[i])
  {
    var rest, ks := b[..i] + b[i + 1..], Each(b, key);
    assert forall j :: 0 <= j < |rest| ==> rest[j] == b[if j < i then j else j + 1];
    forall j, k | 0 <= j < k < |rest| ensures key(rest[j]) != key(rest[k]) {
      assert ks[if j < i then j else j + 1] != ks[if k < i then k else k + 1];
    }
    forall r | r in rest ensures key(r) != key(b[i]) {
      var j :| 0 <= j < |rest| && rest[j] == r;
      var m := if j < i then j else j + 1;
      assert ks[m] == key(r) && ks[i] == key(b[i]);
    }
  }

  lemma RowWorkersDistinct(db: DB, project: int, rows: seq<Share>)
    requires Inv(db) && RowsOf(db, project, rows)
    ensures Distinct(LineWorkers(Each(rows, AsLine)))
    ensures forall l :: l in Each(rows, AsLine) ==> l.wid in WorkerIds(db.workers)
  {
    hide GoodIds, GoodRows, GoodSplits, GoodPayments, GoodExpenses, GoodReceipts, SoundLine;
    RowsMembers(db, project, rows);
    DistinctWhere(db.shares, SharePair, ShareIn(project));
    DistinctByMultiset(rows, Where(db.shares, ShareIn(project)), SharePair);
    var ws := LineWorkers(Each(rows, AsLine));
    forall i, j | 0 <= i < j < |ws| ensures ws[i] != ws[j] {
      assert Each(rows, SharePair)[i] != Each(rows, SharePair)[j];
      assert rows[i] in rows && rows[j] in rows;
    }
    EachMembers(rows, AsLine);
  }

  lemma RowsStoredAgain(db: DB, project: int, rows: seq<Share>)
    requires Inv(db) && RowsOf(db, project, rows)
    ensures var rest := Where(db.shares, NotShareOf(project));
            var t := InsertLines(WorkerIds(db.workers), rest, project, Each(rows, AsLine));
            t.Some? && multiset(t.value) == multiset(db.shares)
  {
    hide Inv, InsertLines, SoundLine;
    var rest := Where(db.shares, NotShareOf(project));
    WhereMembers(db.shares, NotShareOf(project));
    RowWorkersDistinct(db, project, rows);
    InsertLinesMeans(WorkerIds(db.workers), rest, project, Each(rows, AsLine));
    RowsMembers(db, project, rows);
    assert LineShares(project, Each(rows, AsLine)) == rows by {
      forall i | 0 <= i < |rows| ensures LineShares(project, Each(rows, AsLine))[i] == rows[i] {
        assert rows[i] in rows;
      }
    }
    SplitIsWhole(db.shares, NotShareOf(project), ShareIn(project));
    assert multiset(rest + rows) == multiset(rest) + multiset(rows);
  }

  // ----- the draft the form gives -----

  lemma PrefilledDraft(db: DB, p: Project, rows: seq<Share>)
    requires Inv(db) && p in db.projects && RowsOf(db, p.id, rows)
    ensures var readable := p.labor > 0 && forall s :: s in rows && s.mode == FixedMode ==> s.amount > 0;
            Validate(PrefilledForm(p, rows)) ==
            if readable then
              Some(Draft(p.name, p.status, p.labor, if p.customerTotal > 0 then p.customerTotal else p.labor,
                         p.dateJalali, p.dateIso, Each(rows, AsLine)))
            else None
  {
    hide ParseAmount, MoneyField, SoundLine, ReadWorker, PrefilledRow, AllReadable, GoodShares, GoodPayments,
         GoodExpenses, GoodReceipts, GoodIds, ParseDateInput, ParseStatus, Strip, RowsOf, FillAll, ReadRows;
    RowsMembers(db, p.id, rows);
    RowsRead(rows, p.labor);
    RowsTotal(db, p, rows);
    MoneyFieldReads(p.labor);
    MoneyFieldReads(p.customerTotal);
    StatusReads(p.status);
    DateReads(p);
  }

  /** The project row is rewritten with its own values. */
  lemma SameProjects(db: DB, p: Project, d: Draft)
    requires Inv(db) && p in db.projects
    ensures Each(db.projects, SetDraft(p.id, d)) == db.projects <==> FromDraft(p.id, d) == p
  {
    hide GoodSplits, GoodShares, GoodPayments, GoodExpenses, GoodReceipts, GoodProject, GoodWorker;
    var i :| 0 <= i < |db.projects| && db.projects[i] == p;
    forall j | 0 <= j < |db.projects| && db.projects[j].id == p.id ensures j == i {
      assert ProjectIds(db.projects)[j] == ProjectIds(db.projects)[i];
    }
    assert Each(db.projects, SetDraft(p.id, d))[i] == FromDraft(p.id, d);
  }

  /**
   Posting an untouched edit form is accepted and leaves the ledger the same exactly when no amount
   in it prints as a blank field: the labour amount, the customer total and every fixed share must
   be positive. A zero customer total would come back as the labour amount; the other zeros are
   refused.
   */
  lemma UntouchedFormChangesNothing(db: DB, p: Project, rows: seq<Share>)
    requires Inv(db) && p in db.projects && RowsOf(db, p.id, rows)
    ensures var r := Step(db, EditProject(p.id, PrefilledForm(p, rows)));
            (r.outcome == Accepted && SameLedger(r.db, db)) <==> Resubmittable(p, rows)
  {
    hide Inv, Validate, InsertLines, RowsOf, PrefilledForm;
    ProjectIsListed(db, p);
    PrefilledDraft(db, p, rows);
    RowsStoredAgain(db, p.id, rows);
    var v := Validate(PrefilledForm(p, rows));
    if v.Some? {
      SameProjects(db, p, v.value);
    }
  }

  /** A project of labour 5 saved with the customer total 0, by a form as typed. */
  function FreeForm(): Form {
    Form(Some("a"), None, Some("5"), Some("0"), None, [])
  }

  function FreeProject(customerTotal: int): Project {
    Project(1, "a", 5, customerTotal, None, None, NotStarted)
  }

  lemma FreeFormIsStored()
    ensures Run(EMPTY, [CreateProject(FreeForm())]) ==
            EMPTY.(projects := [FreeProject(0)], next := Counters(1, 2, 1, 1, 1))
  {
    hide ParseAmount, Run, Step;
    SmallAmounts();
    var draft := Draft("a", NotStarted, 5, 0, None, None, []);
    assert Validate(FreeForm()) == Some(draft) by {
      assert Strip("a") == "a";
      assert FillAll(ReadRows([]), 5) == [];
    }
    FreeRun(draft);
  }

  lemma FreeRun(draft: Draft)
    requires Validate(FreeForm()) == Some(draft) && draft == Draft("a", NotStarted, 5, 0, None, None, [])
    ensures Run(EMPTY, [CreateProject(FreeForm())]) ==
            EMPTY.(projects := [FreeProject(0)], next := Counters(1, 2, 1, 1, 1))
  {
    hide Validate, FreeForm;
    var reqs := [CreateProject(FreeForm())];
    assert reqs[..0] == [] && Run(EMPTY, []) == EMPTY;
    assert Run(EMPTY, reqs) == Step(EMPTY, reqs[0]).db;
  }

  /** The failing side at an input: posting this ledger's untouched form makes the customer owe 5. */
  lemma UntouchedFormChangesTotal()
    ensures var db := Run(EMPTY, [CreateProject(FreeForm())]);
            var r := Step(db, EditProject(1, PrefilledForm(FreeProject(0), [])));
            db.projects == [FreeProject(0)] && r.outcome == Accepted && r.db.projects == [FreeProject(5)]
  {
    hide Run, Validate, PrefilledForm, Inv, FreeForm;
    FreeFormIsStored();
    var db, p := Run(EMPTY, [CreateProject(FreeForm())]), FreeProject(0);
    ReachableLedgersAreGood([CreateProject(FreeForm())]);
    PrefilledDraft(db, p, []);
    RowsStoredAgain(db, 1, []);
    assert ProjectIds(db.projects) == [1];
  }

  lemma ProjectIsListed(db: DB, p: Project)
    requires p in db.projects
    ensures p.id in ProjectIds(db.projects)
  {
    EachMembers(db.projects, ProjectId);
  }
}
