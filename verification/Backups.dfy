/**
 Data protection (payroll/db.py): importing an old database at start-up, restoring a chosen one,
 taking backups and pruning them. The disk is the target database and the backups folder; the
 steps are proved about values here and carried out in place by the class of module `BackupStore`.
 */
module Backups {
  import opened BackupNames
  import opened Tables
  import opened Text

  // ----- files -----

  datatype Counts = Counts(workers: nat, projects: nat, payments: nat)

  /** A file: the counts `db_counts` finds (None when it is no database) and everything else in it. */
  datatype File = File(counts: Option<Counts>, body: int)

  predicate HasRealData(counts: Option<Counts>) {
    counts.Some? && counts.value.workers + counts.value.projects + counts.value.payments > 0
  }

  predicate Populated(file: Option<File>) {
    file.Some? && HasRealData(file.value.counts)
  }

  datatype Disk = Disk(target: Option<File>, folder: map<string, File>)

  // ----- taking backups -----

  const PRE_IMPORT := "pre_import"
  const PRE_RESTORE := "pre_restore"
  const MANUAL := "payroll_backup"
  const AUTO := "auto_backup"

  /** `_backup_file`: a copy of the target under a stamped name, replacing a file of that name. */
  function BackupFile(d: Disk, prefix: string, now: Stamp): Disk {
    if d.target == None then d else d.(folder := d.folder[FileName(prefix, now) := d.target.value])
  }

  /** `create_backup`: the same, except that a file of that name is left alone. */
  function CreateBackup(d: Disk, prefix: string, now: Stamp): Disk {
    if d.target == None || FileName(prefix, now) in d.folder then d else BackupFile(d, prefix, now)
  }

  // ----- importing and restoring -----

  /** The first candidate that holds real data. */
  function FirstPopulated(candidates: seq<File>): Option<File> {
    if candidates == [] then None
    else if HasRealData(candidates[0].counts) then Some(candidates[0])
    else FirstPopulated(candidates[1..])
  }

  function Bootstrap(d: Disk, candidates: seq<File>, now: Stamp): Disk {
    if Populated(d.target) then d
    else
      match FirstPopulated(candidates)
      case None => d
      case Some(f) => BackupFile(d, PRE_IMPORT, now).(target := Some(f))
  }

  /** A restore source: a file of the backups folder by name, or a file from anywhere else. */
  datatype Source = Stored(name: string) | Elsewhere(file: Option<File>)

  function Lookup(d: Disk, source: Source): Option<File> {
    match source
    case Stored(name) => if name in d.folder then Some(d.folder[name]) else None
    case Elsewhere(file) => file
  }

  /** What `restore_database` checks before it touches anything. */
  predicate MayRestore(d: Disk, source: Source, allowEmpty: bool) {
    && Lookup(d, source).Some?
    && Lookup(d, source).value.counts.Some?
    && (HasRealData(Lookup(d, source).value.counts) || !Populated(d.target) || allowEmpty)
  }

  /** The source is read after the backup is written, so it could be that very file. */
  function Restore(d: Disk, source: Source, allowEmpty: bool, now: Stamp): Disk {
    if !MayRestore(d, source, allowEmpty) then d
    else
      var b := BackupFile(d, PRE_RESTORE, now);
      b.(target := Lookup(b, source))
  }

  // ----- pruning -----

  function Matching(prefix: string): string -> bool { (n: string) => Matches(prefix, n) }

  /** The matching names after n in name order. */
  function Newer(names: set<string>, prefix: string, n: string): set<string> {
    set m | m in names && Matches(prefix, m) && StrLess(n, m)
  }

  /** A name is stale when at least `keep` matching names come after it. */
  predicate Stale(names: set<string>, prefix: string, keep: int, n: string) {
    Matches(prefix, n) && |Newer(names, prefix, n)| >= keep
  }

  function Pruned(folder: map<string, File>, prefix: string, keep: int): map<string, File> {
    if keep <= 0 then folder
    else map n | n in folder && !Stale(folder.Keys, prefix, keep, n) :: folder[n]
  }

  /** `sorted(names, reverse=True)` */
  function SortDesc(names: seq<string>): seq<string> {
    if names == [] then [] else InsertDesc(names[|names| - 1], SortDesc(names[..|names| - 1]))
  }

  function InsertDesc(x: string, s: seq<string>): seq<string> {
    if s == [] || StrLess(s[0], x) then [x] + s else [s[0]] + InsertDesc(x, s[1..])
  }

  predicate Descending(s: seq<string>) {
    forall i, j :: 0 <= i < j < |s| ==> StrLess(s[j], s[i])
  }

  /** `names` is what `os.listdir` may return for a folder: every name once, in any order. */
  ghost predicate Listing(names: seq<string>, folder: map<string, File>) {
    Distinct(names) && forall n :: n in names <==> n in folder
  }

  lemma {:induction false} InsertDescSorts(x: string, s: seq<string>)
    requires Descending(s) && x !in s
    ensures Descending(InsertDesc(x, s))
    ensures forall y :: y in InsertDesc(x, s) <==> y == x || y in s
  {
    var r := InsertDesc(x, s);
    if s == [] || StrLess(s[0], x) {
      forall i, j | 0 <= i < j < |r| ensures StrLess(r[j], r[i]) {
        if i == 0 && j > 1 { StrLessTransitive(s[j - 1], s[0], x); }
      }
    } else {
      var rest := s[1..];
      InsertDescSorts(x, rest);
      StrLessTotal(s[0], x);
      assert s == [s[0]] + rest;
      assert r == [s[0]] + InsertDesc(x, rest);
      forall y | y in InsertDesc(x, rest) ensures StrLess(y, s[0]) {
        if y != x {
          var k :| 0 <= k < |rest| && rest[k] == y;
          assert s[k + 1] == y;
        }
      }
      forall i, j | 0 <= i < j < |r| ensures StrLess(r[j], r[i]) {
        if i == 0 { assert r[j] == InsertDesc(x, rest)[j - 1]; }
      }
    }
  }

  lemma {:induction false} SortDescSorts(names: seq<string>)
    requires Distinct(names)
    ensures Descending(SortDesc(names))
    ensures forall y :: y in SortDesc(names) <==> y in names
  {
    if names != [] {
      var front, last := names[..|names| - 1], names[|names| - 1];
      assert names == front + [last];
      DistinctPrefix(front, last);
      SortDescSorts(front);
      InsertDescSorts(last, SortDesc(front));
    }
  }

  function ToSet(names: seq<string>): set<string> {
    set n | n in names
  }

  lemma {:induction false} PrefixSize(files: seq<string>, i: nat)
    requires Descending(files) && i <= |files|
    ensures |ToSet(files[..i])| == i
  {
    hide StrLess;
    if i > 0 {
      var front, last := files[..i - 1], files[i - 1];
      PrefixSize(files, i - 1);
      assert files[..i] == front + [last];
      assert ToSet(files[..i]) == ToSet(front) + {last};
      StrLessTotal(last, last);
      assert last !in front;
    }
  }

  /** In a descending list of all matching names, the i-th has exactly i newer ones. */
  lemma NewerCount(names: set<string>, prefix: string, files: seq<string>, i: nat)
    requires Descending(files) && i < |files|
    requires forall n :: n in files <==> n in names && Matches(prefix, n)
    ensures |Newer(names, prefix, files[i])| == i
  {
    var newer, front := Newer(names, prefix, files[i]), files[..i];
    forall n | n in newer ensures n in front {
      var j :| 0 <= j < |files| && files[j] == n;
      StrLessTotal(files[i], n);
      assert front[j] == n;
    }
    forall n | n in front ensures n in newer {
      var j :| 0 <= j < i && front[j] == n;
      assert files[j] == n;
      assert n in files;
    }
    assert newer == ToSet(front);
    PrefixSize(files, i);
  }

  /** Dropping what follows the first `keep` of the sorted matching names is dropping the stale ones. */
  lemma SortedPrune(folder: map<string, File>, prefix: string, keep: nat, files: seq<string>, n: string)
    requires Descending(files)
    requires forall m :: m in files <==> m in folder && Matches(prefix, m)
    requires n in folder
    ensures Stale(folder.Keys, prefix, keep, n) <==> exists i :: keep <= i < |files| && files[i] == n
  {
    if Matches(prefix, n) {
      assert n in files;
      var i :| 0 <= i < |files| && files[i] == n;
      NewerCount(folder.Keys, prefix, files, i);
      if exists k :: keep <= k < |files| && files[k] == n {
        var k :| keep <= k < |files| && files[k] == n;
        NewerCount(folder.Keys, prefix, files, k);
      }
    } else {
      assert n !in files;
    }
  }

  lemma FilesOfListing(names: seq<string>, folder: map<string, File>, prefix: string)
    requires Listing(names, folder)
    ensures var files := SortDesc(Where(names, Matching(prefix)));
            && Descending(files)
            && forall m :: m in files <==> m in folder && Matches(prefix, m)
  {
    WhereMembers(names, Matching(prefix));
    DistinctKept(names, Matching(prefix));
    SortDescSorts(Where(names, Matching(prefix)));
  }

  lemma {:induction false} DistinctKept(names: seq<string>, keep: string -> bool)
    requires Distinct(names)
    ensures Distinct(Where(names, keep))
  {
    if names != [] {
      var front, last := names[..|names| - 1], names[|names| - 1];
      assert names == front + [last];
      DistinctPrefix(front, last);
      DistinctKept(front, keep);
      WhereMembers(front, keep);
      if keep(last) { DistinctAppend(Where(front, keep), last); }
    }
  }

  // ----- what pruning guarantees -----

  /** Every deleted file is older than every matching survivor, and nothing else is touched. */
  lemma PruneKeepsNewest(folder: map<string, File>, prefix: string, keep: int, gone: string, left: string)
    requires gone in folder && gone !in Pruned(folder, prefix, keep)
    requires left in Pruned(folder, prefix, keep) && Matches(prefix, left)
    ensures Matches(prefix, gone) && StrLess(gone, left) && folder[left] == Pruned(folder, prefix, keep)[left]
  {
    StrLessTotal(gone, left);
    if StrLess(left, gone) {
      var a, b := Newer(folder.Keys, prefix, gone), Newer(folder.Keys, prefix, left);
      forall m | m in a ensures m in b {
        StrLessTransitive(left, gone, m);
      }
      SubsetSize(a, b);
    }
  }

  /** What does not begin with the prefix or does not end in ".db" stays, and without a limit everything does. */
  lemma PruneLeavesOthers(folder: map<string, File>, prefix: string, keep: int, name: string)
    requires name in folder
    requires keep <= 0 || |name| < |prefix| || name[..|prefix|] != prefix || |name| < 3 || name[|name| - 3..] != ".db"
    ensures name in Pruned(folder, prefix, keep) && Pruned(folder, prefix, keep)[name] == folder[name]
  {
    if |name| >= |prefix| && prefix <= name { assert name[..|prefix|] == prefix; }
  }

  /** In terms of time: every stamped backup that goes is earlier than every one that stays. */
  lemma PruneKeepsLatest(folder: map<string, File>, prefix: string, keep: int, gone: Stamp, left: Stamp)
    requires ValidStamp(gone) && ValidStamp(left)
    requires FileName(prefix, gone) in folder && FileName(prefix, gone) !in Pruned(folder, prefix, keep)
    requires FileName(prefix, left) in Pruned(folder, prefix, keep)
    ensures Earlier(gone, left)
  {
    hide FileName, Matches, Earlier, Pruned;
    NameMatches(prefix, left);
    PruneKeepsNewest(folder, prefix, keep, FileName(prefix, gone), FileName(prefix, left));
    NameOrder(prefix, gone, left);
  }

  lemma {:induction false} SubsetSize<T>(a: set<T>, b: set<T>)
    requires a <= b
    ensures |a| <= |b|
    decreases |a|
  {
    if a != {} {
      var x :| x in a;
      SubsetSize(a - {x}, b - {x});
    }
  }

  /** Exactly min(keep, count) matching files survive. */
  lemma PruneCount(folder: map<string, File>, prefix: string, keep: int, names: seq<string>)
    requires keep > 0 && Listing(names, folder)
    ensures var all := set n | n in folder && Matches(prefix, n);
            var left := set n | n in Pruned(folder, prefix, keep) && Matches(prefix, n);
            left <= all && |left| == if keep <= |all| then keep else |all|
  {
    hide SortDesc, Where, Descending, Stale;
    var files := SortDesc(Where(names, Matching(prefix)));
    FilesOfListing(names, folder, prefix);
    var k := if keep <= |files| then keep else |files|;
    var all := set n | n in folder && Matches(prefix, n);
    var left := set n | n in Pruned(folder, prefix, keep) && Matches(prefix, n);
    assert all == ToSet(files[..|files|]) by { assert files[..|files|] == files; }
    PrefixSize(files, |files|);
    forall n ensures n in left <==> n in files[..k] {
      if n in all {
        SortedPrune(folder, prefix, keep, files, n);
        DescendingIndex(files, k, n);
      }
    }
    assert left == ToSet(files[..k]);
    PrefixSize(files, k);
  }

  /** In a descending list a name stands either in the front or in the back. */
  lemma DescendingIndex(files: seq<string>, k: nat, n: string)
    requires Descending(files) && k <= |files| && n in files
    ensures n in files[..k] <==> !exists i :: k <= i < |files| && files[i] == n
  {
    var j :| 0 <= j < |files| && files[j] == n;
    if j < k { assert files[..k][j] == n; }
    StrLessTotal(n, n);
  }

  /** Pruning twice is pruning once. */
  lemma PruneIdempotent(folder: map<string, File>, prefix: string, keep: int)
    ensures Pruned(Pruned(folder, prefix, keep), prefix, keep) == Pruned(folder, prefix, keep)
  {
    var p := Pruned(folder, prefix, keep);
    forall n | n in p ensures keep > 0 ==> !Stale(p.Keys, prefix, keep, n) {
      if keep > 0 && Matches(prefix, n) {
        SubsetSize(Newer(p.Keys, prefix, n), Newer(folder.Keys, prefix, n));
      }
    }
  }

  /** A name with no newer one under its prefix is never pruned. */
  lemma NewestSurvives(folder: map<string, File>, prefix: string, keep: int, n: string)
    requires n in folder && forall m :: m in folder && Matches(prefix, m) ==> !StrLess(n, m)
    ensures n in Pruned(folder, prefix, keep) && Pruned(folder, prefix, keep)[n] == folder[n]
  {
    assert Newer(folder.Keys, prefix, n) == {};
  }
}
