/**
 Whole runs of the program as seen from the disk: start-ups, restores, manual backups and ordinary
 use in between. Real data is never replaced by an empty database unasked, nothing an import or a
 restore replaced is lost, and pruning keeps the newest automatic backups.
 */
module BackupRuns {
  import opened BackupNames
  import opened Backups
  import opened Text

  // ----- events -----

  datatype Event =
    /** `create_app`: import, create tables, automatic backup, migrate. */
    | Startup(now: Stamp, candidates: seq<File>, enabled: bool, keep: int, initBody: int, migratedBody: int)
    | RestoreFrom(now: Stamp, source: Source, allowEmpty: bool)
    | ManualBackup(now: Stamp)
    /** Anything users do to the database between the others. */
    | Use(file: File)

  /** Creating tables and seeding defaults, or adding columns: no worker, project or payment is added or lost. */
  function Rewrite(target: Option<File>, body: int): Option<File> {
    match target
    case None => Some(File(Some(Counts(0, 0, 0)), body))
    case Some(f) => Some(File(if f.counts == None then Some(Counts(0, 0, 0)) else f.counts, body))
  }

  function AutoBackup(d: Disk, enabled: bool, keep: int, now: Stamp): Disk {
    if !enabled then d
    else
      var b := CreateBackup(d, AUTO, now);
      b.(folder := Pruned(b.folder, AUTO, keep))
  }

  function Do(d: Disk, e: Event): Disk {
    match e
    case Startup(now, candidates, enabled, keep, initBody, migratedBody) =>
      var a := Bootstrap(d, candidates, now);
      var b := AutoBackup(a.(target := Rewrite(a.target, initBody)), enabled, keep, now);
      b.(target := Rewrite(b.target, migratedBody))
    case RestoreFrom(now, source, allowEmpty) => Restore(d, source, allowEmpty, now)
    case ManualBackup(now) => CreateBackup(d, MANUAL, now)
    case Use(file) => d.(target := Some(file))
  }

  function Run(d: Disk, events: seq<Event>): Disk {
    if events == [] then d else Do(Run(d, events[..|events| - 1]), events[|events| - 1])
  }

  // ----- real data is never emptied unasked -----

  lemma {:induction false} FirstPopulatedIsPopulated(candidates: seq<File>)
    ensures FirstPopulated(candidates).Some? <==> exists f :: f in candidates && HasRealData(f.counts)
    ensures FirstPopulated(candidates).Some? ==> Populated(FirstPopulated(candidates))
  {
    if candidates != [] {
      FirstPopulatedIsPopulated(candidates[1..]);
      assert candidates == [candidates[0]] + candidates[1..];
    }
  }

  /**
   Start-up leaves a populated target's data alone, and imports into any other exactly when some
   candidate holds data.
   */
  lemma StartupImports(d: Disk, candidates: seq<File>, now: Stamp)
    ensures Populated(d.target) ==> Bootstrap(d, candidates, now) == d
    ensures Populated(Bootstrap(d, candidates, now).target) <==>
            Populated(d.target) || exists f :: f in candidates && HasRealData(f.counts)
  {
    FirstPopulatedIsPopulated(candidates);
  }

  /** The events that may not destroy data: no restore with `allow_empty`, no use that deletes everything. */
  predicate Protective(e: Event) {
    (e.RestoreFrom? ==> !e.allowEmpty) && (e.Use? ==> HasRealData(e.file.counts))
  }

  lemma StepKeepsData(d: Disk, e: Event)
    requires Populated(d.target) && Protective(e)
    ensures Populated(Do(d, e).target)
  {
    hide FileName, Pruned;
  }

  /** A database with at least one worker, project or payment. */
  predicate HasRows(target: Option<File>) {
    target.Some? && target.value.counts.Some? && target.value.counts.value != Counts(0, 0, 0)
  }

  /** That is what counts as real data: one row of any of the three kinds is enough. */
  lemma RealDataIsRows(f: File)
    ensures HasRealData(f.counts) <==> f.counts.Some? && f.counts.value != Counts(0, 0, 0)
    ensures Populated(Some(f)) <==> HasRows(Some(f))
  {
  }

  /**
   Over any run whose restores do not allow emptiness and whose uses keep a row, a database with a worker,
   a project or a payment never loses its last one.
   */
  lemma {:induction false} RunsKeepData(d: Disk, events: seq<Event>)
    requires HasRows(d.target)
    requires forall i :: 0 <= i < |events| ==>
               && (events[i].RestoreFrom? ==> !events[i].allowEmpty)
               && (events[i].Use? ==> HasRows(Some(events[i].file)))
    ensures HasRows(Run(d, events).target)
  {
    hide Protective, Populated, Do, FileName, HasRows, HasRealData;
    if events != [] {
      var front, last := events[..|events| - 1], events[|events| - 1];
      assert forall i :: 0 <= i < |front| ==> front[i] == events[i];
      RunsKeepData(d, front);
      RowsArePopulated(Run(d, front).target);
      ProtectiveInRows(last);
      StepKeepsData(Run(d, front), last);
      RowsArePopulated(Run(d, events).target);
    }
  }

  lemma RowsArePopulated(target: Option<File>)
    ensures Populated(target) <==> HasRows(target)
  {
  }

  lemma ProtectiveInRows(e: Event)
    ensures Protective(e) <==> (e.RestoreFrom? ==> !e.allowEmpty) && (e.Use? ==> HasRows(Some(e.file)))
  {
  }

  /**
   Start-up in terms of rows: a target with a worker, a project or a payment stays as it is; any other is
   replaced by the first candidate with a row, a copy of it being kept, or stays if there is none.
   */
  lemma ImportInRows(d: Disk, candidates: seq<File>, now: Stamp)
    ensures HasRows(d.target) ==> Bootstrap(d, candidates, now) == d
    ensures (forall i :: 0 <= i < |candidates| ==> !HasRows(Some(candidates[i]))) ==> Bootstrap(d, candidates, now) == d
    ensures forall k :: 0 <= k < |candidates| && HasRows(Some(candidates[k])) && !HasRows(d.target) &&
                        (forall i :: 0 <= i < k ==> !HasRows(Some(candidates[i]))) ==>
              var after := Bootstrap(d, candidates, now);
              && after.target == Some(candidates[k])
              && (d.target.Some? ==> Holds(after.folder, Kept(FileName(PRE_IMPORT, now), d.target.value)))
  {
    hide FileName, HasRows, Populated;
    RowsArePopulated(d.target);
    FirstWithRows(candidates);
  }

  lemma {:induction false} FirstWithRows(candidates: seq<File>)
    ensures FirstPopulated(candidates) == None <==> forall i :: 0 <= i < |candidates| ==> !HasRows(Some(candidates[i]))
    ensures forall k :: 0 <= k < |candidates| && HasRows(Some(candidates[k])) &&
                        (forall i :: 0 <= i < k ==> !HasRows(Some(candidates[i]))) ==>
              FirstPopulated(candidates) == Some(candidates[k])
  {
    hide HasRows, HasRealData;
    if candidates != [] {
      var rest := candidates[1..];
      FirstWithRows(rest);
      RealDataIsRows(candidates[0]);
      assert HasRealData(candidates[0].counts) <==> HasRows(Some(candidates[0])) by { OneWithRows(candidates[0]); }
      assert forall i :: 0 < i < |candidates| ==> candidates[i] == rest[i - 1];
      forall k | 0 <= k < |candidates| && HasRows(Some(candidates[k])) &&
                 (forall i :: 0 <= i < k ==> !HasRows(Some(candidates[i])))
        ensures FirstPopulated(candidates) == Some(candidates[k])
      {
        if k > 0 {
          assert !HasRows(Some(candidates[0]));
          assert forall i :: 0 <= i < k - 1 ==> rest[i] == candidates[i + 1];
          assert rest[k - 1] == candidates[k];
        }
      }
    }
  }

  lemma OneWithRows(f: File)
    ensures HasRealData(f.counts) <==> HasRows(Some(f))
  {
  }

  /**
   A restore in terms of rows: without a readable source nothing happens; nor does a source without rows
   replace a target with some, unless that is allowed. Everything else is restored, from the folder as it
   is when the copy of the target has been written.
   */
  lemma RestoreInRows(d: Disk, source: Source, allowEmpty: bool, now: Stamp)
    ensures var after := Restore(d, source, allowEmpty, now);
            var file := if source.Elsewhere? then source.file
                        else if source.name in d.folder then Some(d.folder[source.name]) else None;
            if file == None || file.value.counts == None then after == d
            else if !HasRows(file) && HasRows(d.target) && !allowEmpty then after == d
            else
              && (d.target.Some? ==> Holds(after.folder, Kept(FileName(PRE_RESTORE, now), d.target.value)))
              && after.target == (if d.target.Some? && source == Stored(FileName(PRE_RESTORE, now)) then d.target
                                  else file)
              && forall n :: n in d.folder && n != FileName(PRE_RESTORE, now) ==>
                   Holds(after.folder, Kept(n, d.folder[n]))
  {
    hide FileName, HasRealData, Populated, HasRows;
    RowsArePopulated(d.target);
    RowsArePopulated(Lookup(d, source));
    if Lookup(d, source).Some? { OneWithRows(Lookup(d, source).value); }
  }

  /** With automatic backups switched off, start-up touches the folder only to keep what an import replaces. */
  lemma DisabledStartupPrunesNothing(d: Disk, e: Event)
    requires e.Startup? && !e.enabled
    ensures Do(d, e).folder == d.folder ||
            (d.target.Some? && Do(d, e).folder == d.folder[FileName(PRE_IMPORT, e.now) := d.target.value])
    ensures HasRows(d.target) ==> Do(d, e).folder == d.folder
  {
    hide FileName, FirstPopulated, HasRows;
    RowsArePopulated(d.target);
  }

  /** What a whole start-up leaves: rows are neither added nor lost by creating tables and migrating. */
  lemma StartupKeepsCounts(d: Disk, e: Event)
    requires e.Startup?
    ensures var imported := Bootstrap(d, e.candidates, e.now).target;
            var after := Do(d, e).target;
            && after.Some? && after.value.body == e.migratedBody
            && after.value.counts == Some(if imported.Some? && imported.value.counts.Some?
                                          then imported.value.counts.value else Counts(0, 0, 0))
  {
    hide FileName, Pruned, Bootstrap;
  }

  /**
   An accepted restore brings back the chosen content, unless the chosen file is the very one its
   safety copy overwrites with something else.
   */
  lemma RestoreBringsBack(d: Disk, source: Source, allowEmpty: bool, now: Stamp)
    requires MayRestore(d, source, allowEmpty)
    ensures Restore(d, source, allowEmpty, now).target == Lookup(d, source) <==>
            source != Stored(FileName(PRE_RESTORE, now)) || d.target == None || d.target == Lookup(d, source)
  {
    hide FileName;
  }

  /**
   A backup taken with `create_backup` shows the target as it is now exactly when the second was not
   used before, or the file from then happens to be the same.
   */
  lemma BackupIsCurrent(d: Disk, prefix: string, now: Stamp)
    requires d.target.Some?
    ensures Holds(CreateBackup(d, prefix, now).folder, Kept(FileName(prefix, now), d.target.value)) <==>
            FileName(prefix, now) !in d.folder || d.folder[FileName(prefix, now)] == d.target.value
  {
    hide FileName;
  }

  // ----- nothing replaced is lost -----

  datatype Kept = Kept(name: string, file: File)

  /** The content an event replaces by another file, and the name its safety copy gets. */
  function Replaced(d: Disk, e: Event): Option<Kept> {
    match e
    case Startup(now, candidates, _, _, _, _) =>
      if !Populated(d.target) && FirstPopulated(candidates).Some? && d.target.Some?
      then Some(Kept(FileName(PRE_IMPORT, now), d.target.value)) else None
    case RestoreFrom(now, source, allowEmpty) =>
      if MayRestore(d, source, allowEmpty) && d.target.Some?
      then Some(Kept(FileName(PRE_RESTORE, now), d.target.value)) else None
    case _ => None
  }

  predicate Holds(folder: map<string, File>, k: Kept) {
    k.name in folder && folder[k.name] == k.file
  }

  predicate Stamped(e: Event) {
    !e.Use?
  }

  /** The safety copy is in the folder when the event is over. */
  lemma ReplacedIsKept(d: Disk, e: Event)
    requires Replaced(d, e).Some? && ValidStamp(e.now)
    ensures Holds(Do(d, e).folder, Replaced(d, e).value)
    ensures exists p :: (p == PRE_IMPORT || p == PRE_RESTORE) && Replaced(d, e).value.name == FileName(p, e.now)
  {
    hide FileName, Matches, Populated, FirstPopulated;
    if e.Startup? {
      OtherPrefix(AUTO, PRE_IMPORT, e.now);
      var b := Bootstrap(d, e.candidates, e.now);
      var a := b.(target := Rewrite(b.target, e.initBody));
      NotPruned(CreateBackup(a, AUTO, e.now).folder, e.keep, FileName(PRE_IMPORT, e.now));
      CreateKeeps(a, AUTO, e.now, FileName(PRE_IMPORT, e.now));
    }
  }

  lemma NotPruned(folder: map<string, File>, keep: int, name: string)
    requires name in folder && !Matches(AUTO, name)
    ensures name in Pruned(folder, AUTO, keep) && Pruned(folder, AUTO, keep)[name] == folder[name]
  {
    hide Matches;
  }

  /** `create_backup` never changes an existing file. */
  lemma CreateKeeps(d: Disk, prefix: string, now: Stamp, name: string)
    ensures name in d.folder ==>
              name in CreateBackup(d, prefix, now).folder && CreateBackup(d, prefix, now).folder[name] == d.folder[name]
  {
    hide FileName;
  }

  /**
   A file that is no automatic backup survives every event, unless the event writes a safety copy
   under its very name.
   */
  lemma StepKeepsFile(d: Disk, e: Event, name: string)
    requires name in d.folder && !Matches(AUTO, name)
    requires Replaced(d, e).Some? ==> name != Replaced(d, e).value.name
    ensures name in Do(d, e).folder && Do(d, e).folder[name] == d.folder[name]
  {
    hide FileName, Matches, Populated, FirstPopulated, MayRestore, Lookup;
    if e.Startup? {
      var b := Bootstrap(d, e.candidates, e.now);
      var a := b.(target := Rewrite(b.target, e.initBody));
      CreateKeeps(a, AUTO, e.now, name);
      NotPruned(CreateBackup(a, AUTO, e.now).folder, e.keep, name);
    }
  }

  /** The content of the last safety copy that a run wrote under a name. */
  function LastCopy(d: Disk, events: seq<Event>, name: string): Option<File> {
    if events == [] then None
    else
      var front, last := events[..|events| - 1], events[|events| - 1];
      var r := Replaced(Run(d, front), last);
      if r.Some? && r.value.name == name then Some(r.value.file) else LastCopy(d, front, name)
  }

  /** The stamps that `strftime` prints in fifteen characters. */
  predicate ValidStamps(events: seq<Event>) {
    forall i :: 0 <= i < |events| && Stamped(events[i]) ==> ValidStamp(events[i].now)
  }

  /** What a run last wrote under a name is what the folder holds there at the end. */
  lemma {:induction false} LastCopyIsHeld(d: Disk, events: seq<Event>, name: string)
    requires ValidStamps(events) && LastCopy(d, events, name).Some?
    ensures !Matches(AUTO, name)
    ensures Holds(Run(d, events).folder, Kept(name, LastCopy(d, events, name).value))
  {
    hide Do, Replaced, ValidStamp, FileName, Matches;
    var front, last := events[..|events| - 1], events[|events| - 1];
    var r := Replaced(Run(d, front), last);
    assert forall k :: 0 <= k < |front| ==> front[k] == events[k];
    if r.Some? && r.value.name == name {
      OnlyStampedReplace(Run(d, front), last);
      ReplacedIsKept(Run(d, front), last);
      CopyIsNotAutomatic(Run(d, front), last);
    } else {
      LastCopyIsHeld(d, front, name);
      StepKeepsFile(Run(d, front), last, name);
    }
  }

  lemma CopyIsNotAutomatic(d: Disk, e: Event)
    requires Replaced(d, e).Some? && ValidStamp(e.now)
    ensures !Matches(AUTO, Replaced(d, e).value.name)
  {
    hide FileName, Matches, Populated, FirstPopulated, MayRestore, ValidStamp;
    OtherPrefix(AUTO, PRE_IMPORT, e.now);
    OtherPrefix(AUTO, PRE_RESTORE, e.now);
  }

  lemma {:induction false} CopyWritten(d: Disk, events: seq<Event>, i: nat)
    requires i < |events| && Replaced(Run(d, events[..i]), events[i]).Some?
    ensures LastCopy(d, events, Replaced(Run(d, events[..i]), events[i]).value.name).Some?
    decreases |events|
  {
    hide Do, Replaced;
    var n := |events| - 1;
    assert events[..n][..i] == events[..i];
    if i < n { CopyWritten(d, events[..n], i); }
  }

  /**
   Over any run, from any disk, what an import or a restore replaced is still under the name of its
   safety copy at the end exactly when the last safety copy written under that name has the same
   content.
   */
  lemma CopySurvivesExactly(d: Disk, events: seq<Event>, i: nat)
    requires ValidStamps(events) && i < |events|
    requires Replaced(Run(d, events[..i]), events[i]).Some?
    ensures var kept := Replaced(Run(d, events[..i]), events[i]).value;
            Holds(Run(d, events).folder, kept) <==> LastCopy(d, events, kept.name) == Some(kept.file)
  {
    hide Run, Replaced, ValidStamp, LastCopy;
    CopyWritten(d, events, i);
    LastCopyIsHeld(d, events, Replaced(Run(d, events[..i]), events[i]).value.name);
  }

  /** No later import or restore that replaces something carries the second of event i. */
  predicate OwnSecond(d: Disk, events: seq<Event>, i: nat)
    requires i < |events| && Stamped(events[i])
  {
    forall j :: i < j < |events| && Stamped(events[j]) && Replaced(Run(d, events[..j]), events[j]).Some? ==>
      events[j].now != events[i].now
  }

  /** In particular it survives when no later import or restore falls into its second. */
  lemma {:induction false} RunsLoseNothing(d: Disk, events: seq<Event>, i: nat)
    requires ValidStamps(events) && i < |events| && Stamped(events[i]) && OwnSecond(d, events, i)
    requires Replaced(Run(d, events[..i]), events[i]).Some?
    ensures Holds(Run(d, events).folder, Replaced(Run(d, events[..i]), events[i]).value)
  {
    hide Run, Replaced, ValidStamp, LastCopy;
    CopySurvivesExactly(d, events, i);
    OwnCopyIsLast(d, events, i);
  }

  lemma {:induction false} OwnCopyIsLast(d: Disk, events: seq<Event>, i: nat)
    requires ValidStamps(events) && i < |events| && Stamped(events[i]) && OwnSecond(d, events, i)
    requires Replaced(Run(d, events[..i]), events[i]).Some?
    ensures var kept := Replaced(Run(d, events[..i]), events[i]).value;
            LastCopy(d, events, kept.name) == Some(kept.file)
    decreases |events|
  {
    hide Do, Replaced, ValidStamp;
    var n := |events| - 1;
    var front := events[..n];
    assert forall k :: 0 <= k < n ==> front[k] == events[k] && front[..k] == events[..k];
    if i < n {
      OwnCopyIsLast(d, front, i);
      if Replaced(Run(d, front), events[n]).Some? {
        OnlyStampedReplace(Run(d, front), events[n]);
        CopiesDiffer(Run(d, events[..i]), events[i], Run(d, front), events[n]);
      }
    }
  }

  lemma CopiesDiffer(c: Disk, e: Event, d: Disk, f: Event)
    requires Replaced(c, e).Some? && Replaced(d, f).Some? && ValidStamp(e.now) && ValidStamp(f.now) && e.now != f.now
    ensures Replaced(c, e).value.name != Replaced(d, f).value.name
  {
    hide FileName, ValidStamp, Populated, FirstPopulated, MayRestore;
    NamesDiffer(PRE_IMPORT, e.now, f.now);
    NamesDiffer(PRE_RESTORE, e.now, f.now);
  }

  lemma OnlyStampedReplace(d: Disk, e: Event)
    ensures Replaced(d, e).Some? ==> Stamped(e)
  {
  }

  lemma NamesDiffer(p: string, a: Stamp, b: Stamp)
    requires ValidStamp(a) && ValidStamp(b) && a != b
    ensures FileName(p, a) != FileName(PRE_IMPORT, b) && FileName(p, a) != FileName(PRE_RESTORE, b)
  {
    hide FileName, ValidStamp;
    if FileName(p, a) == FileName(PRE_IMPORT, b) { NameTellsStamp(p, a, PRE_IMPORT, b); }
    if FileName(p, a) == FileName(PRE_RESTORE, b) { NameTellsStamp(p, a, PRE_RESTORE, b); }
  }

  /**
   Two restores one after the other: the first safety copy is intact exactly when the seconds differ
   or the second restore replaced the same content again.
   */
  lemma SecondRestoreOverwrites(d: Disk, e: Event, f: Event)
    requires e.RestoreFrom? && f.RestoreFrom? && ValidStamp(e.now) && ValidStamp(f.now)
    requires Replaced(d, e).Some? && Replaced(Do(d, e), f).Some?
    ensures Holds(Do(Do(d, e), f).folder, Replaced(d, e).value) <==>
            e.now != f.now || Do(d, e).target == d.target
  {
    hide FileName, Populated, Lookup, MayRestore, ValidStamp;
    if e.now != f.now { NamesDiffer(PRE_RESTORE, e.now, f.now); }
  }

  /** The content is nowhere on the disk. */
  predicate Gone(d: Disk, content: File) {
    d.target != Some(content) && forall n :: n in d.folder ==> d.folder[n] != content
  }

  /**
   Two restores in the same second lose the content that the first one replaced exactly when neither
   brings that content back itself, from elsewhere or (the first) from the copy just made, and no
   other file of the folder holds it.
   */
  lemma SameSecondLosesContent(d: Disk, e: Event, f: Event)
    requires e.RestoreFrom? && f.RestoreFrom? && e.now == f.now
    requires Replaced(d, e).Some? && Replaced(Do(d, e), f).Some?
    ensures var content, name := d.target.value, FileName(PRE_RESTORE, e.now);
            Gone(Do(Do(d, e), f), content) <==>
            && e.source != Elsewhere(Some(content)) && e.source != Stored(name)
            && f.source != Elsewhere(Some(content))
            && forall n :: n in d.folder && n != name ==> d.folder[n] != content
  {
    hide FileName, Populated;
    var content, name := d.target.value, FileName(PRE_RESTORE, e.now);
    var first := Do(d, e);
    assert first.folder == d.folder[name := content];
    var second := Do(first, f);
    var folder := d.folder[name := first.target.value];
    assert second == Disk(Lookup(Disk(None, folder), f.source), folder);
    assert first.target == Lookup(Disk(None, d.folder[name := content]), e.source);
    assert folder[name] == first.target.value;
    assert forall n :: n in d.folder && n != name ==> folder[n] == d.folder[n];
    assert forall n :: n in folder && n != name ==> n in d.folder;
  }

  function OneWorker(body: int): File {
    File(Some(Counts(1, 0, 0)), body)
  }

  /** At an input: after two restores of other files in one second the first content is nowhere on the disk. */
  lemma SameSecondLosesCopy(now: Stamp)
    ensures
      var d := Disk(Some(OneWorker(1)), map[]);
      var after := Run(d, [RestoreFrom(now, Elsewhere(Some(OneWorker(2))), false),
                           RestoreFrom(now, Elsewhere(Some(OneWorker(3))), false)]);
      Gone(after, OneWorker(1))
  {
    hide FileName;
    var d := Disk(Some(OneWorker(1)), map[]);
    var e := RestoreFrom(now, Elsewhere(Some(OneWorker(2))), false);
    var f := RestoreFrom(now, Elsewhere(Some(OneWorker(3))), false);
    SameSecondLosesContent(d, e, f);
    assert [e, f][..1] == [e] && [e][..0] == [];
    assert Run(d, [e]) == Do(d, e);
  }

  // ----- the newest automatic backup -----

  /** Every automatic backup in the folder was taken no later than now. */
  ghost predicate AutoUpTo(folder: map<string, File>, now: Stamp) {
    forall n :: n in folder && Matches(AUTO, n) ==>
      exists t: Stamp :: ValidStamp(t) && n == FileName(AUTO, t) && !Earlier(now, t)
  }

  /** The clock does not run backwards. */
  ghost predicate ForwardClock(events: seq<Event>) {
    && (forall i :: 0 <= i < |events| && Stamped(events[i]) ==> ValidStamp(events[i].now))
    && (forall i, j :: 0 <= i < j < |events| && Stamped(events[i]) && Stamped(events[j]) ==>
          !Earlier(events[j].now, events[i].now))
  }

  lemma AutoUpToLater(folder: map<string, File>, a: Stamp, b: Stamp)
    requires AutoUpTo(folder, a) && !Earlier(b, a)
    ensures AutoUpTo(folder, b)
  {
    hide FileName, Matches, ValidStamp;
    forall n | n in folder && Matches(AUTO, n)
      ensures exists t: Stamp :: ValidStamp(t) && n == FileName(AUTO, t) && !Earlier(b, t)
    {
      var t: Stamp :| ValidStamp(t) && n == FileName(AUTO, t) && !Earlier(a, t);
    }
  }

  lemma FewerNames(folder: map<string, File>, fewer: map<string, File>, now: Stamp)
    requires AutoUpTo(folder, now) && forall n :: n in fewer && Matches(AUTO, n) ==> n in folder
    ensures AutoUpTo(fewer, now)
  {
    hide FileName, Matches, ValidStamp, Earlier;
  }

  lemma OneMoreName(folder: map<string, File>, p: string, now: Stamp, file: File)
    requires AutoUpTo(folder, now) && ValidStamp(now) && p != "" && (p == AUTO || p[0] != AUTO[0])
    ensures AutoUpTo(folder[FileName(p, now) := file], now)
  {
    hide FileName, ValidStamp;
    if p != AUTO { OtherPrefix(AUTO, p, now); }
    hide Matches;
    assert !Earlier(now, now);
  }

  lemma StepKeepsClock(d: Disk, e: Event, now: Stamp)
    requires AutoUpTo(d.folder, now) && (Stamped(e) ==> ValidStamp(e.now) && e.now == now)
    ensures AutoUpTo(Do(d, e).folder, now)
  {
    hide AutoUpTo, FileName, Populated, FirstPopulated, Lookup, MayRestore, ValidStamp, Matches, Pruned;
    match e
    case Startup(_, candidates, enabled, keep, initBody, _) =>
      var b := Bootstrap(d, candidates, now);
      if d.target.Some? { OneMoreName(d.folder, PRE_IMPORT, now, d.target.value); }
      assert AutoUpTo(b.folder, now);
      var a := b.(target := Rewrite(b.target, initBody));
      OneMoreName(a.folder, AUTO, now, a.target.value);
      var c := CreateBackup(a, AUTO, now);
      assert AutoUpTo(c.folder, now);
      PrunedIsFewer(c.folder, keep);
      FewerNames(c.folder, Pruned(c.folder, AUTO, keep), now);
    case RestoreFrom(_, _, _) =>
      if d.target.Some? { OneMoreName(d.folder, PRE_RESTORE, now, d.target.value); }
    case ManualBackup(_) =>
      if d.target.Some? { OneMoreName(d.folder, MANUAL, now, d.target.value); }
    case Use(_) =>
  }

  lemma PrunedIsFewer(folder: map<string, File>, keep: int)
    ensures forall n :: n in Pruned(folder, AUTO, keep) ==> n in folder
  {
    hide Stale;
  }

  /** No automatic backup that is there before a run lies in the future of one of its events. */
  ghost predicate StartsUpTo(folder: map<string, File>, events: seq<Event>) {
    forall i :: 0 <= i < |events| && Stamped(events[i]) ==> AutoUpTo(folder, events[i].now)
  }

  /** The automatic backups never lie in the future of the last event, if they did not before. */
  lemma {:induction false} RunsKeepClock(d: Disk, events: seq<Event>, now: Stamp)
    requires AutoUpTo(d.folder, now) && StartsUpTo(d.folder, events) && ForwardClock(events)
    requires forall i :: 0 <= i < |events| && Stamped(events[i]) ==> !Earlier(now, events[i].now)
    ensures AutoUpTo(Run(d, events).folder, now)
  {
    hide Do, AutoUpTo, Earlier, ValidStamp;
    if events != [] {
      var front, last := events[..|events| - 1], events[|events| - 1];
      assert forall k :: 0 <= k < |front| ==> front[k] == events[k];
      if Stamped(last) {
        RunsKeepClock(d, front, last.now);
        StepKeepsClock(Run(d, front), last, last.now);
        AutoUpToLater(Do(Run(d, front), last).folder, last.now, now);
      } else {
        RunsKeepClock(d, front, now);
        StepKeepsClock(Run(d, front), last, now);
      }
    }
  }

  /** What the automatic backup of a start-up should hold: the database after import and table creation. */
  function BackedUp(d: Disk, e: Event): File
    requires e.Startup?
  {
    Rewrite(Bootstrap(d, e.candidates, e.now).target, e.initBody).value
  }

  /**
   With a clock that does not run backwards and at least one backup to keep, the automatic backup
   of the current start-up is in the folder when start-up is over, and holds this start-up's
   database, unless a file of that second was there before: that one is then kept as it was.
   */
  lemma CurrentBackupSurvives(d: Disk, events: seq<Event>)
    requires StartsUpTo(d.folder, events) && ForwardClock(events) && events != []
    requires var e := events[|events| - 1]; e.Startup? && e.enabled && e.keep >= 1
    ensures
      var before, e := Run(d, events[..|events| - 1]), events[|events| - 1];
      var name := FileName(AUTO, e.now);
      Holds(Run(d, events).folder,
            Kept(name, if name in before.folder then before.folder[name] else BackedUp(before, e)))
  {
    hide FileName, AutoUpTo, ForwardClock, StartsUpTo, Populated, FirstPopulated, Pruned, Matches;
    var front, e := events[..|events| - 1], events[|events| - 1];
    assert AutoUpTo(Run(d, front).folder, e.now) && ValidStamp(e.now) by { ClockBefore(d, events); }
    var before, name := Run(d, front), FileName(AUTO, e.now);
    var b := Bootstrap(before, e.candidates, e.now);
    if before.target.Some? { OneMoreName(before.folder, PRE_IMPORT, e.now, before.target.value); }
    NameMatches(AUTO, e.now);
    OtherPrefix(AUTO, PRE_IMPORT, e.now);
    assert name in b.folder <==> name in before.folder;
    var a := b.(target := Rewrite(b.target, e.initBody));
    OneMoreName(a.folder, AUTO, e.now, a.target.value);
    var c := CreateBackup(a, AUTO, e.now);
    assert AutoUpTo(c.folder, e.now) && name in c.folder;
    NoNewerName(c.folder, e.now);
    NewestSurvives(c.folder, AUTO, e.keep, name);
  }

  lemma ClockBefore(d: Disk, events: seq<Event>)
    requires StartsUpTo(d.folder, events) && ForwardClock(events) && events != [] && Stamped(events[|events| - 1])
    ensures AutoUpTo(Run(d, events[..|events| - 1]).folder, events[|events| - 1].now)
    ensures ValidStamp(events[|events| - 1].now)
  {
    hide Do, AutoUpTo, Earlier, ValidStamp;
    var front, last := events[..|events| - 1], events[|events| - 1];
    assert forall k :: 0 <= k < |front| ==> front[k] == events[k];
    RunsKeepClock(d, front, last.now);
  }

  lemma NoNewerName(folder: map<string, File>, now: Stamp)
    requires AutoUpTo(folder, now) && ValidStamp(now)
    ensures forall n :: n in folder && Matches(AUTO, n) ==> !StrLess(FileName(AUTO, now), n)
  {
    hide FileName, Matches, StrLess, ValidStamp, Earlier;
    forall n | n in folder && Matches(AUTO, n) ensures !StrLess(FileName(AUTO, now), n) {
      var t: Stamp :| ValidStamp(t) && n == FileName(AUTO, t) && !Earlier(now, t);
      NameOrder(AUTO, now, t);
    }
  }
}
