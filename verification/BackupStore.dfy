/**
 The disk changed in place, statement by statement as payroll/db.py does it. Each method is proved
 to take the disk where the steps of modules `Backups` and `BackupRuns` say.
 */
module BackupStore {
  import opened BackupNames
  import opened BackupRuns
  import opened Backups
  import opened Tables
  import opened Text

  class Store {
    var target: Option<File>
    var folder: map<string, File>

    function Contents(): Disk
      reads this
    {
      Disk(target, folder)
    }

    constructor (target: Option<File>)
      ensures Contents() == Disk(target, map[])
    {
      this.target, folder := target, map[];
    }

    method WriteBackup(prefix: string, now: Stamp)
      modifies this`folder
      ensures Contents() == BackupFile(old(Contents()), prefix, now)
      ensures target.Some? ==> Holds(folder, Kept(FileName(prefix, now), target.value))
      ensures forall n :: n in old(folder) && n != FileName(prefix, now) ==> Holds(folder, Kept(n, old(folder)[n]))
      ensures forall n :: n in folder && n !in old(folder) ==> target.Some? && n == FileName(prefix, now)
    {
      hide FileName;
      if target == None {
        return;
      }
      var dest := FileName(prefix, now);
      folder := folder[dest := target.value];
    }

    method CreateBackup(prefix: string, now: Stamp)
      modifies this`folder
      ensures Contents() == Backups.CreateBackup(old(Contents()), prefix, now)
      ensures forall n :: n in old(folder) ==> Holds(folder, Kept(n, old(folder)[n]))
      ensures target.Some? && FileName(prefix, now) !in old(folder) ==>
                Holds(folder, Kept(FileName(prefix, now), target.value))
      ensures forall n :: n in folder && n !in old(folder) ==> target.Some? && n == FileName(prefix, now)
    {
      hide FileName;
      if target == None {
        return;
      }
      var dest := FileName(prefix, now);
      if dest in folder {
        return;
      }
      folder := folder[dest := target.value];
    }

    /** `bootstrap_database`: candidates are tried in order of priority. */
    method Bootstrap(candidates: seq<File>, now: Stamp) returns (imported: Option<int>)
      modifies this
      ensures Contents() == Backups.Bootstrap(old(Contents()), candidates, now)
      ensures imported == None <==>
              HasRows(old(target)) || forall k :: 0 <= k < |candidates| ==> !HasRows(Some(candidates[k]))
      ensures imported == None ==> Contents() == old(Contents())
      ensures imported.Some? ==>
                && 0 <= imported.value < |candidates| && target == Some(candidates[imported.value])
                && HasRows(target) && forall k :: 0 <= k < imported.value ==> !HasRows(Some(candidates[k]))
    {
      RowsArePopulated(target);
      if target.Some? && HasRealData(target.value.counts) {
        return None;
      }
      for i := 0 to |candidates|
        invariant Contents() == old(Contents())
        invariant FirstPopulated(candidates) == FirstPopulated(candidates[i..])
        invariant forall k :: 0 <= k < i ==> !HasRows(Some(candidates[k]))
      {
        OneWithRows(candidates[i]);
        assert candidates[i..][0] == candidates[i] && candidates[i..][1..] == candidates[i + 1..];
        if HasRealData(candidates[i].counts) {
          if target.Some? {
            WriteBackup(PRE_IMPORT, now);
          }
          target := Some(candidates[i]);
          return Some(i);
        }
      }
      return None;
    }

    method Restore(source: Source, allowEmpty: bool, now: Stamp) returns (ok: bool)
      modifies this
      ensures ok == MayRestore(old(Contents()), source, allowEmpty)
      ensures ok <==> var file := Lookup(old(Contents()), source);
                      && file.Some? && file.value.counts.Some?
                      && (HasRows(file) || !HasRows(old(target)) || allowEmpty)
      ensures Contents() == Backups.Restore(old(Contents()), source, allowEmpty, now)
    {
      var chosen := Lookup(Contents(), source);
      if chosen == None {
        return false;
      }
      if chosen.value.counts == None {
        return false;
      }
      if !HasRealData(chosen.value.counts) && Populated(target) && !allowEmpty {
        return false;
      }
      if target.Some? {
        WriteBackup(PRE_RESTORE, now);
      }
      target := Lookup(Contents(), source);
      return true;
    }

    /** `os.listdir`: every name once, in no particular order. */
    method ListDir() returns (names: seq<string>)
      ensures Listing(names, folder)
    {
      names := [];
      var left := folder.Keys;
      while left != {}
        invariant Distinct(names)
        invariant forall n :: n in names <==> n in folder && n !in left
        invariant left <= folder.Keys
        decreases left
      {
        var n :| n in left;
        DistinctAppend(names, n);
        names := names + [n];
        left := left - {n};
      }
    }

    /** `prune_backups`: sort the matching names downwards and remove what follows the first `keep`. */
    method Prune(prefix: string, keep: int)
      modifies this`folder
      ensures folder == Pruned(old(folder), prefix, keep)
    {
      if keep <= 0 {
        return;
      }
      var names := ListDir();
      var files := SortDesc(Where(names, Matching(prefix)));
      FilesOfListing(names, folder, prefix);
      ghost var before := folder;
      var i := keep;
      RemainingStep(before, files, keep, i);
      hide SortDesc, Where, Stale, Remaining, Descending;
      while i < |files|
        invariant keep <= i
        invariant folder == Remaining(before, files, keep, i)
      {
        RemainingStep(before, files, keep, i);
        var stale := files[i];
        folder := map n | n in folder && n != stale :: folder[n];
        i := i + 1;
      }
      PrunedIsRemaining(before, prefix, keep, files, i);
    }

    method AutoBackup(enabled: bool, keep: int, now: Stamp)
      modifies this`folder
      ensures Contents() == BackupRuns.AutoBackup(old(Contents()), enabled, keep, now)
    {
      if !enabled {
        return;
      }
      CreateBackup(AUTO, now);
      Prune(AUTO, keep);
    }

    /** The part of `create_app` that touches the disk. */
    method Startup(now: Stamp, candidates: seq<File>, enabled: bool, keep: int, initBody: int, migratedBody: int)
      modifies this
      ensures Contents() ==
              Do(old(Contents()), Event.Startup(now, candidates, enabled, keep, initBody, migratedBody))
    {
      var imported := Bootstrap(candidates, now);
      target := Rewrite(target, initBody);
      AutoBackup(enabled, keep, now);
      target := Rewrite(target, migratedBody);
    }
  }

  /** A folder without the files from position `from` up to `to` of a list. */
  ghost function Remaining(folder: map<string, File>, files: seq<string>, from: int, to: int): map<string, File> {
    map n | n in folder && !(exists k :: from <= k < to && 0 <= k < |files| && files[k] == n) :: folder[n]
  }

  lemma RemainingStep(folder: map<string, File>, files: seq<string>, from: int, i: int)
    requires from <= i && from >= 0
    ensures Remaining(folder, files, from, from) == folder
    ensures i < |files| ==>
              Remaining(folder, files, from, i + 1) ==
              (var r := Remaining(folder, files, from, i); map n | n in r && n != files[i] :: r[n])
  {
  }

  lemma PrunedIsRemaining(folder: map<string, File>, prefix: string, keep: int, files: seq<string>, end: int)
    requires keep > 0 && end >= |files| && Descending(files)
    requires forall m :: m in files <==> m in folder && Matches(prefix, m)
    ensures Remaining(folder, files, keep, end) == Pruned(folder, prefix, keep)
  {
    hide Stale, Descending;
    forall n | n in folder
      ensures Stale(folder.Keys, prefix, keep, n) <==> exists k :: keep <= k < |files| && files[k] == n
    {
      SortedPrune(folder, prefix, keep, files, n);
    }
  }
}
