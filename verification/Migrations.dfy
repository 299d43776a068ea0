/** One run of the migration runner against its ledger (migrations.go). */
module Migrations {
  import opened Basics

  datatype MigrationFile = MigrationFile(name: string, sql: string, checksum: string)

  /** What survives a crash: the ledger with its NULL or recorded checksums, and which files' SQL has taken
      effect, in order. */
  datatype Disk = Disk(hasTable: bool, hasColumn: bool, ledger: map<string, Option<string>>,
                       effects: seq<MigrationFile>)

  datatype MigrationError = Mismatch(name: string) | DatabaseFailed

  /** The directory listing gives every file once. */
  ghost predicate Distinct(files: seq<MigrationFile>) {
    forall i, j :: 0 <= i < j < |files| ==> files[i].name != files[j].name
  }

  /** A file has taken effect exactly when the ledger names it, and at most once. */
  ghost predicate ExactlyOnce(disk: Disk) {
    && (forall name :: name in disk.ledger <==> exists i :: 0 <= i < |disk.effects| && disk.effects[i].name == name)
    && Distinct(disk.effects)
    && (!disk.hasTable ==> disk.ledger == map[])
    && (!disk.hasColumn ==> forall name :: name in disk.ledger ==> disk.ledger[name] == None)
  }

  // ----- The two transactions

  predicate Contradicts(ledger: map<string, Option<string>>, file: MigrationFile) {
    file.name in ledger && ledger[file.name].Some? && ledger[file.name].value != file.checksum
  }

  predicate AnyMismatch(ledger: map<string, Option<string>>, files: seq<MigrationFile>) {
    exists i :: 0 <= i < |files| && Contradicts(ledger, files[i])
  }

  predicate NeedsChecksum(ledger: map<string, Option<string>>, file: MigrationFile) {
    file.name in ledger && ledger[file.name].None?
  }

  function Backfilled(ledger: map<string, Option<string>>, files: seq<MigrationFile>): (r: map<string, Option<string>>)
    ensures r.Keys == ledger.Keys
  {
    if files == [] then ledger
    else
      var file := files[|files| - 1];
      var rest := Backfilled(ledger, files[..|files| - 1]);
      if NeedsChecksum(ledger, file) then rest[file.name := Some(file.checksum)] else rest
  }

  function Bootstrapped(disk: Disk, files: seq<MigrationFile>): Disk {
    disk.(hasTable := true, hasColumn := true, ledger := Backfilled(disk.ledger, files))
  }

  function Applied(disk: Disk, file: MigrationFile): Disk {
    disk.(ledger := disk.ledger[file.name := Some(file.checksum)], effects := disk.effects + [file])
  }

  /** Exactly the NULL checksums of embedded files are filled in; everything else stays. */
  lemma {:induction false} BackfillTouchesOnlyNull(ledger: map<string, Option<string>>, files: seq<MigrationFile>,
                                                   name: string)
    requires name in ledger
    ensures ledger[name].Some? ==> Backfilled(ledger, files)[name] == ledger[name]
    ensures ledger[name].None? ==>
              if exists i :: 0 <= i < |files| && files[i].name == name
              then exists i :: && 0 <= i < |files| && files[i].name == name
                               && Backfilled(ledger, files)[name] == Some(files[i].checksum)
              else Backfilled(ledger, files)[name] == None
  {
    if files != [] {
      var last := |files| - 1;
      BackfillTouchesOnlyNull(ledger, files[..last], name);
      assert forall i :: 0 <= i < last ==> files[..last][i] == files[i];
    }
  }

  /** After a bootstrap that found no mismatch, every embedded file in the ledger is recorded with its own
      checksum. */
  lemma BootstrapRecords(disk: Disk, files: seq<MigrationFile>, i: nat)
    requires Distinct(files) && !AnyMismatch(disk.ledger, files) && i < |files| && files[i].name in disk.ledger
    ensures Backfilled(disk.ledger, files)[files[i].name] == Some(files[i].checksum)
  {
    assert !Contradicts(disk.ledger, files[i]);
    BackfillTouchesOnlyNull(disk.ledger, files, files[i].name);
  }

  lemma BootstrapKeepsExactlyOnce(disk: Disk, files: seq<MigrationFile>)
    requires ExactlyOnce(disk)
    ensures ExactlyOnce(Bootstrapped(disk, files))
  {
    assert forall name :: name in Bootstrapped(disk, files).ledger <==> name in disk.ledger;
  }

  lemma ApplyKeepsExactlyOnce(disk: Disk, file: MigrationFile)
    requires ExactlyOnce(disk) && disk.hasTable && disk.hasColumn && file.name !in disk.ledger
    ensures ExactlyOnce(Applied(disk, file))
  {
    var after := Applied(disk, file);
    forall name
      ensures name in after.ledger <==> exists i :: 0 <= i < |after.effects| && after.effects[i].name == name
    {
      if i :| 0 <= i < |disk.effects| && disk.effects[i].name == name { assert after.effects[i].name == name; }
      assert after.effects[|disk.effects|] == file;
    }
  }

  /** What the bootstrap transaction may leave behind: all of its work or none, and none on a mismatch. */
  ghost predicate Prepares(before: Disk, files: seq<MigrationFile>, commits: bool, after: Disk) {
    (commits ==> !AnyMismatch(before.ledger, files)) && after == if commits then Bootstrapped(before, files) else before
  }

  /** And a file's transaction: SQL and ledger row or neither; the primary key refuses a second row. */
  ghost predicate Applies(before: Disk, file: MigrationFile, commits: bool, after: Disk) {
    (commits ==> file.name !in before.ledger) && after == if commits then Applied(before, file) else before
  }

  // ----- A whole run

  /** The files a run still has to apply. */
  function Pending(ledger: map<string, Option<string>>, files: seq<MigrationFile>): seq<MigrationFile> {
    if files == [] then []
    else
      var file := files[|files| - 1];
      Pending(ledger, files[..|files| - 1]) + if file.name in ledger then [] else [file]
  }

  function ApplyAll(disk: Disk, files: seq<MigrationFile>): Disk {
    if files == [] then disk else Applied(ApplyAll(disk, files[..|files| - 1]), files[|files| - 1])
  }

  /** The run got through its bootstrap and the first n files. */
  ghost predicate StoppedAfter(before: Disk, files: seq<MigrationFile>, after: Disk, n: nat) {
    n <= |files| && after == ApplyAll(Bootstrapped(before, files), Pending(before.ledger, files[..n]))
  }

  /** `added` lists exactly the files that the ledger does not name, SQL and all, in the order they come in. */
  ghost predicate MissingInOrder(ledger: map<string, Option<string>>, files: seq<MigrationFile>,
                                 added: seq<MigrationFile>) {
    exists at: seq<nat> ::
      && |at| == |added|
      && (forall i :: 0 <= i < |at| ==> at[i] < |files| && added[i] == files[at[i]])
      && (forall i, j :: 0 <= i < j < |at| ==> at[i] < at[j])
      && forall k :: 0 <= k < |files| ==> (k in at <==> files[k].name !in ledger)
  }

  lemma {:induction false} PendingIsMissing(ledger: map<string, Option<string>>, files: seq<MigrationFile>)
    returns (at: seq<nat>)
    ensures var added := Pending(ledger, files);
            && |at| == |added|
            && (forall i :: 0 <= i < |at| ==> at[i] < |files| && added[i] == files[at[i]])
            && (forall i, j :: 0 <= i < j < |at| ==> at[i] < at[j])
            && forall k :: 0 <= k < |files| ==> (k in at <==> files[k].name !in ledger)
  {
    if files == [] {
      at := [];
    } else {
      var last := |files| - 1;
      at := PendingIsMissing(ledger, files[..last]);
      assert forall k :: 0 <= k < last ==> files[..last][k] == files[k];
      assert last !in at;
      if files[last].name !in ledger { at := at + [last]; }
    }
  }

  /** A run's effects are what was there, followed by exactly the missing files in order. */
  ghost predicate AddsMissing(before: Disk, files: seq<MigrationFile>, after: Disk) {
    exists added :: MissingInOrder(before.ledger, files, added) && after.effects == before.effects + added
  }

  lemma {:induction false} ApplyAllEffects(disk: Disk, files: seq<MigrationFile>)
    ensures ApplyAll(disk, files).effects == disk.effects + files
  {
    if files != [] {
      ApplyAllEffects(disk, files[..|files| - 1]);
      assert files == files[..|files| - 1] + [files[|files| - 1]];
    }
  }

  lemma StoppedAddsMissing(before: Disk, files: seq<MigrationFile>, after: Disk, n: nat)
    requires StoppedAfter(before, files, after, n)
    ensures AddsMissing(before, files[..n], after)
  {
    var added := Pending(before.ledger, files[..n]);
    var at := PendingIsMissing(before.ledger, files[..n]);
    ApplyAllEffects(Bootstrapped(before, files), added);
    assert Bootstrapped(before, files).effects == before.effects;
    hide Pending, ApplyAll, Bootstrapped;
    assert MissingInOrder(before.ledger, files[..n], added);
  }

  lemma NothingAdded(disk: Disk)
    ensures AddsMissing(disk, [], disk)
  {
    var at: seq<nat> := [];
    assert |at| == 0;
    assert MissingInOrder(disk.ledger, [], []);
    assert disk.effects + [] == disk.effects;
  }

  lemma ApplyAllGrows(disk: Disk, files: seq<MigrationFile>, file: MigrationFile)
    ensures ApplyAll(disk, files + [file]) == Applied(ApplyAll(disk, files), file)
  {
    assert (files + [file])[..|files|] == files;
  }

  lemma NextFile(before: Disk, files: seq<MigrationFile>, disk: Disk, n: nat)
    requires n < |files| && StoppedAfter(before, files, disk, n)
    ensures StoppedAfter(before, files, if files[n].name in before.ledger then disk else Applied(disk, files[n]), n + 1)
  {
    hide Bootstrapped, Applied;
    assert files[..n + 1][..n] == files[..n];
    var done := Pending(before.ledger, files[..n]);
    ApplyAllGrows(Bootstrapped(before, files), done, files[n]);
    assert done + [] == done;
  }

  ghost predicate Recorded(disk: Disk, file: MigrationFile) {
    file.name in disk.ledger && disk.ledger[file.name] == Some(file.checksum)
  }

  /** Every embedded file is in the ledger with its own checksum. */
  ghost predicate AllRecorded(disk: Disk, files: seq<MigrationFile>) {
    forall i :: 0 <= i < |files| ==> Recorded(disk, files[i])
  }

  /** Where the ledger stands after n files: what it held, and those files, each recorded. */
  lemma {:induction false} Progress(before: Disk, files: seq<MigrationFile>, disk: Disk, n: nat)
    requires Distinct(files) && !AnyMismatch(before.ledger, files) && StoppedAfter(before, files, disk, n)
    ensures disk.hasTable && disk.hasColumn
    ensures ExactlyOnce(before) ==> ExactlyOnce(disk)
    ensures forall k :: 0 <= k < |files| && files[k].name in disk.ledger ==> k < n || files[k].name in before.ledger
    ensures forall k :: 0 <= k < |files| && (k < n || files[k].name in before.ledger) ==> Recorded(disk, files[k])
    decreases n
  {
    hide ExactlyOnce, Backfilled;
    if n == 0 {
      forall k | 0 <= k < |files| && files[k].name in before.ledger ensures Recorded(disk, files[k]) {
        BootstrapRecords(before, files, k);
      }
      if ExactlyOnce(before) { BootstrapKeepsExactlyOnce(before, files); }
    } else {
      var done := Pending(before.ledger, files[..n - 1]);
      var earlier := ApplyAll(Bootstrapped(before, files), done);
      Progress(before, files, earlier, n - 1);
      NextFile(before, files, earlier, n - 1);
      if ExactlyOnce(before) && files[n - 1].name !in before.ledger { ApplyKeepsExactlyOnce(earlier, files[n - 1]); }
    }
  }

  lemma {:induction false} NothingToDo(disk: Disk, files: seq<MigrationFile>)
    requires AllRecorded(disk, files)
    ensures Backfilled(disk.ledger, files) == disk.ledger && Pending(disk.ledger, files) == []
  {
    if files != [] {
      var last := |files| - 1;
      assert Recorded(disk, files[last]);
      assert AllRecorded(disk, files[..last]);
      NothingToDo(disk, files[..last]);
    }
  }

  /** A run over a disk that a clean run has left changes nothing, wherever it stops. */
  lemma SecondRunIdle(before: Disk, files: seq<MigrationFile>, after: Disk, n: nat)
    requires AllRecorded(before, files) && before.hasTable && before.hasColumn && StoppedAfter(before, files, after, n)
    ensures after == before
  {
    NothingToDo(before, files);
    assert AllRecorded(before, files[..n]);
    NothingToDo(before, files[..n]);
  }

  /** A database; on a reliable one no statement and no commit ever fails. */
  class Database {
    const reliable: bool
    var disk: Disk

    constructor (disk: Disk, reliable: bool)
      ensures this.disk == disk && this.reliable == reliable
    {
      this.disk, this.reliable := disk, reliable;
    }

    method Fault() returns (fault: bool)
      ensures reliable ==> !fault
    {
      fault := *;
      if reliable { fault := false; }
    }

    /** A commit makes a transaction's disk durable; one that reports an error may have done so. */
    method Commit(work: Disk) returns (ok: bool)
      modifies this
      ensures disk == work || (!ok && disk == old(disk))
      ensures reliable ==> ok
    {
      var fault := Fault();
      ok := !fault;
      var durable: bool := *;
      if ok || durable { disk := work; }
    }

    /** `prepareMigrationLedger`: all embedded files are checked before anything is filled in. */
    method PrepareMigrationLedger(files: seq<MigrationFile>)
      returns (r: Result<map<string, Option<string>>, MigrationError>)
      modifies this
      ensures Prepares(old(disk), files, r.Ok? || disk != old(disk), disk)
      ensures r.Ok? ==> r.value == old(disk.ledger)
      ensures r.Err? && r.error.Mismatch? ==>
                exists k :: && 0 <= k < |files| && files[k].name == r.error.name
                  && Contradicts(old(disk.ledger), files[k])
                            && forall j :: 0 <= j < k ==> !Contradicts(old(disk.ledger), files[j])
      ensures reliable ==> (r.Ok? <==> !AnyMismatch(old(disk.ledger), files))
    {
      var work := disk;
      var fault := Fault();
      if fault { return Err(DatabaseFailed); }
      work := work.(hasTable := true, hasColumn := true);
      var applied := work.ledger;
      for i := 0 to |files|
        invariant disk == old(disk) && work == old(disk).(hasTable := true, hasColumn := true)
        invariant forall k :: 0 <= k < i ==> !Contradicts(applied, files[k])
      {
        if Contradicts(applied, files[i]) { return Err(Mismatch(files[i].name)); }
      }
      for i := 0 to |files|
        invariant disk == old(disk)
        invariant work == disk.(hasTable := true, hasColumn := true, ledger := Backfilled(applied, files[..i]))
      {
        assert files[..i + 1][..i] == files[..i];
        if NeedsChecksum(applied, files[i]) {
          fault := Fault();
          if fault { return Err(DatabaseFailed); }
          work := work.(ledger := work.ledger[files[i].name := Some(files[i].checksum)]);
        }
      }
      assert files[..|files|] == files;
      var ok := Commit(work);
      r := if ok then Ok(applied) else Err(DatabaseFailed);
    }

    /** `applyMigrationFile`: the SQL and its ledger row, together or not at all. */
    method ApplyMigrationFile(file: MigrationFile) returns (ok: bool)
      modifies this
      ensures Applies(old(disk), file, ok || disk != old(disk), disk)
      ensures reliable ==> (ok <==> file.name !in old(disk.ledger))
    {
      var fault := Fault();
      if fault { return false; }
      var work := disk.(effects := disk.effects + [file]);
      fault := Fault();
      if fault || file.name in work.ledger { return false; }
      work := work.(ledger := work.ledger[file.name := Some(file.checksum)]);
      ok := Commit(work);
    }

    /** A run on an undisturbed database: a mismatch changes nothing; otherwise it stops before its bootstrap
        or after a whole number of files, in order, each applied once; it succeeds only when every embedded
        file is recorded with its own checksum, and on a reliable database it does succeed. */
    method MigrateFiles(files: seq<MigrationFile>) returns (r: Result<(), MigrationError>)
      requires Distinct(files)
      modifies this
      ensures AnyMismatch(old(disk.ledger), files) ==> r.Err? && disk == old(disk)
      ensures disk == old(disk) || exists n :: StoppedAfter(old(disk), files, disk, n)
      ensures ExactlyOnce(old(disk)) ==> ExactlyOnce(disk)
      ensures r.Ok? ==>
                && StoppedAfter(old(disk), files, disk, |files|) && AllRecorded(disk, files)
                && disk.hasTable && disk.hasColumn && AddsMissing(old(disk), files, disk)
      ensures exists n: nat :: n <= |files| && AddsMissing(old(disk), files[..n], disk)
      ensures reliable ==> (r.Ok? <==> !AnyMismatch(old(disk.ledger), files))
    {
      hide ExactlyOnce, Backfilled, Pending, ApplyAll, AnyMismatch, Recorded, Applied, AddsMissing;
      ghost var before := disk;
      BootstrapStops(before, files);
      NothingAdded(before);
      assert files[..0] == [] && files[..|files|] == files;
      var prepared := PrepareMigrationLedger(files);
      if prepared.Err? {
        if disk != before {
          Progress(before, files, disk, 0);
          StoppedAddsMissing(before, files, disk, 0);
        }
        return Err(prepared.error);
      }
      var applied := prepared.value;
      for i := 0 to |files|
        invariant StoppedAfter(before, files, disk, i)
      {
        NextFile(before, files, disk, i);
        if files[i].name in applied { continue; }
        Progress(before, files, disk, i);
        var ok := ApplyMigrationFile(files[i]);
        if !ok {
          ghost var done := if StoppedAfter(before, files, disk, i) then i else i + 1;
          Progress(before, files, disk, done);
          StoppedAddsMissing(before, files, disk, done);
          return Err(DatabaseFailed);
        }
      }
      Progress(before, files, disk, |files|);
      StoppedAddsMissing(before, files, disk, |files|);
      r := Ok(());
    }
  }

  lemma BootstrapStops(before: Disk, files: seq<MigrationFile>)
    ensures StoppedAfter(before, files, Bootstrapped(before, files), 0)
  {
  }
}
