/** Any number of migration runners on one database, crashing at any point, and old binaries among them
    (migrations.go). */
module MigrationRuns {
  import opened Basics
  import opened Migrations

  /** `applied` is the ledger as the runner's bootstrap read it. */
  datatype Runner =
    | Starting(files: seq<MigrationFile>)
    | Locked(files: seq<MigrationFile>)
    | Applying(files: seq<MigrationFile>, applied: set<string>, next: nat)
    | Ended(ok: bool)

  /** On PostgreSQL a session-level advisory lock covers a whole run; SQLite has none. */
  datatype State = State(postgres: bool, disk: Disk, runners: map<nat, Runner>, lock: Option<nat>)

  datatype Step =
    | Start(id: nat, files: seq<MigrationFile>)
    | Lock(id: nat)
    | Bootstrap(id: nat, commits: bool, survives: bool)
    | ApplyNext(id: nat, commits: bool, survives: bool)
    | Unlock(id: nat)
    | Crash(id: nat)
    | OldBinary(file: MigrationFile)

  function Unlocked(s: State, id: nat): Option<nat> {
    if s.lock == Some(id) then None else s.lock
  }

  /** A step ends one transaction, as the methods of Database do: it commits or not, and the runner survives or
      fails with an error. */
  ghost predicate Next(s: State, step: Step, s': State) {
    match step
    case Start(id, files) =>
      id !in s.runners && Distinct(files) && s' == s.(runners := s.runners[id := Starting(files)])
    case Lock(id) =>
      && id in s.runners && s.runners[id].Starting? && (s.postgres ==> s.lock.None?)
      && s' == s.(runners := s.runners[id := Locked(s.runners[id].files)],
                  lock := if s.postgres then Some(id) else s.lock)
    case Bootstrap(id, commits, survives) =>
      && id in s.runners && s.runners[id].Locked?
      && var files := s.runners[id].files;
      && Prepares(s.disk, files, commits, s'.disk) && (survives ==> commits)
      && s' == s.(disk := s'.disk,
                  runners := s.runners[id := if survives then Applying(files, s.disk.ledger.Keys, 0) else Ended(false)])
    case ApplyNext(id, commits, survives) =>
      && id in s.runners && s.runners[id].Applying? && s.runners[id].next < |s.runners[id].files|
      && var r := s.runners[id];
      && var file := r.files[r.next];
      && Applies(s.disk, file, commits, s'.disk)
      && (if file.name in r.applied then !commits && survives else survives ==> commits)
      && s' == s.(disk := s'.disk,
                  runners := s.runners[id := if survives then r.(next := r.next + 1) else Ended(false)])
    case Unlock(id) =>
      && id in s.runners
      && (s.runners[id].Ended? || (s.runners[id].Applying? && s.runners[id].next == |s.runners[id].files|))
      && s' == s.(runners := s.runners[id := Ended(s.runners[id].Applying? || s.runners[id].ok)],
                  lock := Unlocked(s, id))
    case Crash(id) =>
      id in s.runners && s' == s.(runners := s.runners[id := Ended(false)], lock := Unlocked(s, id))
    case OldBinary(file) =>
      && file.name !in s.disk.ledger
      && s' == s.(disk := s.disk.(hasTable := true, ledger := s.disk.ledger[file.name := None],
                                  effects := s.disk.effects + [file]))
  }

  ghost predicate Init(s: State) {
    ExactlyOnce(s.disk) && s.runners == map[] && s.lock == None
  }

  ghost predicate IsRun(states: seq<State>, steps: seq<Step>) {
    && |states| == |steps| + 1 && Init(states[0])
    && forall i :: 0 <= i < |steps| ==> Next(states[i], steps[i], states[i + 1])
  }

  // ----- The invariant

  /** A runner past its lock, on PostgreSQL, is the lock's holder. */
  ghost predicate Exclusive(s: State) {
    forall id :: id in s.runners && (s.runners[id].Locked? || s.runners[id].Applying?) && s.postgres ==>
        s.lock == Some(id)
  }

  ghost predicate Prepared(s: State) {
    forall id :: id in s.runners && s.runners[id].Applying? ==>
      && s.disk.hasTable && s.disk.hasColumn && s.runners[id].next <= |s.runners[id].files|
      && Distinct(s.runners[id].files)
      && s.runners[id].applied <= s.disk.ledger.Keys
  }

  ghost predicate Sane(s: State) {
    forall id :: id in s.runners && (s.runners[id].Starting? || s.runners[id].Locked?) ==> Distinct(s.runners[id].files)
  }

  ghost predicate Inv(s: State) {
    ExactlyOnce(s.disk) && Exclusive(s) && Prepared(s) && Sane(s)
  }

  lemma OldBinaryKeepsExactlyOnce(disk: Disk, file: MigrationFile)
    requires ExactlyOnce(disk) && file.name !in disk.ledger
    ensures ExactlyOnce(disk.(hasTable := true, ledger := disk.ledger[file.name := None],
                              effects := disk.effects + [file]))
  {
    var after := disk.(hasTable := true, ledger := disk.ledger[file.name := None], effects := disk.effects + [file]);
    forall name
      ensures name in after.ledger <==> exists i :: 0 <= i < |after.effects| && after.effects[i].name == name
    {
      if i :| 0 <= i < |disk.effects| && disk.effects[i].name == name { assert after.effects[i].name == name; }
      assert after.effects[|disk.effects|] == file;
    }
  }

  lemma DiskInv(s: State, step: Step, s': State)
    requires Inv(s) && Next(s, step, s')
    ensures ExactlyOnce(s'.disk)
  {
    hide Exclusive, Sane, AnyMismatch, Backfilled;
    match step
    case Bootstrap(id, commits, survives) =>
      hide ExactlyOnce;
      BootstrapKeepsExactlyOnce(s.disk, s.runners[id].files);
    case ApplyNext(id, commits, survives) =>
      var r := s.runners[id];
      hide ExactlyOnce;
      if commits { ApplyKeepsExactlyOnce(s.disk, r.files[r.next]); }
    case OldBinary(file) =>
      hide ExactlyOnce;
      OldBinaryKeepsExactlyOnce(s.disk, file);
    case _ =>
  }

  lemma LockInv(s: State, step: Step, s': State)
    requires Exclusive(s) && Sane(s) && Next(s, step, s')
    ensures Exclusive(s') && Sane(s')
  {
    hide Prepares, Applies, Distinct;
  }

  lemma PreparedInv(s: State, step: Step, s': State)
    requires Prepared(s) && Sane(s) && Next(s, step, s')
    ensures Prepared(s')
  {
    hide AnyMismatch, Backfilled, Distinct;
  }

  lemma {:induction false} RunInv(states: seq<State>, steps: seq<Step>, i: nat)
    requires IsRun(states, steps) && i < |states|
    ensures Inv(states[i])
  {
    hide Inv, Next, ExactlyOnce;
    if i == 0 {
      assert Inv(states[0]) by { InitInv(states[0]); }
    } else {
      RunInv(states, steps, i - 1);
      StepInv(states[i - 1], steps[i - 1], states[i]);
    }
  }

  lemma InitInv(s: State)
    requires Init(s)
    ensures Inv(s)
  {
  }

  lemma StepInv(s: State, step: Step, s': State)
    requires Inv(s) && Next(s, step, s')
    ensures Inv(s')
  {
    hide Next, ExactlyOnce, Exclusive, Prepared, Sane;
    DiskInv(s, step, s');
    LockInv(s, step, s');
    PreparedInv(s, step, s');
  }

  // ----- Over whole runs

  /** On every run a file's SQL has taken effect if and only if the ledger names it, and at most once. */
  lemma EffectsExactlyOnce(states: seq<State>, steps: seq<Step>, i: nat, name: string)
    requires IsRun(states, steps) && i < |states|
    ensures var disk := states[i].disk;
            && (name in disk.ledger <==> exists k :: 0 <= k < |disk.effects| && disk.effects[k].name == name)
            && forall j, k :: 0 <= j < k < |disk.effects| && disk.effects[j].name == name ==>
               disk.effects[k].name != name
  {
    hide IsRun, Exclusive, Prepared, Sane;
    RunInv(states, steps, i);
  }

  /** The PostgreSQL lock admits one runner at a time between bootstrap and unlock. */
  lemma OneRunnerAtATime(states: seq<State>, steps: seq<Step>, i: nat, a: nat, b: nat)
    requires IsRun(states, steps) && i < |states| && states[i].postgres
    requires a in states[i].runners && (states[i].runners[a].Locked? || states[i].runners[a].Applying?)
    requires b in states[i].runners && (states[i].runners[b].Locked? || states[i].runners[b].Applying?)
    ensures a == b
  {
    hide IsRun, ExactlyOnce, Prepared, Sane;
    RunInv(states, steps, i);
  }

  /** Nothing recorded is ever lost or changed, and effects are never undone. */
  ghost predicate Kept(disk: Disk, later: Disk) {
    && disk.effects <= later.effects
    && forall name :: name in disk.ledger ==>
         name in later.ledger && (disk.ledger[name].Some? ==> later.ledger[name] == disk.ledger[name])
  }

  lemma StepKeeps(s: State, step: Step, s': State)
    requires Next(s, step, s')
    ensures Kept(s.disk, s'.disk) && s'.postgres == s.postgres
  {
    hide AnyMismatch, Distinct, Backfilled;
    if step.Bootstrap? && step.commits {
      var files := s.runners[step.id].files;
      forall name | name in s.disk.ledger
        ensures s.disk.ledger[name].Some? ==> s'.disk.ledger[name] == s.disk.ledger[name]
      {
        BackfillTouchesOnlyNull(s.disk.ledger, files, name);
      }
    }
  }

  lemma {:induction false} LedgerKept(states: seq<State>, steps: seq<Step>, i: nat, j: nat)
    requires IsRun(states, steps) && i <= j < |states|
    ensures Kept(states[i].disk, states[j].disk) && states[j].postgres == states[i].postgres
  {
    hide Next, Init;
    if i < j {
      LedgerKept(states, steps, i, j - 1);
      StepKeeps(states[j - 1], steps[j - 1], states[j]);
    }
  }

  /** Step k brings a file into effect: the next one of the runner whose step it is, or an older binary's. */
  ghost predicate Brings(states: seq<State>, steps: seq<Step>, k: nat, file: MigrationFile)
    requires k < |steps| && |states| == |steps| + 1
  {
    match steps[k]
    case ApplyNext(id, commits, _) =>
      && commits && id in states[k].runners && states[k].runners[id].Applying?
      && states[k].runners[id].next < |states[k].runners[id].files|
      && states[k].runners[id].files[states[k].runners[id].next] == file
    case OldBinary(f) => f == file
    case _ => false
  }

  lemma EffectsGrowBy(s: State, step: Step, s': State)
    requires Next(s, step, s')
    ensures s'.disk.effects == s.disk.effects || |s'.disk.effects| == |s.disk.effects| + 1
    ensures s.disk.effects <= s'.disk.effects
  {
    hide AnyMismatch, Distinct, Backfilled;
  }

  /** Every effect that was not there to begin with is a whole file, SQL included, that one step of the run has
      brought in. */
  lemma {:induction false} EffectsAreBrought(states: seq<State>, steps: seq<Step>, i: nat, e: nat)
    requires IsRun(states, steps) && i < |states| && |states[0].disk.effects| <= e < |states[i].disk.effects|
    ensures exists k :: 0 <= k < i && Brings(states, steps, k, states[i].disk.effects[e])
  {
    hide Init;
    var s, s' := states[i - 1], states[i];
    assert Next(s, steps[i - 1], s');
    EffectsGrowBy(s, steps[i - 1], s');
    if e < |s.disk.effects| {
      EffectsAreBrought(states, steps, i - 1, e);
    } else {
      assert Brings(states, steps, i - 1, s'.disk.effects[e]) by { hide AnyMismatch, Distinct, Backfilled; }
    }
  }

  /** A missing checksum is only ever filled in by a runner that embeds the file, with that file's own. */
  lemma OnlyNullIsBackfilled(s: State, step: Step, s': State, name: string)
    requires Next(s, step, s') && name in s.disk.ledger && name in s'.disk.ledger
    requires s'.disk.ledger[name] != s.disk.ledger[name]
    ensures s.disk.ledger[name].None? && step.Bootstrap? && step.id in s.runners && s.runners[step.id].Locked?
    ensures exists k :: 0 <= k < |s.runners[step.id].files|
                        && s.runners[step.id].files[k].name == name
                        && s'.disk.ledger[name] == Some(s.runners[step.id].files[k].checksum)
  {
    hide AnyMismatch, Distinct, Backfilled;
    if step.Bootstrap? { BackfillTouchesOnlyNull(s.disk.ledger, s.runners[step.id].files, name); }
  }

  /** A runner whose files contradict the ledger has no way to go on but to fail. */
  ghost predicate Hopeless(s: State, id: nat, files: seq<MigrationFile>) {
    && AnyMismatch(s.disk.ledger, files)
    && id in s.runners && s.runners[id] in {Starting(files), Locked(files), Ended(false)}
  }

  lemma MismatchStays(disk: Disk, later: Disk, files: seq<MigrationFile>)
    requires Kept(disk, later) && AnyMismatch(disk.ledger, files)
    ensures AnyMismatch(later.ledger, files)
  {
    var k :| 0 <= k < |files| && Contradicts(disk.ledger, files[k]);
    assert Contradicts(later.ledger, files[k]);
  }

  lemma HopelessStep(s: State, step: Step, s': State, id: nat, files: seq<MigrationFile>)
    requires Next(s, step, s') && Hopeless(s, id, files)
    ensures Hopeless(s', id, files)
    ensures step.Bootstrap? || step.ApplyNext? ==> step.id == id ==> s'.disk == s.disk
  {
    StepKeeps(s, step, s');
    MismatchStays(s.disk, s'.disk, files);
    hide AnyMismatch, Backfilled, Distinct, Kept;
  }

  /** A runner whose files contradict the ledger at any time before its bootstrap never changes the disk and
      never succeeds, however the run goes on: no other runner can make the mismatch go away. */
  lemma {:induction false} MismatchChangesNothing(states: seq<State>, steps: seq<Step>, i: nat, j: nat, id: nat)
    requires IsRun(states, steps) && i <= j < |states|
    requires id in states[i].runners && (states[i].runners[id].Starting? || states[i].runners[id].Locked?)
    requires AnyMismatch(states[i].disk.ledger, states[i].runners[id].files)
    ensures Hopeless(states[j], id, states[i].runners[id].files)
    ensures forall k :: i <= k < j && (steps[k].Bootstrap? || steps[k].ApplyNext?) && steps[k].id == id ==>
              states[k + 1].disk == states[k].disk
  {
    hide Next, Init, AnyMismatch;
    if i < j {
      MismatchChangesNothing(states, steps, i, j - 1, id);
      HopelessStep(states[j - 1], steps[j - 1], states[j], id, states[i].runners[id].files);
    }
  }

  // ----- What a runner has done

  /** A runner's files so far, in its snapshot or applied by itself, are recorded with their own checksums. */
  ghost predicate Faithful(s: State, id: nat) {
    id in s.runners && s.runners[id].Applying? ==>
      var r := s.runners[id];
      forall k :: 0 <= k < |r.files| && (k < r.next || r.files[k].name in r.applied) ==> Recorded(s.disk, r.files[k])
  }

  lemma FaithfulStep(s: State, step: Step, s': State, id: nat)
    requires Inv(s) && Faithful(s, id) && Next(s, step, s')
    ensures Faithful(s', id)
  {
    StepKeeps(s, step, s');
    hide ExactlyOnce, Exclusive, Prepared, AnyMismatch;
    if step.Bootstrap? && step.id == id && step.survives {
      var files := s.runners[id].files;
      assert Distinct(files);
      forall k | 0 <= k < |files| && files[k].name in s.disk.ledger ensures Recorded(s'.disk, files[k]) {
        BootstrapRecords(s.disk, files, k);
      }
    }
    hide Backfilled, Distinct;
  }

  lemma {:induction false} RunFaithful(states: seq<State>, steps: seq<Step>, i: nat, id: nat)
    requires IsRun(states, steps) && i < |states|
    ensures Faithful(states[i], id)
  {
    hide Next, Inv, ExactlyOnce, Faithful;
    if i == 0 {
      assert Faithful(states[0], id) by { NobodyYet(states[0], id); }
    } else {
      RunFaithful(states, steps, i - 1, id);
      RunInv(states, steps, i - 1);
      FaithfulStep(states[i - 1], steps[i - 1], states[i], id);
    }
  }

  lemma NobodyYet(s: State, id: nat)
    requires s.runners == map[]
    ensures Faithful(s, id)
  {
  }

  /** When a runner reports success, every file it embeds has taken effect, is in the ledger under its own
      checksum, and stays so. */
  lemma SuccessIsLasting(states: seq<State>, steps: seq<Step>, i: nat, j: nat, id: nat, k: nat)
    requires IsRun(states, steps) && i < |steps| && i < j < |states|
    requires steps[i] == Unlock(id) && id in states[i].runners && states[i].runners[id].Applying?
    requires k < |states[i].runners[id].files|
    ensures states[i + 1].runners[id] == Ended(true)
    ensures Recorded(states[j].disk, states[i].runners[id].files[k])
    ensures exists e :: && 0 <= e < |states[j].disk.effects|
                        && states[j].disk.effects[e].name == states[i].runners[id].files[k].name
  {
    var file := states[i].runners[id].files[k];
    assert Next(states[i], steps[i], states[i + 1]);
    RunFaithful(states, steps, i, id);
    LedgerKept(states, steps, i, j);
    assert Recorded(states[j].disk, file);
    EffectsExactlyOnce(states, steps, j, file.name);
  }

  // ----- Who gets in the way of the lock's holder

  /** Before state `i` an old binary recorded this name while the runner was applying its files. */
  ghost predicate OvertakenBy(states: seq<State>, steps: seq<Step>, i: nat, id: nat, name: string)
    requires |states| == |steps| + 1 && i < |states|
  {
    exists k :: 0 <= k < i && steps[k].OldBinary? && steps[k].file.name == name && IsApplying(states[k], id)
  }

  predicate IsApplying(s: State, id: nat) {
    id in s.runners && s.runners[id].Applying?
  }

  /** The names a runner knows to be in the ledger: its snapshot, and the files it has come past. */
  ghost predicate Knows(r: Runner, name: string)
    requires r.Applying?
  {
    name in r.applied || exists k :: 0 <= k < r.next && k < |r.files| && r.files[k].name == name
  }

  /** One step of a lock's holder or of anybody else: a name that is new to the ledger is the holder's own
      next file or was recorded by an old binary. */
  lemma KnowsOrOvertaken(s: State, step: Step, s': State, id: nat, name: string)
    requires Inv(s) && Next(s, step, s') && s.postgres && IsApplying(s', id) && name in s'.disk.ledger
    ensures Knows(s'.runners[id], name) || IsApplying(s, id)
    ensures IsApplying(s, id) && !Knows(s'.runners[id], name) ==>
              if name in s.disk.ledger then !Knows(s.runners[id], name)
              else step.OldBinary? && step.file.name == name
  {
    hide ExactlyOnce, AnyMismatch, Distinct;
    if step.Bootstrap? {
      assert s'.disk.ledger.Keys == s.disk.ledger.Keys;
    } else if step.ApplyNext? && step.id == id && IsApplying(s, id) {
      var r := s.runners[id];
      assert r.next < |r.files| && s'.runners[id] == r.(next := r.next + 1);
      assert Knows(s'.runners[id], r.files[r.next].name);
    }
  }

  lemma {:induction false} RunKnows(states: seq<State>, steps: seq<Step>, i: nat, id: nat, name: string)
    requires IsRun(states, steps) && i < |states| && states[i].postgres
    requires IsApplying(states[i], id) && name in states[i].disk.ledger
    ensures Knows(states[i].runners[id], name) || OvertakenBy(states, steps, i, id, name)
  {
    hide Next, Inv, ExactlyOnce, Knows;
    if i > 0 && !Knows(states[i].runners[id], name) {
      var s := states[i - 1];
      RunInv(states, steps, i - 1);
      LedgerKept(states, steps, i - 1, i);
      KnowsOrOvertaken(s, steps[i - 1], states[i], id, name);
      if name in s.disk.ledger { RunKnows(states, steps, i - 1, id, name); }
    }
  }

  lemma OldBinaryRecords(states: seq<State>, steps: seq<Step>, k: nat, i: nat)
    requires IsRun(states, steps) && k < i < |states| && steps[k].OldBinary?
    ensures steps[k].file.name in states[i].disk.ledger
  {
    assert Next(states[k], steps[k], states[k + 1]);
    LedgerKept(states, steps, k + 1, i);
  }

  /** On PostgreSQL a file that a runner is about to apply is in the ledger already if and only if an old
      binary recorded it while that runner was applying. The primary key then fails the runner, and nothing
      takes effect a second time. */
  lemma LockedRunnersCollide(states: seq<State>, steps: seq<Step>, i: nat, id: nat)
    requires IsRun(states, steps) && i < |states| && states[i].postgres && IsApplying(states[i], id)
    requires var r := states[i].runners[id]; r.next < |r.files| && r.files[r.next].name !in r.applied
    ensures var r := states[i].runners[id];
            var name := r.files[r.next].name;
            && (name in states[i].disk.ledger <==> OvertakenBy(states, steps, i, id, name))
            && (name in states[i].disk.ledger && i < |steps| && steps[i].ApplyNext? && steps[i].id == id ==>
                  states[i + 1].disk == states[i].disk && states[i + 1].runners[id] == Ended(false))
  {
    var r := states[i].runners[id];
    var name := r.files[r.next].name;
    RunInv(states, steps, i);
    assert Distinct(r.files) && !Knows(r, name) by { hide IsRun, ExactlyOnce; }
    if name in states[i].disk.ledger { RunKnows(states, steps, i, id, name); }
    hide Inv;
    if OvertakenBy(states, steps, i, id, name) {
      var k :| 0 <= k < i && steps[k].OldBinary? && steps[k].file.name == name && IsApplying(states[k], id);
      OldBinaryRecords(states, steps, k, i);
    }
    if i < |steps| { assert Next(states[i], steps[i], states[i + 1]); }
  }

  /** It does happen: one file, one runner, and an old binary between its bootstrap and its first file. */
  lemma OldBinaryOvertakes(file: MigrationFile) returns (states: seq<State>, steps: seq<Step>)
    ensures IsRun(states, steps) && |steps| == 5 && steps[4] == ApplyNext(0, false, false)
    ensures states[4].postgres && IsApplying(states[4], 0) && states[4].runners[0] == Applying([file], {}, 0)
    ensures file.name in states[4].disk.ledger && OvertakenBy(states, steps, 4, 0, file.name)
    ensures states[5].runners[0] == Ended(false) && states[5].disk.effects == [file]
  {
    var empty := State(true, Disk(false, false, map[], []), map[], None);
    var started := empty.(runners := empty.runners[0 := Starting([file])]);
    var locked := started.(runners := started.runners[0 := Locked([file])], lock := Some(0));
    var applying := locked.(disk := Bootstrapped(locked.disk, [file]),
                            runners := locked.runners[0 := Applying([file], {}, 0)]);
    var recorded := applying.disk.(ledger := applying.disk.ledger[file.name := None], effects := [file]);
    var overtaken := applying.(disk := recorded);
    var failed := overtaken.(runners := overtaken.runners[0 := Ended(false)]);
    states := [empty, started, locked, applying, overtaken, failed];
    steps := [Start(0, [file]), Lock(0), Bootstrap(0, true, true), OldBinary(file), ApplyNext(0, false, false)];
    assert empty.disk.ledger.Keys == {};
    assert Next(empty, steps[0], started);
    assert Next(started, steps[1], locked);
    assert Next(locked, steps[2], applying);
    assert Next(applying, steps[3], overtaken);
    assert Next(overtaken, steps[4], failed);
    assert steps[3].OldBinary? && IsApplying(states[3], 0);
  }

  // ----- A runner can finish, and can always be lost

  ghost predicate Path(s: State, steps: seq<Step>, s': State)
    decreases |steps|
  {
    if steps == [] then s' == s else exists m :: Next(s, steps[0], m) && Path(m, steps[1..], s')
  }

  lemma Prepend(s: State, step: Step, m: State, path: seq<Step>, s': State)
    requires Next(s, step, m) && Path(m, path, s')
    ensures Path(s, [step] + path, s')
  {
    hide Next;
    var longer := [step] + path;
    assert longer[1..] == path;
    assert Next(s, longer[0], m) && Path(m, longer[1..], s');
  }

  lemma OneStep(s: State, step: Step, s': State)
    requires Next(s, step, s')
    ensures Path(s, [step], s')
  {
    Prepend(s, step, s', [], s');
    assert [step] + [] == [step];
  }

  predicate IsStepOf(step: Step, id: nat) {
    match step
    case Lock(r) => r == id
    case Bootstrap(r, _, _) => r == id
    case ApplyNext(r, _, _) => r == id
    case Unlock(r) => r == id
    case _ => false
  }

  /** The run has ended well: success reported, every file recorded, and the lock given back. */
  ghost predicate EndedWell(s: State, id: nat, files: seq<MigrationFile>) {
    id in s.runners && s.runners[id] == Ended(true) && AllRecorded(s.disk, files) && s.lock != Some(id)
  }

  /** No pending file of an applying runner is in the ledger. */
  ghost predicate Unhindered(s: State, id: nat)
    requires IsApplying(s, id)
  {
    var r := s.runners[id];
    forall k :: r.next <= k < |r.files| && r.files[k].name !in r.applied ==> r.files[k].name !in s.disk.ledger
  }

  /** Where nothing hinders it a runner applies its remaining files and succeeds. */
  lemma {:induction false} ApplyingFinishes(s: State, id: nat) returns (path: seq<Step>, s': State)
    requires Inv(s) && IsApplying(s, id) && Unhindered(s, id) && Faithful(s, id)
    ensures Path(s, path, s') && EndedWell(s', id, s.runners[id].files)
    ensures forall k :: 0 <= k < |path| ==> IsStepOf(path[k], id)
    decreases |s.runners[id].files| - s.runners[id].next
  {
    hide ExactlyOnce, Exclusive, Sane, Path;
    var r := s.runners[id];
    if r.next == |r.files| {
      s' := s.(runners := s.runners[id := Ended(true)], lock := Unlocked(s, id));
      OneStep(s, Unlock(id), s');
      path := [Unlock(id)];
    } else {
      var commits := r.files[r.next].name !in r.applied;
      var m := AppliedNext(s, id, commits);
      StepInv(s, ApplyNext(id, commits, true), m);
      FaithfulStep(s, ApplyNext(id, commits, true), m, id);
      var rest;
      rest, s' := ApplyingFinishes(m, id);
      Prepend(s, ApplyNext(id, commits, true), m, rest, s');
      path := [ApplyNext(id, commits, true)] + rest;
    }
  }

  lemma AppliedNext(s: State, id: nat, commits: bool) returns (m: State)
    requires Inv(s) && IsApplying(s, id) && Unhindered(s, id) && s.runners[id].next < |s.runners[id].files|
    requires commits == (s.runners[id].files[s.runners[id].next].name !in s.runners[id].applied)
    ensures Next(s, ApplyNext(id, commits, true), m) && IsApplying(m, id) && Unhindered(m, id)
    ensures m.runners[id] == s.runners[id].(next := s.runners[id].next + 1)
  {
    hide ExactlyOnce, Exclusive, Sane;
    var r := s.runners[id];
    var file := r.files[r.next];
    m := s.(disk := if commits then Applied(s.disk, file) else s.disk,
            runners := s.runners[id := r.(next := r.next + 1)]);
    assert forall k :: r.next < k < |r.files| ==> r.files[k].name != file.name;
  }

  /** From every state of every run a runner that finds the lock free and no mismatch can take it, bootstrap and
      succeed by its own steps. */
  lemma RunnerCanFinish(states: seq<State>, steps: seq<Step>, i: nat, id: nat)
    requires IsRun(states, steps) && i < |states| && id in states[i].runners && states[i].runners[id].Starting?
    requires states[i].postgres ==> states[i].lock.None?
    requires states[i].lock != Some(id) && !AnyMismatch(states[i].disk.ledger, states[i].runners[id].files)
    ensures exists path: seq<Step>, s': State ::
              && Path(states[i], path, s') && EndedWell(s', id, states[i].runners[id].files)
              && forall k :: 0 <= k < |path| ==> IsStepOf(path[k], id)
  {
    RunInv(states, steps, i);
    hide IsRun, Path, ExactlyOnce, AnyMismatch, EndedWell;
    var s := states[i];
    var files := s.runners[id].files;
    var locked := s.(runners := s.runners[id := Locked(files)], lock := if s.postgres then Some(id) else s.lock);
    var ready := locked.(disk := Bootstrapped(s.disk, files),
                         runners := locked.runners[id := Applying(files, s.disk.ledger.Keys, 0)]);
    assert Next(s, Lock(id), locked);
    assert Next(locked, Bootstrap(id, true, true), ready);
    StepInv(s, Lock(id), locked);
    StepInv(locked, Bootstrap(id, true, true), ready);
    FaithfulStep(locked, Bootstrap(id, true, true), ready, id);
    assert Unhindered(ready, id);
    hide Inv, Next, Faithful, Unhindered;
    var rest, s' := ApplyingFinishes(ready, id);
    Prepend(locked, Bootstrap(id, true, true), ready, rest, s');
    Prepend(s, Lock(id), locked, [Bootstrap(id, true, true)] + rest, s');
  }

  /** At any time a runner may crash; the server then takes its lock away, and the disk is as it was. */
  lemma RunnerMayCrash(s: State, id: nat)
    requires id in s.runners
    ensures exists s' ::
              && Next(s, Crash(id), s') && s'.disk == s.disk
              && s'.lock != Some(id) && s'.runners[id] == Ended(false)
  {
    var s' := s.(runners := s.runners[id := Ended(false)], lock := Unlocked(s, id));
    assert Next(s, Crash(id), s');
  }
}
