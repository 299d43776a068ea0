/** The move itself: one transaction that loads every table, verifies what arrived and only then commits
    (dbmove.go). */
module Move {
  import opened Basics
  import opened Canonical
  import opened TableHash
  import opened CopyTable

  datatype TableResult = TableResult(
    name: string, sourceRows: nat, targetRows: nat, sourceHash: string, targetHash: string, matched: bool)

  datatype Report = Report(rowsBefore: map<string, nat>, tables: seq<TableResult>, committed: bool)

  datatype MoveError =
    | StatementFailed
    | TargetNotEmpty(rowsBefore: map<string, nat>)
    | StillHoldsRows(name: string)
    | CopyFailed(name: string, cause: CopyError)
    | HashFailed(name: string)
    | VerifyMismatch(mismatches: nat)
    | CommitFailed

  /** The database the tool writes to, as it is outside any transaction. */
  class Target {
    var tables: Database
    var guardEnabled: bool
  }

  // ----- What verification means

  predicate Comparable(lib: Library, table: Table, source: Database, target: Database) {
    && table.name in source && AllReadable(lib, table.columns, true, source[table.name])
    && table.name in target && AllReadable(lib, table.columns, false, target[table.name])
  }

  /** The rows a table should hold. */
  function Expected(lib: Library, table: Table, source: Database): seq<Row>
    requires table.name in source && AllReadable(lib, table.columns, true, source[table.name])
  {
    ReadRows(lib, table.columns, true, source[table.name])
  }

  function Found(lib: Library, table: Table, target: Database): seq<Row>
    requires table.name in target && AllReadable(lib, table.columns, false, target[table.name])
  {
    ReadRows(lib, table.columns, false, target[table.name])
  }

  /** Counts and hashes agree. */
  predicate Verified(lib: Library, table: Table, source: Database, target: Database) {
    && Comparable(lib, table, source, target)
    && |Expected(lib, table, source)| == |Found(lib, table, target)|
    && RowsHash(lib, table.columns, Expected(lib, table, source))
       == RowsHash(lib, table.columns, Found(lib, table, target))
  }

  ghost predicate NoCollision(lib: Library, table: Table, source: Database, target: Database)
    requires Comparable(lib, table, source, target)
  {
    CollisionFree(lib, Hashed(lib, table.columns, Expected(lib, table, source))
                  + Hashed(lib, table.columns, Found(lib, table, target)))
  }

  /** Unless SHA-256 collides on the very texts of this run, a table verifies exactly when it holds the
      converted source rows, each as often as the source does and nothing else. */
  lemma VerifiedMeansEqual(lib: Library, table: Table, source: Database, target: Database)
    requires FixedWidth(lib) && Comparable(lib, table, source, target) && NoCollision(lib, table, source, target)
    ensures Verified(lib, table, source, target) <==>
              multiset(target[table.name]) == multiset(Expected(lib, table, source))
  {
    var rows, others := Expected(lib, table, source), Found(lib, table, target);
    TargetRowsAsTheyAre(lib, table.columns, target[table.name]);
    HashIsExact(lib, table.columns, rows, others);
    assert |rows| == |multiset(rows)| && |others| == |multiset(others)|;
  }

  /** Whatever the order the engine stores them in, the converted rows themselves always verify. */
  lemma FaithfulLoadVerifies(lib: Library, table: Table, source: Database, target: Database)
    requires Comparable(lib, table, source, target)
    requires multiset(target[table.name]) == multiset(Expected(lib, table, source))
    ensures Verified(lib, table, source, target)
  {
    var rows, others := Expected(lib, table, source), Found(lib, table, target);
    TargetRowsAsTheyAre(lib, table.columns, target[table.name]);
    HashIgnoresOrder(lib, table.columns, rows, others);
    assert |rows| == |multiset(rows)| && |others| == |multiset(others)|;
  }

  // ----- The verification loop of Move and Verify

  ghost predicate AllComparable(lib: Library, tables: seq<Table>, source: Database, target: Database) {
    forall i :: 0 <= i < |tables| ==> Comparable(lib, tables[i], source, target)
  }

  ghost predicate AllVerified(lib: Library, tables: seq<Table>, source: Database, target: Database) {
    forall i :: 0 <= i < |tables| ==> Verified(lib, tables[i], source, target)
  }

  /** One result per table, with its row counts and whether it verifies. */
  ghost predicate Tells(lib: Library, tables: seq<Table>, source: Database, target: Database, results: seq<TableResult>)
    requires forall t :: t in tables ==> t.name in source
  {
    && |results| <= |tables|
    && forall i :: 0 <= i < |results| ==>
         && Comparable(lib, tables[i], source, target)
         && results[i].name == tables[i].name
         && results[i].sourceRows == |source[tables[i].name]| && results[i].targetRows == |target[tables[i].name]|
         && results[i].sourceHash == RowsHash(lib, tables[i].columns, Expected(lib, tables[i], source))
         && results[i].targetHash == RowsHash(lib, tables[i].columns, Found(lib, tables[i], target))
         && (results[i].matched <==> Verified(lib, tables[i], source, target))
  }

  ghost function Mismatched(results: seq<TableResult>): set<int> {
    set i | 0 <= i < |results| && !results[i].matched
  }

  lemma OneMoreResult(results: seq<TableResult>, r: TableResult)
    ensures |Mismatched(results + [r])| == |Mismatched(results)| + if r.matched then 0 else 1
  {
    assert Mismatched(results + [r]) == Mismatched(results) + if r.matched then {} else {|results|};
  }

  /** Unless a statement fails, which a reliable connection rules out, every table is compared. */
  method VerifyTables(lib: Library, tables: seq<Table>, source: Database, target: Database, reliable: bool)
    returns (r: Result<(nat, seq<TableResult>), MoveError>)
    requires forall t :: t in tables ==> t.name in source
    ensures r.Ok? ==>
              && |r.value.1| == |tables| && Tells(lib, tables, source, target, r.value.1)
              && (r.value.0 == 0 <==> AllVerified(lib, tables, source, target))
              && r.value.0 == |Mismatched(r.value.1)|
    ensures r.Err? ==> r.error.StatementFailed? || r.error.HashFailed?
    ensures r.Err? && r.error.HashFailed? ==>
              exists i :: && 0 <= i < |tables| && tables[i].name == r.error.name
                          && !Comparable(lib, tables[i], source, target)
    ensures reliable && AllComparable(lib, tables, source, target) ==> r.Ok?
  {
    hide AllReadable, RowsHash, ReadRows;
    var results: seq<TableResult> := [];
    var mismatches := 0;
    for i := 0 to |tables|
      invariant |results| == i && Tells(lib, tables, source, target, results)
      invariant mismatches == 0 <==> forall k :: 0 <= k < i ==> Verified(lib, tables[k], source, target)
      invariant mismatches == |Mismatched(results)|
    {
      var t := tables[i];
      var fault: bool := *;
      if (fault && !reliable) || t.name !in target { return Err(StatementFailed); }
      var left := HashTable(lib, t.columns, source[t.name], true);
      if left.Err? { return Err(HashFailed(t.name)); }
      var right := HashTable(lib, t.columns, target[t.name], false);
      if right.Err? { return Err(HashFailed(t.name)); }
      var matched := left.value.0 == right.value.0 && left.value.1 == right.value.1;
      OneMoreResult(results, TableResult(t.name, left.value.0, right.value.0, left.value.1, right.value.1, matched));
      results := results + [TableResult(t.name, left.value.0, right.value.0, left.value.1, right.value.1, matched)];
      if !matched { mismatches := mismatches + 1; }
    }
    r := Ok((mismatches, results));
  }

  /** `Verify` compares without writing: it reports success only if every table verifies, a mismatch only if
      one does not, and on a reliable connection one or the other as soon as all tables can be read. */
  method Verify(lib: Library, tables: seq<Table>, source: Database, target: Target, reliable: bool)
    returns (r: Result<seq<TableResult>, MoveError>)
    requires forall t :: t in tables ==> t.name in source
    ensures r.Ok? ==> AllVerified(lib, tables, source, target.tables)
    ensures r.Ok? ==> |r.value| == |tables| && Tells(lib, tables, source, target.tables, r.value)
    ensures r.Err? && r.error.VerifyMismatch? ==> !AllVerified(lib, tables, source, target.tables)
    ensures reliable && AllComparable(lib, tables, source, target.tables) ==>
              if AllVerified(lib, tables, source, target.tables) then r.Ok? else r.Err? && r.error.VerifyMismatch?
  {
    hide Verified, Comparable;
    var outcome := VerifyTables(lib, tables, source, target.tables, reliable);
    if outcome.Err? { return Err(outcome.error); }
    var (mismatches, results) := outcome.value;
    if mismatches > 0 { return Err(VerifyMismatch(mismatches)); }
    r := Ok(results);
  }

  /** The table holds the source's rows, one for one in some order, each standing for its own column by column. */
  ghost predicate Mirrors(lib: Library, columns: seq<Column>, rows: seq<Row>, held: seq<Row>) {
    exists arranged: seq<Row> ::
      && multiset(arranged) == multiset(held) && |arranged| == |rows|
      && forall k :: 0 <= k < |rows| ==> RowStands(lib, columns, rows[k], arranged[k])
  }

  /** What a committed move amounts to: every table mirrors its source, no row more and no row less. */
  lemma CommittedEqualsSource(lib: Library, tables: seq<Table>, source: Database, target: Database, i: nat)
    requires FixedWidth(lib) && AllVerified(lib, tables, source, target) && i < |tables|
    requires NoCollision(lib, tables[i], source, target)
    ensures multiset(target[tables[i].name]) == multiset(Expected(lib, tables[i], source))
    ensures Mirrors(lib, tables[i].columns, source[tables[i].name], target[tables[i].name])
    ensures forall row :: row in target[tables[i].name] ==> RowFits(tables[i].columns, row)
  {
    hide RowsHash, NoCollision, RowFits, Mirrors;
    VerifiedMeansEqual(lib, tables[i], source, target);
    ConvertedMirrors(lib, tables[i], source, target);
    var rows := Expected(lib, tables[i], source);
    forall row | row in target[tables[i].name] ensures RowFits(tables[i].columns, row) {
      assert row in multiset(target[tables[i].name]);
      var k :| 0 <= k < |rows| && rows[k] == row;
      ReadRowFits(lib, tables[i].columns, source[tables[i].name][k]);
    }
  }

  lemma ConvertedMirrors(lib: Library, table: Table, source: Database, target: Database)
    requires table.name in source && AllReadable(lib, table.columns, true, source[table.name])
    requires table.name in target && multiset(target[table.name]) == multiset(Expected(lib, table, source))
    ensures Mirrors(lib, table.columns, source[table.name], target[table.name])
  {
    var rows, arranged := source[table.name], Expected(lib, table, source);
    forall k | 0 <= k < |rows| ensures RowStands(lib, table.columns, rows[k], arranged[k]) {
      ReadRowStands(lib, table.columns, rows[k]);
    }
  }

  // ----- Emptiness and the wipe

  function RowCount(db: Database, name: string): nat {
    if name in db then |db[name]| else 0
  }

  ghost predicate AllEmpty(tables: seq<Table>, db: Database) {
    forall i :: 0 <= i < |tables| ==> RowCount(db, tables[i].name) == 0
  }

  /** The governed tables that hold rows, each with how many. */
  ghost predicate Counted(tables: seq<Table>, db: Database, counts: map<string, nat>) {
    && (forall name :: name in counts ==> counts[name] == RowCount(db, name) > 0)
    && (forall i :: 0 <= i < |tables| ==> (tables[i].name in counts <==> RowCount(db, tables[i].name) > 0))
    && forall name :: name in counts ==> exists i :: 0 <= i < |tables| && tables[i].name == name
  }

  method CountRows(tables: seq<Table>, tx: Transaction) returns (ok: bool, counts: map<string, nat>)
    ensures ok ==> forall name :: name in counts ==> counts[name] > 0 && counts[name] == RowCount(tx.tables, name)
    ensures ok ==> (counts == map[] <==> AllEmpty(tables, tx.tables))
    ensures ok ==> Counted(tables, tx.tables, counts)
    ensures tx.faithful ==> ok
  {
    counts := map[];
    for i := 0 to |tables|
      invariant forall name :: name in counts ==> counts[name] > 0 && counts[name] == RowCount(tx.tables, name)
      invariant forall k :: 0 <= k < i ==> (tables[k].name in counts <==> RowCount(tx.tables, tables[k].name) > 0)
      invariant forall name :: name in counts ==> exists k :: 0 <= k < i && tables[k].name == name
    {
      var fault := tx.Fault();
      if fault { return false, counts; }
      var count := RowCount(tx.tables, tables[i].name);
      if count > 0 { counts := counts[tables[i].name := count]; }
    }
    ok := true;
    assert forall name :: name in counts ==> exists k :: 0 <= k < |tables| && tables[k].name == name;
  }

  ghost predicate NoRows(names: seq<string>, db: Database) {
    forall n :: n in names ==> RowCount(db, n) == 0
  }

  /** Children first, all but the tables that are empty already. */
  method WipeEach(tables: seq<Table>, done: seq<string>, tx: Transaction) returns (ok: bool)
    requires tx.faithful ==> NoRows(done, tx.tables)
    modifies tx`tables
    ensures tx.faithful ==> ok && tx.tables.Keys == old(tx.tables).Keys && AllEmpty(tables, tx.tables)
  {
    var i := |tables|;
    while i > 0
      invariant 0 <= i <= |tables|
      invariant tx.faithful ==>
                  tx.tables.Keys == old(tx.tables).Keys && NoRows(done, tx.tables) && AllEmpty(tables[i..], tx.tables)
    {
      i := i - 1;
      assert tables[i..] == [tables[i]] + tables[i + 1..];
      if tables[i].name !in done {
        ok := tx.Wipe([tables[i].name]);
        if !ok { return; }
      }
    }
    assert tables[0..] == tables;
    ok := true;
  }

  /** Three groups of immutable tables are truncated as a whole. */
  method WipeTables(tables: seq<Table>, tx: Transaction) returns (ok: bool)
    modifies tx`tables
    ensures tx.faithful ==> ok && tx.tables.Keys == old(tx.tables).Keys && AllEmpty(tables, tx.tables)
  {
    var statements := ["tenant_statement_approvals", "tenant_statements"];
    ok := tx.Wipe(statements);
    if !ok { return; }
    var valorisation := ["valorisation_events", "valorisation_deliveries", "valorisation_items", "valorisation_runs"];
    ok := tx.Wipe(valorisation);
    if !ok { return; }
    ok := WipeEach(tables, statements, tx);
  }

  /** After this the load starts from governed tables that are all empty, or does not start; a faithful engine
      stops it only where rows were found and no wipe was asked for. */
  method EnsureEmpty(tables: seq<Table>, tx: Transaction, force: bool)
    returns (error: Option<MoveError>, counts: map<string, nat>)
    modifies tx`tables
    ensures error.None? ==> AllEmpty(tables, tx.tables) && Counted(tables, old(tx.tables), counts)
    ensures error.Some? && error.value.TargetNotEmpty? ==>
              error.value.rowsBefore == counts != map[] && Counted(tables, old(tx.tables), counts)
    ensures !force ==> tx.tables == old(tx.tables)
    ensures !force && !AllEmpty(tables, old(tx.tables)) ==> error.Some?
    ensures error == Some(TargetNotEmpty(counts)) ==> !force && !AllEmpty(tables, old(tx.tables))
    ensures error.Some? ==> error.value.StatementFailed? || error.value.TargetNotEmpty? || error.value.StillHoldsRows?
    ensures tx.faithful ==> tx.tables.Keys == old(tx.tables).Keys
    ensures tx.faithful && (force || AllEmpty(tables, old(tx.tables))) ==> error.None?
  {
    hide AllEmpty, Counted;
    error := None;
    var ok;
    ok, counts := CountRows(tables, tx);
    if !ok { return Some(StatementFailed), counts; }
    if counts == map[] { return; }
    if !force { return Some(TargetNotEmpty(counts)), counts; }
    ok := WipeTables(tables, tx);
    if !ok { return Some(StatementFailed), counts; }
    var left;
    ok, left := CountRows(tables, tx);
    if !ok { return Some(StatementFailed), counts; }
    if left != map[] {
      var name :| name in left;
      return Some(StillHoldsRows(name)), counts;
    }
  }

  // ----- The load

  /** Every source row scans and converts. */
  ghost predicate AllConvert(lib: Library, tables: seq<Table>, source: Database) {
    forall i :: 0 <= i < |tables| ==>
        tables[i].name in source && AllReadable(lib, tables[i].columns, true, source[tables[i].name])
  }

  /** The rows of the first n tables, in plan order. */
  ghost function LoadOf(lib: Library, tables: seq<Table>, source: Database, n: nat): seq<(string, Row)>
    requires n <= |tables|
    requires AllConvert(lib, tables[..n], source)
  {
    if n == 0 then []
    else
      assert tables[..n][n - 1] == tables[n - 1] && forall i :: 0 <= i < n - 1 ==> tables[..n - 1][i] == tables[..n][i];
      LoadOf(lib, tables, source, n - 1) + Tagged(tables[n - 1].name, Expected(lib, tables[n - 1], source))
  }

  ghost predicate DistinctNames(tables: seq<Table>) {
    forall i, j :: 0 <= i < j < |tables| ==> tables[i].name != tables[j].name
  }

  ghost predicate AllExist(tables: seq<Table>, db: Database) {
    forall i :: 0 <= i < |tables| ==> tables[i].name in db
  }

  /** The first n tables hold their converted source rows, the others nothing. */
  ghost predicate Loaded(lib: Library, tables: seq<Table>, source: Database, n: nat, target: Database)
    requires n <= |tables|
  {
    && AllExist(tables, target)
    && (forall i :: 0 <= i < n ==> Delivered(lib, tables[i], source, target))
    && forall i :: n <= i < |tables| ==> target[tables[i].name] == []
  }

  ghost predicate Delivered(lib: Library, table: Table, source: Database, target: Database) {
    && table.name in source && AllReadable(lib, table.columns, true, source[table.name])
    && table.name in target && multiset(target[table.name]) == multiset(Expected(lib, table, source))
  }

  lemma LoadedNext(lib: Library, tables: seq<Table>, source: Database, n: nat, before: Database, after: Database)
    requires n < |tables| && DistinctNames(tables) && Loaded(lib, tables, source, n, before)
    requires tables[n].name in source && AllReadable(lib, tables[n].columns, true, source[tables[n].name])
    requires Stores(before, tables[n].name, Expected(lib, tables[n], source), after)
    ensures Loaded(lib, tables, source, n + 1, after)
  {
    hide AllReadable, ReadRows, Expected;
    assert multiset(before[tables[n].name]) == multiset{};
  }

  /** Never called beside rows that are already there. A faithful engine with its insert guard off ends up with
      every table's converted rows, and refuses only a row that does not convert. */
  /** The failure names a table of the plan and, where a row does not convert, the first such row of it. */
  ghost predicate NamesTable(lib: Library, tables: seq<Table>, source: Database, error: MoveError)
    requires error.CopyFailed? && forall t :: t in tables ==> t.name in source
  {
    exists i ::
      && 0 <= i < |tables| && tables[i].name == error.name
      && (error.cause.Unreadable? ==> FirstUnreadable(lib, tables[i], source[tables[i].name], error.cause.row))
  }

  ghost predicate FirstUnreadable(lib: Library, table: Table, rows: seq<Row>, row: nat) {
    && 1 <= row <= |rows| && AllReadable(lib, table.columns, true, rows[..row - 1])
    && !Readable(lib, table.columns, true, rows[row - 1])
  }

  method LoadTables(lib: Library, tables: seq<Table>, source: Database, tx: Transaction)
    returns (error: Option<MoveError>)
    requires forall t :: t in tables ==> t.name in source
    requires tx.submitted == [] && AllEmpty(tables, tx.tables)
    modifies tx`tables, tx`submitted
    ensures error.None? ==>
              && AllConvert(lib, tables, source)
              && tx.submitted == LoadOf(lib, tables, source, |tables|)
    ensures error.Some? ==> error.value.CopyFailed? && NamesTable(lib, tables, source, error.value)
    ensures tx.faithful && !tx.guardEnabled && DistinctNames(tables) && AllExist(tables, old(tx.tables)) ==>
              && (error.None? <==> AllConvert(lib, tables, source))
              && (error.None? ==> Loaded(lib, tables, source, |tables|, tx.tables))
  {
    ghost var sound := tx.faithful && !tx.guardEnabled && DistinctNames(tables) && AllExist(tables, tx.tables);
    hide AllReadable, ReadRows, Tagged, Stores;
    assert AllEmpty(tables, tx.tables) && AllExist(tables, tx.tables) ==> Loaded(lib, tables, source, 0, tx.tables);
    for i := 0 to |tables|
      invariant AllConvert(lib, tables[..i], source)
      invariant tx.submitted == LoadOf(lib, tables, source, i)
      invariant sound ==> Loaded(lib, tables, source, i, tx.tables)
    {
      ghost var before := tx.tables;
      var copied, _ := Copy(lib, tables[i], source[tables[i].name], tx);
      if copied.Err? {
        assert copied.error.Unreadable? ==>
                 FirstUnreadable(lib, tables[i], source[tables[i].name], copied.error.row);
        return Some(CopyFailed(tables[i].name, copied.error));
      }
      assert tables[..i + 1] == tables[..i] + [tables[i]];
      if sound { LoadedNext(lib, tables, source, i, before, tx.tables); }
    }
    assert tables[..|tables|] == tables;
    error := None;
  }

  // ----- Move

  lemma LoadedVerifies(lib: Library, tables: seq<Table>, source: Database, target: Database)
    requires Loaded(lib, tables, source, |tables|, target)
    ensures AllComparable(lib, tables, source, target) && AllVerified(lib, tables, source, target)
  {
    hide AllReadable, ReadRows, RowsHash;
    forall i | 0 <= i < |tables|
      ensures Comparable(lib, tables[i], source, target) && Verified(lib, tables[i], source, target)
    {
      DeliveredIsComparable(lib, tables[i], source, target);
      FaithfulLoadVerifies(lib, tables[i], source, target);
    }
  }

  ghost predicate AllMirrored(lib: Library, tables: seq<Table>, source: Database, target: Database) {
    forall i :: 0 <= i < |tables| ==>
      && tables[i].name in source && tables[i].name in target
      && Mirrors(lib, tables[i].columns, source[tables[i].name], target[tables[i].name])
  }

  lemma LoadedMirrors(lib: Library, tables: seq<Table>, source: Database, target: Database)
    requires Loaded(lib, tables, source, |tables|, target)
    ensures AllMirrored(lib, tables, source, target)
  {
    hide AllReadable, ReadRows, Mirrors;
    forall i | 0 <= i < |tables|
      ensures tables[i].name in source && tables[i].name in target
      ensures Mirrors(lib, tables[i].columns, source[tables[i].name], target[tables[i].name])
    {
      assert Delivered(lib, tables[i], source, target);
      ConvertedMirrors(lib, tables[i], source, target);
    }
  }

  lemma DeliveredIsComparable(lib: Library, table: Table, source: Database, target: Database)
    requires Delivered(lib, table, source, target)
    ensures Comparable(lib, table, source, target)
  {
    hide Readable, ReadRow, ReadRows;
    var rows, found := Expected(lib, table, source), target[table.name];
    forall i | 0 <= i < |found| ensures |found[i]| == |table.columns| {
      assert found[i] in multiset(rows);
    }
    TargetRowsAsTheyAre(lib, table.columns, found);
  }

  lemma AllMatched(lib: Library, tables: seq<Table>, source: Database, target: Database, results: seq<TableResult>)
    requires forall t :: t in tables ==> t.name in source
    requires |results| == |tables| && Tells(lib, tables, source, target, results)
    requires AllVerified(lib, tables, source, target)
    ensures forall i :: 0 <= i < |tables| ==> results[i].name == tables[i].name && results[i].matched
  {
    hide Verified, Comparable;
  }

  /** All or nothing: whatever statement fails, whatever rows the engine loses or alters, the target is left
      as it was found or holds every table verified. A commit that reports an error may have done either. On a
      faithful engine the move succeeds whenever every row converts and the target is empty or may be wiped, and
      then every table holds exactly its converted rows. */
  method Run(lib: Library, tables: seq<Table>, source: Database, target: Target, force: bool, dryRun: bool,
             faithful: bool)
    returns (r: Result<Report, MoveError>, ghost submitted: seq<(string, Row)>)
    requires forall t :: t in tables ==> t.name in source
    modifies target
    ensures (target.tables == old(target.tables) && target.guardEnabled == old(target.guardEnabled))
            || (AllVerified(lib, tables, source, target.tables) && target.guardEnabled)
    ensures (r.Err? && !r.error.CommitFailed?) || dryRun ==>
              target.tables == old(target.tables) && target.guardEnabled == old(target.guardEnabled)
    ensures r.Ok? ==> r.value.committed == !dryRun && |r.value.tables| == |tables|
    ensures r.Ok? ==> Counted(tables, old(target.tables), r.value.rowsBefore)
    ensures r.Err? && r.error.TargetNotEmpty? ==> !force && Counted(tables, old(target.tables), r.error.rowsBefore)
    ensures r.Ok? && !dryRun ==> AllVerified(lib, tables, source, target.tables) && target.guardEnabled
    ensures r.Ok? ==> forall i :: 0 <= i < |tables| ==>
              r.value.tables[i].name == tables[i].name && r.value.tables[i].matched
    ensures r.Ok? ==> AllConvert(lib, tables, source) && submitted == LoadOf(lib, tables, source, |tables|)
    ensures !force && !AllEmpty(tables, old(target.tables)) ==> r.Err? && !r.error.CommitFailed?
    ensures faithful && DistinctNames(tables) && AllExist(tables, old(target.tables)) ==>
              && (r.Ok? <==> AllConvert(lib, tables, source) && (force || AllEmpty(tables, old(target.tables))))
              && (r.Ok? && !dryRun ==> Loaded(lib, tables, source, |tables|, target.tables))
    ensures faithful && DistinctNames(tables) && AllExist(tables, old(target.tables)) && r.Ok? && !dryRun ==>
              AllMirrored(lib, tables, source, target.tables)
  {
    hide Verified, Comparable, AllReadable, LoadOf, AllEmpty, AllVerified, AllComparable, AllConvert, Loaded,
         DistinctNames, AllMirrored, Counted;
    submitted := [];
    var tx := new Transaction(target.tables, target.guardEnabled, faithful);
    var refusal, before := EnsureEmpty(tables, tx, force);
    if refusal.Some? { return Err(refusal.value), []; }
    var fault := tx.Fault();
    if fault { return Err(StatementFailed), []; }
    tx.guardEnabled := false;
    var failure := LoadTables(lib, tables, source, tx);
    if failure.Some? { return Err(failure.value), []; }
    submitted := tx.submitted;
    ghost var sound := faithful && DistinctNames(tables) && AllExist(tables, old(target.tables));
    if sound {
      LoadedVerifies(lib, tables, source, tx.tables);
      LoadedMirrors(lib, tables, source, tx.tables);
    }
    fault := tx.Fault();
    if fault { return Err(StatementFailed), submitted; }
    tx.guardEnabled := true;
    var outcome := VerifyTables(lib, tables, source, tx.tables, faithful);
    if outcome.Err? { return Err(outcome.error), submitted; }
    var (mismatches, results) := outcome.value;
    if mismatches > 0 { return Err(VerifyMismatch(mismatches)), submitted; }
    AllMatched(lib, tables, source, tx.tables, results);
    if dryRun { return Ok(Report(before, results, false)), submitted; }
    fault := tx.Fault();
    var applied: bool := *;
    if applied || !fault { target.tables, target.guardEnabled := tx.tables, tx.guardEnabled; }
    if fault { return Err(CommitFailed), submitted; }
    r := Ok(Report(before, results, true));
  }
}
