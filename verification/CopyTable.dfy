/** Loading one table in batches of parameterised INSERT statements (dbmove.go). */
module CopyTable {
  import opened Basics
  import opened Canonical
  import opened TableHash

  const INSERT_BATCH := 200

  datatype Table = Table(name: string, columns: seq<Column>, hasTenantID: bool)

  // ----- Placeholders

  /** The numbers of a statement's placeholders, one list per row: `($1, $2), ($3, $4)`. */
  type Statement = seq<seq<nat>>

  ghost predicate NumberedRow(places: seq<nat>, width: nat, r: nat) {
    |places| == width && forall c :: 0 <= c < width ==> places[c] == Position(width, r, c) + 1
  }

  ghost predicate Numbered(st: Statement, width: nat, rowCount: nat) {
    |st| == rowCount && forall r :: 0 <= r < rowCount ==> NumberedRow(st[r], width, r)
  }

  /** Where row r's column c stands in the flat argument list. */
  function Position(width: nat, r: nat, c: nat): nat {
    r * width + c
  }

  /** `insertStatement` numbers the placeholders with one running counter. */
  method InsertStatement(width: nat, rowCount: nat) returns (st: Statement)
    ensures Numbered(st, width, rowCount)
  {
    st := [];
    var param := 1;
    for r := 0 to rowCount
      invariant Numbered(st, width, r) && param == Position(width, r, 0) + 1
    {
      var row: seq<nat> := [];
      for c := 0 to width
        invariant |row| == c && param == Position(width, r, c) + 1
        invariant forall k :: 0 <= k < c ==> row[k] == Position(width, r, k) + 1
      {
        row := row + [param];
        param := param + 1;
      }
      st := st + [row];
    }
  }

  function Flatten(rows: seq<Row>): seq<Value> {
    if rows == [] then [] else Flatten(rows[..|rows| - 1]) + rows[|rows| - 1]
  }

  ghost predicate BindsRow(places: seq<nat>, args: seq<Value>, row: Row) {
    && |row| == |places|
    && forall c :: 0 <= c < |places| ==> 1 <= places[c] <= |args| && args[places[c] - 1] == row[c]
  }

  /** The rows a server sees: every placeholder replaced by the argument it numbers. */
  ghost predicate Binds(st: Statement, args: seq<Value>, rows: seq<Row>) {
    |rows| == |st| && forall r :: 0 <= r < |st| ==> BindsRow(st[r], args, rows[r])
  }

  lemma {:induction false} FlattenAt(columns: seq<Column>, rows: seq<Row>, r: nat, c: nat)
    requires AllShaped(columns, rows)
    ensures |Flatten(rows)| == Position(|columns|, |rows|, 0)
    ensures r < |rows| && c < |columns| ==>
              Position(|columns|, r, c) < |Flatten(rows)| && Flatten(rows)[Position(|columns|, r, c)] == rows[r][c]
  {
    if rows != [] {
      var last := |rows| - 1;
      FlattenAt(columns, rows[..last], r, c);
      NextPosition(|columns|, last);
      NextPosition(|columns|, r);
    }
  }

  lemma NextPosition(width: nat, r: nat)
    ensures Position(width, r + 1, 0) == Position(width, r, 0) + width
    ensures forall c :: Position(width, r, c) == Position(width, r, 0) + c
  {
  }

  lemma PlacesBindRow(columns: seq<Column>, places: seq<nat>, rows: seq<Row>, r: nat)
    requires AllShaped(columns, rows) && r < |rows| && NumberedRow(places, |columns|, r)
    ensures BindsRow(places, Flatten(rows), rows[r])
  {
    hide Position, Flatten;
    forall c | 0 <= c < |columns|
      ensures 1 <= places[c] <= |Flatten(rows)| && Flatten(rows)[places[c] - 1] == rows[r][c]
    {
      FlattenAt(columns, rows, r, c);
    }
  }

  /** However many rows and columns: the numbering puts every value back into its own place. */
  lemma StatementBindsRows(columns: seq<Column>, st: Statement, rows: seq<Row>)
    requires AllShaped(columns, rows) && Numbered(st, |columns|, |rows|)
    ensures Binds(st, Flatten(rows), rows)
  {
    hide NumberedRow, BindsRow, Flatten, AllShaped;
    forall r | 0 <= r < |rows| ensures BindsRow(st[r], Flatten(rows), rows[r]) {
      PlacesBindRow(columns, st[r], rows, r);
    }
  }

  /** The rows a statement stands for once its placeholders are replaced. */
  function BoundRows(st: Statement, args: seq<Value>): seq<Row>
    requires forall r, c :: 0 <= r < |st| && 0 <= c < |st[r]| ==> 1 <= st[r][c] <= |args|
  {
    seq(|st|, r requires 0 <= r < |st| =>
      seq(|st[r]|, c requires 0 <= c < |st[r]| => args[st[r][c] - 1]))
  }

  lemma BoundRowsAreRows(st: Statement, args: seq<Value>, rows: seq<Row>)
    requires Binds(st, args, rows)
    ensures forall r, c :: 0 <= r < |st| && 0 <= c < |st[r]| ==> 1 <= st[r][c] <= |args|
    ensures BoundRows(st, args) == rows
  {
    forall r, c | 0 <= r < |st| && 0 <= c < |st[r]| ensures 1 <= st[r][c] <= |args| {
      assert BindsRow(st[r], args, rows[r]);
    }
    forall r | 0 <= r < |st| ensures BoundRows(st, args)[r] == rows[r] {
      assert BindsRow(st[r], args, rows[r]);
    }
  }

  // ----- The load transaction

  type Database = map<string, seq<Row>>

  /** The table whose rows a trigger refuses while it is enabled. */
  const GUARDED_TABLE := "valorisation_items"

  /** `after` is `before` with these rows added to one table, in whatever order it keeps them. */
  ghost predicate Stores(before: Database, name: string, rows: seq<Row>, after: Database) {
    && after.Keys == before.Keys && name in before
    && (forall n :: n in before && n != name ==> after[n] == before[n])
    && multiset(after[name]) == multiset(before[name]) + multiset(rows)
  }

  ghost function Tagged(name: string, rows: seq<Row>): (t: seq<(string, Row)>)
    ensures |t| == |rows|
  {
    seq(|rows|, i requires 0 <= i < |rows| => (name, rows[i]))
  }

  /** The target as the open transaction sees it. An engine that is not faithful is not trusted: any
      statement may fail, or leave any contents behind. `submitted` records the rows that executed INSERTs
      bound, with their table. */
  class Transaction {
    const faithful: bool
    var tables: Database
    var guardEnabled: bool
    ghost var submitted: seq<(string, Row)>

    constructor (tables: Database, guardEnabled: bool, faithful: bool)
      ensures this.tables == tables && this.guardEnabled == guardEnabled && this.faithful == faithful && submitted == []
    {
      this.tables, this.guardEnabled, this.faithful, submitted := tables, guardEnabled, faithful, [];
    }

    method Fault() returns (fault: bool)
      ensures faithful ==> !fault
    {
      fault := *;
      if faithful { fault := false; }
    }

    ghost predicate Accepts(name: string)
      reads this
    {
      faithful && name in tables && !(guardEnabled && name == GUARDED_TABLE)
    }

    method Insert(name: string, st: Statement, args: seq<Value>, ghost rows: seq<Row>) returns (ok: bool)
      requires 1 <= |st| <= INSERT_BATCH && Binds(st, args, rows)
      modifies this`tables, this`submitted
      ensures ok ==> submitted == old(submitted) + Tagged(name, rows)
      ensures old(Accepts(name)) ==> ok && Stores(old(tables), name, rows, tables)
    {
      var before := tables;
      tables := *;
      var fault := Fault();
      ok := !fault;
      if faithful {
        ok := name in before && !(guardEnabled && name == GUARDED_TABLE);
        tables := before;
        BoundRowsAreRows(st, args, rows);
        if ok { StoreRows(name, BoundRows(st, args)); }
      }
      if ok { submitted := submitted + Tagged(name, rows); }
    }

    method StoreRows(name: string, rows: seq<Row>)
      requires name in tables
      modifies this`tables
      ensures Stores(old(tables), name, rows, tables)
    {
      var arrangement: seq<Row> := *;
      if multiset(arrangement) != multiset(tables[name]) + multiset(rows) { arrangement := tables[name] + rows; }
      tables := tables[name := arrangement];
    }

    /** TRUNCATE or DELETE, which on another engine row-level security or triggers may cut short. */
    method Wipe(names: seq<string>) returns (ok: bool)
      modifies this`tables
      ensures faithful ==>
                && ok && tables.Keys == old(tables).Keys
                && forall n :: n in tables ==> tables[n] == if n in names then [] else old(tables)[n]
    {
      var before := tables;
      tables := *;
      var fault := Fault();
      ok := !fault;
      if faithful { tables := map n | n in before :: if n in names then [] else before[n]; }
    }
  }

  // ----- Batches

  datatype CopyError = Unreadable(row: nat) | InsertFailed

  /** Which column, if any, is watched for rows without a tenant. */
  predicate IsTenantColumn(table: Table, i: int) {
    0 <= i < |table.columns| && table.hasTenantID && table.columns[i].name == "tenant_id"
  }

  method TenantIndex(table: Table) returns (index: int)
    ensures index == -1 || IsTenantColumn(table, index)
    ensures forall i :: IsTenantColumn(table, i) ==> i <= index
  {
    index := -1;
    for i := 0 to |table.columns|
      invariant index == -1 || IsTenantColumn(table, index)
      invariant index < i && forall k :: k < i && IsTenantColumn(table, k) ==> k <= index
    {
      if table.hasTenantID && table.columns[i].name == "tenant_id" { index := i; }
    }
  }

  /** How many rows hold NULL in the column. */
  function NullCount(rows: seq<Row>, index: int): nat {
    if rows == [] then 0
    else
      var row := rows[|rows| - 1];
      NullCount(rows[..|rows| - 1], index) + if 0 <= index < |row| && row[index] == Null then 1 else 0
  }

  /** The rows that hold NULL in the column. */
  ghost function NullRows(rows: seq<Row>, index: int): set<int> {
    set k | 0 <= k < |rows| && 0 <= index < |rows[k]| && rows[k][index] == Null
  }

  lemma {:induction false} NullCountIsSize(rows: seq<Row>, index: int)
    ensures NullCount(rows, index) == |NullRows(rows, index)|
  {
    if rows != [] {
      var last := |rows| - 1;
      NullCountIsSize(rows[..last], index);
      var now := if 0 <= index < |rows[last]| && rows[last][index] == Null then {last} else {};
      assert NullRows(rows, index) == NullRows(rows[..last], index) + now;
    }
  }

  /** The locals of `copyTable` and its closure `flush`; the batch buffer is reused. The history fields hold
      the rows scanned so far, flushed or still in the buffer, and what the transaction held before. */
  class Loader {
    const table: Table
    const tx: Transaction
    const tenantIndex: int
    var moved: nat
    var nullTenants: nat
    var batch: seq<Value>
    var batchRows: nat
    ghost var flushed: seq<Row>
    ghost var pending: seq<Row>
    ghost const before: seq<(string, Row)>
    ghost const tablesBefore: Database
    ghost const accepted: bool

    constructor (table: Table, tx: Transaction, tenantIndex: int)
      ensures this.table == table && this.tx == tx && this.tenantIndex == tenantIndex
      ensures before == tx.submitted && tablesBefore == tx.tables && accepted == tx.Accepts(table.name)
      ensures Scanned() == [] && batchRows == 0 && Valid()
    {
      this.table, this.tx, this.tenantIndex := table, tx, tenantIndex;
      moved, nullTenants, batch, batchRows := 0, 0, [], 0;
      flushed, pending, before, tablesBefore, accepted := [], [], tx.submitted, tx.tables, tx.Accepts(table.name);
    }

    ghost function Scanned(): seq<Row>
      reads this
    {
      flushed + pending
    }

    ghost predicate Valid()
      reads this, tx
    {
      && batch == Flatten(pending) && batchRows == |pending| && AllShaped(table.columns, pending)
      && tx.submitted == before + Tagged(table.name, flushed)
      && (accepted ==> tx.Accepts(table.name) && Stores(tablesBefore, table.name, flushed, tx.tables))
      && moved == |flushed| && nullTenants == NullCount(Scanned(), tenantIndex)
    }

    method Flush() returns (ok: bool)
      requires Valid() && batchRows <= INSERT_BATCH
      modifies this`moved, this`batch, this`batchRows, this`flushed, this`pending, tx`tables, tx`submitted
      ensures ok ==> Valid() && batchRows == 0 && Scanned() == old(Scanned())
      ensures accepted ==> ok
    {
      if batchRows == 0 {
        return true;
      }
      var st := InsertStatement(|table.columns|, batchRows);
      StatementBindsRows(table.columns, st, pending);
      hide Numbered, Binds, Tagged, Flatten, NullCount, Stores;
      ok := tx.Insert(table.name, st, batch, pending);
      if accepted { StoresMore(tablesBefore, table.name, flushed, old(tx.tables), pending, tx.tables); }
      if !ok { return; }
      TaggedJoins(table.name, before, flushed, pending);
      moved := moved + batchRows;
      batch, batchRows, flushed, pending := [], 0, flushed + pending, [];
      assert Scanned() == old(Scanned());
      assert Flatten([]) == [] by { NothingFlat(); }
    }

    method Append(row: Row)
      requires Valid() && |row| == |table.columns|
      modifies this`nullTenants, this`batch, this`batchRows, this`pending
      ensures Valid() && batchRows == old(batchRows) + 1 && Scanned() == old(Scanned()) + [row]
    {
      hide Tagged, Flatten, NullCount, Stores;
      FlattenGrows(pending, row);
      NullCountGrows(Scanned(), row, tenantIndex);
      assert flushed + (pending + [row]) == Scanned() + [row];
      if tenantIndex != -1 && 0 <= tenantIndex < |row| && row[tenantIndex] == Null { nullTenants := nullTenants + 1; }
      batch := batch + row;
      batchRows := batchRows + 1;
      pending := pending + [row];
    }
  }

  // ----- The table

  /** The load of a table submits exactly its converted rows, each once and in order, whatever their number;
      it stops at the first row that does not convert, and on a faithful engine at nothing else. */
  method Copy(lib: Library, table: Table, rows: seq<Row>, tx: Transaction)
    returns (r: Result<(nat, nat), CopyError>, ghost tenantIndex: int)
    modifies tx`tables, tx`submitted
    ensures tenantIndex == -1 || (0 <= tenantIndex < |table.columns| && table.columns[tenantIndex].name == "tenant_id")
    ensures !table.hasTenantID ==> tenantIndex == -1
    ensures table.hasTenantID ==>
              forall i :: 0 <= i < |table.columns| && table.columns[i].name == "tenant_id" ==> i <= tenantIndex
    ensures r.Ok? ==>
              && AllReadable(lib, table.columns, true, rows)
              && var converted := ReadRows(lib, table.columns, true, rows);
              && r.value.0 == |rows|
              && r.value.1 == |NullRows(converted, tenantIndex)|
              && tx.submitted == old(tx.submitted) + Tagged(table.name, converted)
              && (old(tx.Accepts(table.name)) ==> Stores(old(tx.tables), table.name, converted, tx.tables))
    ensures r.Err? && r.error.Unreadable? ==>
              && 1 <= r.error.row <= |rows|
              && AllReadable(lib, table.columns, true, rows[..r.error.row - 1])
              && !Readable(lib, table.columns, true, rows[r.error.row - 1])
    ensures old(tx.Accepts(table.name)) ==> r.Ok? || r.error.Unreadable?
  {
    hide Readable, ReadRow, ReadRows, NullCount, Stores;
    var index := TenantIndex(table);
    tenantIndex := index;
    assert forall i :: 0 <= i < |table.columns| && table.hasTenantID && table.columns[i].name == "tenant_id" ==>
                         IsTenantColumn(table, i);
    var loader := new Loader(table, tx, index);
    var i := 0;
    while i < |rows|
      invariant i <= |rows| && loader.Valid() && loader.batchRows < INSERT_BATCH
      invariant AllReadable(lib, table.columns, true, rows[..i])
      invariant loader.Scanned() == ReadRows(lib, table.columns, true, rows[..i])
    {
      if !Readable(lib, table.columns, true, rows[i]) {
        return Err(Unreadable(loader.moved + loader.batchRows + 1)), index;
      }
      ReadRowsGrow(lib, table.columns, true, rows, i);
      loader.Append(ReadRow(lib, table.columns, true, rows[i]));
      i := i + 1;
      if loader.batchRows >= INSERT_BATCH {
        var ok := loader.Flush();
        if !ok { return Err(InsertFailed), index; }
      }
    }
    assert rows[..i] == rows;
    var ok := loader.Flush();
    if !ok { return Err(InsertFailed), index; }
    assert loader.Scanned() == loader.flushed;
    NullCountIsSize(loader.Scanned(), index);
    r := Ok((loader.moved, loader.nullTenants));
  }

  lemma NothingFlat()
    ensures Flatten([]) == []
  {
  }

  lemma StoresMore(start: Database, name: string, first: seq<Row>, middle: Database, second: seq<Row>, end: Database)
    requires Stores(start, name, first, middle) && Stores(middle, name, second, end)
    ensures Stores(start, name, first + second, end)
  {
  }

  lemma TaggedJoins(name: string, before: seq<(string, Row)>, first: seq<Row>, second: seq<Row>)
    ensures before + Tagged(name, first) + Tagged(name, second) == before + Tagged(name, first + second)
  {
  }

  lemma FlattenGrows(rows: seq<Row>, row: Row)
    ensures Flatten(rows + [row]) == Flatten(rows) + row
  {
    assert (rows + [row])[..|rows|] == rows;
  }

  lemma NullCountGrows(rows: seq<Row>, row: Row, index: int)
    ensures NullCount(rows + [row], index)
            == NullCount(rows, index) + if 0 <= index < |row| && row[index] == Null then 1 else 0
  {
    assert (rows + [row])[..|rows|] == rows;
  }
}
