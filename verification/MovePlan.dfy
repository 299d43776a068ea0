/** Reading both catalogs and resolving the load plan, or refusing to move between them (dbmove.go). */
module MovePlan {
  import opened Basics
  import opened ByteOrder
  import opened Canonical
  import opened CopyTable

  /** Table, column, declared type. */
  type Schema = map<string, map<string, string>>

  /** The converter table: the only target types the tool moves. */
  function KindOf(pgType: string): Option<Kind> {
    if pgType == "text" || pgType == "character varying" then Some(TextKind)
    else if pgType == "boolean" then Some(BoolKind)
    else if pgType == "bigint" || pgType == "integer" then Some(IntKind)
    else if pgType == "double precision" then Some(FloatKind)
    else if pgType == "bytea" then Some(BlobKind)
    else None
  }

  /** Each target type has one kind, and every kind has a type. */
  const TYPES_OF := map[
    TextKind := {"text", "character varying"}, BoolKind := {"boolean"}, IntKind := {"bigint", "integer"},
    FloatKind := {"double precision"}, BlobKind := {"bytea"}]

  lemma KindsOfTypes(pgType: string, kind: Kind)
    ensures kind in TYPES_OF && (KindOf(pgType) == Some(kind) <==> pgType in TYPES_OF[kind])
  {
    TypesAreLong();
  }

  lemma TypesAreLong()
    ensures |"text"| == 4 && |"character varying"| == 17 && |"boolean"| == 7 && |"bigint"| == 6 && |"integer"| == 7
    ensures |"double precision"| == 16 && |"bytea"| == 5 && "boolean"[0] != "integer"[0]
  {
  }

  ghost predicate Lists(names: seq<string>, keys: set<string>) {
    && (forall i :: 0 <= i < |names| ==> names[i] in keys)
    && (forall key :: key in keys ==> key in names)
    && forall i, j :: 0 <= i < j < |names| ==> names[i] != names[j]
  }

  /** `sortedKeys` */
  method SortedKeys<V>(m: map<string, V>) returns (names: seq<string>)
    ensures IsSorted(names) && Lists(names, m.Keys)
  {
    var keys: seq<string> := [];
    var rest := m.Keys;
    while rest != {}
      invariant rest <= m.Keys && Lists(keys, m.Keys - rest)
      decreases |rest|
    {
      var key :| key in rest;
      keys := keys + [key];
      rest := rest - {key};
    }
    names := Sorted(keys);
    SameNames(keys, names, m.Keys);
  }

  lemma SameNames(keys: seq<string>, names: seq<string>, all: set<string>)
    requires Lists(keys, all) && multiset(names) == multiset(keys)
    ensures Lists(names, all)
  {
    forall x ensures multiset(keys)[x] <= 1 { AtMostOnce(keys, x); }
    forall i | 0 <= i < |names| ensures names[i] in all {
      assert names[i] in multiset(keys);
    }
    forall key | key in all ensures key in names {
      assert key in multiset(keys);
    }
    forall i, j | 0 <= i < j < |names| ensures names[i] != names[j] {
      assert names == names[..j] + [names[j]] + names[j + 1..];
      assert names[i] in multiset(names[..j]);
      assert multiset(names)[names[i]]
        == multiset(names[..j])[names[i]] + multiset{names[j]}[names[i]] + multiset(names[j + 1..])[names[i]];
    }
  }

  lemma {:induction false} AtMostOnce(keys: seq<string>, x: string)
    requires forall i, j :: 0 <= i < j < |keys| ==> keys[i] != keys[j]
    ensures multiset(keys)[x] <= 1
  {
    if keys != [] {
      assert keys == [keys[0]] + keys[1..];
      AtMostOnce(keys[1..], x);
    }
  }

  // ----- Which catalogs can be moved between

  ghost predicate Movable(order: seq<string>, source: Schema, target: Schema) {
    && source != map[] && target != map[]
    && (forall name :: name in order <==> name in source)
    && (forall name :: name in order <==> name in target)
    && forall name :: name in order ==>
         source[name].Keys == target[name].Keys && forall column :: column in target[name] ==>
             KindOf(target[name][column]).Some?
  }

  /** A table's plan: its columns in name order, each with the converter of its target type. */
  ghost predicate Resolves(table: Table, name: string, columns: map<string, string>) {
    && table.name == name
    && |table.columns| == |columns|
    && (forall i :: 0 <= i < |table.columns| ==>
          && table.columns[i].name in columns && KindOf(columns[table.columns[i].name]).Some?
          && Some(table.columns[i].kind) == KindOf(columns[table.columns[i].name]))
    && (forall i, j :: 0 <= i < j < |table.columns| ==>
          table.columns[i].name != table.columns[j].name && AtMost(table.columns[i].name, table.columns[j].name))
    && (table.hasTenantID <==> "tenant_id" in columns && name != "tenant")
  }

  lemma {:induction false} ListsAll(names: seq<string>, keys: set<string>)
    requires Lists(names, keys)
    ensures |names| == |keys|
    decreases |names|
  {
    if names == [] {
      assert keys == {};
    } else {
      assert names == [names[0]] + names[1..];
      ListsAll(names[1..], keys - {names[0]});
    }
  }

  lemma AllResolved(names: seq<string>, table: Table, name: string, columns: map<string, string>)
    requires IsSorted(names) && Lists(names, columns.Keys) && table.name == name && |table.columns| == |names|
    requires forall k :: 0 <= k < |names| ==>
               table.columns[k].name == names[k] && Some(table.columns[k].kind) == KindOf(columns[names[k]])
    requires table.hasTenantID <==> "tenant_id" in names && name != "tenant"
    ensures Resolves(table, name, columns)
  {
    hide KindOf, AtMost;
    ListsAll(names, columns.Keys);
  }

  method ResolveTable(name: string, columns: map<string, string>) returns (ok: bool, table: Table)
    ensures ok <==> forall column :: column in columns ==> KindOf(columns[column]).Some?
    ensures ok ==> Resolves(table, name, columns)
  {
    hide KindOf, Resolves, AtMost, IsSorted;
    var names := SortedKeys(columns);
    var resolved: seq<Column> := [];
    ok := true;
    var hasTenantID := false;
    for i := 0 to |names|
      invariant ok <==> forall k :: 0 <= k < i ==> KindOf(columns[names[k]]).Some?
      invariant ok ==> |resolved| == i
      invariant ok ==> forall k :: 0 <= k < i ==>
                  resolved[k].name == names[k] && Some(resolved[k].kind) == KindOf(columns[names[k]])
      invariant ok ==> (hasTenantID <==> "tenant_id" in names[..i] && name != "tenant")
    {
      var kind := KindOf(columns[names[i]]);
      if kind.Some? {
        if names[i] == "tenant_id" && name != "tenant" { hasTenantID := true; }
        resolved := resolved + [Column(names[i], kind.value)];
      } else {
        ok := false;
      }
    }
    assert names[..|names|] == names;
    table := Table(name, resolved, hasTenantID);
    if ok { AllResolved(names, table, name, columns); }
  }

  ghost predicate Agree(source: Schema, target: Schema, name: string) {
    && name in source && name in target && source[name].Keys == target[name].Keys
    && forall column :: column in target[name] ==> KindOf(target[name][column]).Some?
  }

  /** Every planned table exists on both sides, and neither side has another. */
  method SameTables(order: seq<string>, source: Schema, target: Schema) returns (ok: bool)
    ensures ok <==> SameTableSets(order, source, target)
  {
    ok := true;
    for i := 0 to |order|
      invariant ok <==> forall k :: 0 <= k < i ==> order[k] in source && order[k] in target
    {
      if order[i] !in source || order[i] !in target { ok := false; }
    }
    if (exists name :: name in source && name !in order) || (exists name :: name in target && name !in order) {
      ok := false;
    }
  }

  ghost predicate SameTableSets(order: seq<string>, source: Schema, target: Schema) {
    forall name :: (name in order <==> name in source) && (name in order <==> name in target)
  }

  lemma MovableAgrees(order: seq<string>, source: Schema, target: Schema)
    requires source != map[] && target != map[]
    ensures Movable(order, source, target) <==>
            SameTableSets(order, source, target) && forall k :: 0 <= k < |order| ==> Agree(source, target, order[k])
  {
  }

  lemma AgreeMeans(source: Schema, target: Schema, name: string)
    requires name in source && name in target
    ensures Agree(source, target, name) <==>
            source[name].Keys == target[name].Keys && forall column :: column in target[name] ==>
                KindOf(target[name][column]).Some?
  {
  }

  method ResolveTables(order: seq<string>, source: Schema, target: Schema) returns (r: Option<seq<Table>>)
    requires forall i :: 0 <= i < |order| ==> order[i] in source && order[i] in target
    ensures r.Some? <==> forall i :: 0 <= i < |order| ==> Agree(source, target, order[i])
    ensures r.Some? ==> |r.value| == |order| && forall i :: 0 <= i < |order| ==>
              Resolves(r.value[i], order[i], target[order[i]])
  {
    hide Resolves, Agree, KindOf;
    var ok := true;
    var tables: seq<Table> := [];
    for i := 0 to |order|
      invariant ok <==> forall k :: 0 <= k < i ==> Agree(source, target, order[k])
      invariant ok ==> |tables| == i && forall k :: 0 <= k < i ==> Resolves(tables[k], order[k], target[order[k]])
    {
      var name := order[i];
      AgreeMeans(source, target, name);
      if source[name].Keys != target[name].Keys {
        ok := false;
      } else {
        var resolved, table := ResolveTable(name, target[name]);
        if !resolved { ok := false; }
        tables := tables + [table];
      }
    }
    r := if ok then Some(tables) else None;
  }

  /** `plan` succeeds exactly on catalogs that agree with the load order and with each other, and then plans
      every table of the order, in order. */
  method Plan(order: seq<string>, source: Schema, target: Schema) returns (r: Option<seq<Table>>)
    ensures r.Some? <==> Movable(order, source, target)
    ensures r.Some? ==> |r.value| == |order| && forall i :: 0 <= i < |order| ==>
              Resolves(r.value[i], order[i], target[order[i]])
  {
    if source == map[] || target == map[] { return None; }
    var same := SameTables(order, source, target);
    MovableAgrees(order, source, target);
    hide Resolves, Agree, Movable;
    if !same { return None; }
    assert forall i :: 0 <= i < |order| ==> order[i] in order;
    r := ResolveTables(order, source, target);
  }

  /** `CheckSourceMigrations`: neither behind nor ahead of the compiled migrations. */
  method CheckSourceMigrations(applied: set<string>, names: seq<string>) returns (ok: bool)
    ensures ok <==> forall name :: name in applied <==> name in names
  {
    var left := applied;
    var behind := 0;
    for i := 0 to |names|
      invariant behind == 0 <==> forall k :: 0 <= k < i ==> names[k] in applied
      invariant left == set name | name in applied && name !in names[..i]
    {
      if names[i] !in applied { behind := behind + 1; }
      left := left - {names[i]};
    }
    assert names[..|names|] == names;
    assert forall name :: name in left <==> name in applied && name !in names;
    ok := behind == 0 && left == {};
  }
}
