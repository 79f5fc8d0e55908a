/** Migration of an existing MySQL table (ddl/create.go:802-958, 341-369, 1218-1231), over an
    abstract catalogue, with reference checking off and no SQLMigrate statements. */
module Migrate {
  import opened Prelude
  import opened Text
  import opened Sql
  import opened SqlWords
  import opened MigrateText

  // ---------- The catalogue and the statements ----------

  /** An index: the lower-case names of its columns, and whether it keeps their values apart. */
  datatype Index = Index(columns: set<string>, unique: bool)

  /** A table: the definitions of its columns under their lower-case names, and its indexes. */
  datatype Layout = Layout(columns: map<string, string>, indexes: map<string, Index>)

  /** The tables of a database. */
  type Catalogue = map<string, Layout>

  /** An index has at least one column. */
  ghost predicate ValidLayout(c: Layout) {
    forall n :: n in c.indexes ==> c.indexes[n].columns != {}
  }

  /** `definition` is the type of a column and what follows it. */
  datatype Column = Column(name: string, notDB: bool, unique: bool, uniqueName: string, definition: string)

  function Lowers(names: seq<string>): (r: seq<string>)
    ensures |r| == |names| && forall i :: 0 <= i < |r| ==> r[i] == Lower(names[i])
  {
    seq(|names|, i requires 0 <= i < |names| => Lower(names[i]))
  }

  /** The columns an index on these names has. */
  function ColumnSet(names: seq<string>): set<string> {
    Elems(Lowers(names))
  }

  /** No two names are the same up to case. */
  ghost predicate FoldDistinct(names: seq<string>) {
    Distinct(Lowers(names))
  }

  /** What a statement does to its table; none of them may repeat what is there or need what is not. */
  ghost function Change(c: Layout, s: Ddl): Option<Layout> {
    match s
    case AddColumn(_, column, definition) =>
      if Lower(column) in c.columns then None else Some(c.(columns := c.columns[Lower(column) := definition]))
    case DropIndex(_, n) =>
      if n !in c.indexes then None else Some(c.(indexes := c.indexes - {n}))
    case CreateUnique(_, n, cols) =>
      if n in c.indexes || cols == [] || !FoldDistinct(cols) || !(ColumnSet(cols) <= c.columns.Keys) then None
      else Some(c.(indexes := c.indexes[n := Index(ColumnSet(cols), true)]))
  }

  ghost function ChangeAll(c: Layout, steps: seq<Ddl>): Option<Layout> {
    if steps == [] then Some(c)
    else
      var before := ChangeAll(c, steps[..|steps| - 1]);
      if before.None? then None else Change(before.value, steps[|steps| - 1])
  }

  lemma {:induction false} ChangeSnoc(c: Layout, steps: seq<Ddl>, s: Ddl)
    ensures ChangeAll(c, steps + [s]) == var before := ChangeAll(c, steps); if before.None? then None
            else Change(before.value, s)
  {
    assert (steps + [s])[..|steps|] == steps;
  }

  lemma {:induction false} ChangeInTurn(c: Layout, a: seq<Ddl>, b: seq<Ddl>)
    ensures ChangeAll(c, a + b) == var mid := ChangeAll(c, a); if mid.None? then None else ChangeAll(mid.value, b)
  {
    if b == [] {
      assert a + b == a;
    } else {
      assert (a + b)[..|a + b| - 1] == a + b[..|b| - 1];
      ChangeInTurn(c, a, b[..|b| - 1]);
    }
  }

  /** What a statement does to a database: it needs the table it names, and changes that one alone. */
  ghost function Apply(db: Catalogue, s: Ddl): Option<Catalogue> {
    if s.table !in db then None
    else
      var after := Change(db[s.table], s);
      if after.None? then None else Some(db[s.table := after.value])
  }

  ghost function ApplyAll(db: Catalogue, steps: seq<Ddl>): Option<Catalogue> {
    if steps == [] then Some(db)
    else
      var before := ApplyAll(db, steps[..|steps| - 1]);
      if before.None? then None else Apply(before.value, steps[|steps| - 1])
  }

  ghost predicate AllOn(steps: seq<Ddl>, table: string) {
    forall i :: 0 <= i < |steps| ==> steps[i].table == table
  }

  /** Statements on one table that exists do to the database what they do to the table. */
  lemma {:induction false} ApplyOn(db: Catalogue, table: string, steps: seq<Ddl>)
    requires table in db && AllOn(steps, table)
    ensures ApplyAll(db, steps)
            == var after := ChangeAll(db[table], steps); if after.None? then None else Some(db[table := after.value])
    decreases |steps|
  {
    if steps == [] {
      assert db[table := db[table]] == db;
    } else {
      var before := ChangeAll(db[table], steps[..|steps| - 1]);
      ApplyOn(db, table, steps[..|steps| - 1]);
      if before.Some? {
        var after := Change(before.value, steps[|steps| - 1]);
        assert after.Some? ==> db[table := before.value][table := after.value] == db[table := after.value];
      }
    }
  }

  // ---------- What the message declares ----------

  /** The name of a unique index: the one given, or the table's and the field's behind `uk`; the
      schema stands in front of the one and inside the other. */
  function IndexName(f: Column, dbschema: string, tableName: string): (n: string)
    ensures f.uniqueName != "" && dbschema == "" ==> n == f.uniqueName
    ensures f.uniqueName != "" && dbschema != "" ==> n == dbschema + "_" + f.uniqueName
    ensures f.uniqueName == "" && dbschema == "" ==> n == "uk_" + tableName + "_" + f.name
    ensures f.uniqueName == "" && dbschema != "" ==> n == "uk_" + dbschema + "_" + tableName + "_" + f.name
  {
    if f.uniqueName != "" then if dbschema != "" then dbschema + "_" + f.uniqueName else f.uniqueName
    else if dbschema != "" then "uk_" + dbschema + "_" + tableName + "_" + f.name
    else "uk_" + tableName + "_" + f.name
  }

  function DbNames(fields: seq<Column>): seq<string> {
    if fields == [] then []
    else
      var front, f := DbNames(fields[..|fields| - 1]), fields[|fields| - 1];
      if f.notDB then front else front + [f.name]
  }

  /** The unique indexes and their columns, fields in declaration order. */
  function Declared(fields: seq<Column>, dbschema: string, tableName: string): map<string, seq<string>> {
    if fields == [] then map[]
    else
      var front, f := Declared(fields[..|fields| - 1], dbschema, tableName), fields[|fields| - 1];
      if f.notDB || !f.unique then front
      else
        var n := IndexName(f, dbschema, tableName);
        front[n := (if n in front then front[n] else []) + [f.name]]
  }

  /** One field more. */
  lemma {:induction false} FieldStep(fields: seq<Column>, i: nat, dbschema: string, tableName: string)
    requires i < |fields|
    ensures DbNames(fields[..i + 1])
            == if fields[i].notDB then DbNames(fields[..i]) else DbNames(fields[..i]) + [fields[i].name]
    ensures var declared, n := Declared(fields[..i], dbschema, tableName), IndexName(fields[i], dbschema, tableName);
            Declared(fields[..i + 1], dbschema, tableName)
            == if fields[i].notDB || !fields[i].unique then declared
               else declared[n := (if n in declared then declared[n] else []) + [fields[i].name]]
  {
    assert fields[..i + 1][..i] == fields[..i];
  }

  /** There is an index of this name with the columns of these names. */
  ghost predicate HasColumns(indexes: map<string, Index>, n: string, names: seq<string>) {
    n in indexes && indexes[n].columns == ColumnSet(names)
  }

  /** What becomes of a declared index: one with its name and its columns stays, unique or not. */
  ghost function IndexAfter(indexes: map<string, Index>, n: string, names: seq<string>): Index {
    if HasColumns(indexes, n, names) then indexes[n] else Index(ColumnSet(names), true)
  }

  /** The columns with those of the stored fields that are missing. */
  function WithColumns(columns: map<string, string>, fields: seq<Column>): map<string, string> {
    if fields == [] then columns
    else
      var front, f := WithColumns(columns, fields[..|fields| - 1]), fields[|fields| - 1];
      if f.notDB || Lower(f.name) in front then front else front[Lower(f.name) := f.definition]
  }

  lemma {:induction false} WithColumnsSnoc(columns: map<string, string>, fields: seq<Column>, f: Column)
    ensures WithColumns(columns, fields + [f])
            == var front := WithColumns(columns, fields);
               if f.notDB || Lower(f.name) in front then front else front[Lower(f.name) := f.definition]
    ensures DbNames(fields + [f]) == if f.notDB then DbNames(fields) else DbNames(fields) + [f.name]
  {
    assert (fields + [f])[..|fields|] == fields;
  }

  lemma {:induction false} WithColumnsKeys(columns: map<string, string>, fields: seq<Column>)
    ensures WithColumns(columns, fields).Keys == columns.Keys + ColumnSet(DbNames(fields))
  {
    if fields == [] {
      assert Lowers(DbNames(fields)) == [];
    } else {
      var front, f := fields[..|fields| - 1], fields[|fields| - 1];
      WithColumnsKeys(columns, front);
      ColumnSetSnoc(DbNames(front), f.name);
    }
  }

  /** Columns that are all there stay as they are. */
  lemma {:induction false} WithColumnsFixed(columns: map<string, string>, fields: seq<Column>)
    requires ColumnSet(DbNames(fields)) <= columns.Keys
    ensures WithColumns(columns, fields) == columns
  {
    if fields != [] {
      var front, f := fields[..|fields| - 1], fields[|fields| - 1];
      ColumnSetSnoc(DbNames(front), f.name);
      WithColumnsFixed(columns, front);
    }
  }

  /** The layout a migration aims at: the columns of the message added, its unique indexes on the
      columns declared, and everything else as it was. */
  ghost function Target(c: Layout, fields: seq<Column>, dbschema: string, tableName: string): Layout {
    var declared := Declared(fields, dbschema, tableName);
    Layout(WithColumns(c.columns, fields),
           c.indexes + map n | n in declared :: IndexAfter(c.indexes, n, declared[n]))
  }

  /** Migrating once is enough. */
  lemma TargetIsFixed(c: Layout, fields: seq<Column>, dbschema: string, tableName: string)
    ensures Target(Target(c, fields, dbschema, tableName), fields, dbschema, tableName)
            == Target(c, fields, dbschema, tableName)
  {
    var after, declared := Target(c, fields, dbschema, tableName), Declared(fields, dbschema, tableName);
    forall n | n in declared
      ensures IndexAfter(after.indexes, n, declared[n]) == after.indexes[n]
    {
      assert after.indexes[n] == IndexAfter(c.indexes, n, declared[n]);
    }
    WithColumnsKeys(c.columns, fields);
    WithColumnsFixed(after.columns, fields);
  }

  // ---------- What a migration does, said of the message's fields ----------

  predicate DeclaresColumn(f: Column, column: string) {
    !f.notDB && Lower(f.name) == column
  }

  predicate DeclaresIndex(f: Column, dbschema: string, tableName: string, n: string) {
    !f.notDB && f.unique && IndexName(f, dbschema, tableName) == n
  }

  /** The columns of the unique fields that share an index. */
  ghost function IndexColumns(fields: seq<Column>, dbschema: string, tableName: string, n: string): set<string> {
    set i | 0 <= i < |fields| && DeclaresIndex(fields[i], dbschema, tableName, n) :: Lower(fields[i].name)
  }

  /** Old columns stay, each missing one gets the definition of its own field, and no other appears. */
  ghost predicate ColumnsMigrated(before: map<string, string>, after: map<string, string>, fields: seq<Column>) {
    && (forall c :: c in before ==> c in after && after[c] == before[c])
    && (forall i :: 0 <= i < |fields| && !fields[i].notDB ==>
          Lower(fields[i].name) in after
          && (Lower(fields[i].name) !in before ==> after[Lower(fields[i].name)] == fields[i].definition))
    && (forall c :: c in after && c !in before ==>
          exists i :: 0 <= i < |fields| && DeclaresColumn(fields[i], c))
  }

  /** A declared index is on the columns of its fields: as it was if it was on them, and unique
      otherwise. Any other name has the index it had, or none. */
  ghost predicate IndexMigrated(before: map<string, Index>, after: map<string, Index>, fields: seq<Column>,
                                dbschema: string, tableName: string, n: string)
  {
    if exists i :: 0 <= i < |fields| && DeclaresIndex(fields[i], dbschema, tableName, n) then
      var columns := IndexColumns(fields, dbschema, tableName, n);
      n in after && after[n] == if n in before && before[n].columns == columns then before[n] else Index(columns, true)
    else if n in before then n in after && after[n] == before[n]
    else n !in after
  }

  ghost predicate IndexesMigrated(before: map<string, Index>, after: map<string, Index>, fields: seq<Column>,
                                  dbschema: string, tableName: string)
  {
    forall n :: IndexMigrated(before, after, fields, dbschema, tableName, n)
  }

  lemma {:induction false} WithColumnsMeans(columns: map<string, string>, fields: seq<Column>)
    requires FoldDistinct(DbNames(fields))
    ensures ColumnsMigrated(columns, WithColumns(columns, fields), fields)
    decreases |fields|
  {
    if fields != [] {
      var front, f := fields[..|fields| - 1], fields[|fields| - 1];
      assert fields == front + [f];
      NamesPrefix(fields, |fields| - 1);
      WithColumnsMeans(columns, front);
      WithColumnsKeys(columns, front);
      ColumnsMore(columns, front, f);
    }
  }

  lemma {:induction false} ColumnsMore(columns: map<string, string>, fields: seq<Column>, f: Column)
    requires ColumnsMigrated(columns, WithColumns(columns, fields), fields)
    requires FoldDistinct(DbNames(fields + [f]))
    ensures ColumnsMigrated(columns, WithColumns(columns, fields + [f]), fields + [f])
  {
    var all, w := fields + [f], WithColumns(columns, fields);
    WithColumnsSnoc(columns, fields, f);
    WithColumnsKeys(columns, fields);
    if !f.notDB {
      ColumnSetSnoc(DbNames(fields), f.name);
    }
    forall i | 0 <= i < |all| && !all[i].notDB
      ensures var c, w' := Lower(all[i].name), WithColumns(columns, all);
              c in w' && (c !in columns ==> w'[c] == all[i].definition)
    {
      if i < |fields| {
        assert all[i] == fields[i];
        NameAmong(fields, i);
      }
    }
    forall c | c in WithColumns(columns, all) && c !in columns
      ensures exists i :: 0 <= i < |all| && DeclaresColumn(all[i], c)
    {
      if c in w {
        var i :| 0 <= i < |fields| && DeclaresColumn(fields[i], c);
        assert DeclaresColumn(all[i], c);
      } else {
        assert DeclaresColumn(all[|fields|], c);
      }
    }
  }

  lemma {:induction false} NameAmong(fields: seq<Column>, i: nat)
    requires i < |fields| && !fields[i].notDB
    ensures Lower(fields[i].name) in ColumnSet(DbNames(fields))
    decreases |fields|
  {
    var front, f := fields[..|fields| - 1], fields[|fields| - 1];
    if !f.notDB {
      ColumnSetSnoc(DbNames(front), f.name);
    }
    if i < |front| {
      assert front[i] == fields[i];
      NameAmong(front, i);
    }
  }

  lemma IndexColumnsSnoc(fields: seq<Column>, f: Column, dbschema: string, tableName: string, n: string)
    ensures IndexColumns(fields + [f], dbschema, tableName, n)
            == IndexColumns(fields, dbschema, tableName, n)
               + if DeclaresIndex(f, dbschema, tableName, n) then {Lower(f.name)} else {}
  {
    var all := fields + [f];
    forall i | 0 <= i < |fields|
      ensures all[i] == fields[i]
    {
    }
    forall c | c in IndexColumns(fields, dbschema, tableName, n)
      ensures c in IndexColumns(all, dbschema, tableName, n)
    {
      var i :| 0 <= i < |fields| && DeclaresIndex(fields[i], dbschema, tableName, n) && c == Lower(fields[i].name);
      assert DeclaresIndex(all[i], dbschema, tableName, n);
    }
    if DeclaresIndex(f, dbschema, tableName, n) {
      assert DeclaresIndex(all[|fields|], dbschema, tableName, n);
    }
  }

  /** The declared indexes are those of the unique stored fields, each on the columns of its fields. */
  lemma {:induction false} DeclaredMeans(fields: seq<Column>, dbschema: string, tableName: string, n: string)
    ensures var declared := Declared(fields, dbschema, tableName);
            && (n in declared <==> exists i :: 0 <= i < |fields| && DeclaresIndex(fields[i], dbschema, tableName, n))
            && (n in declared ==> ColumnSet(declared[n]) == IndexColumns(fields, dbschema, tableName, n))
            && (n !in declared ==> IndexColumns(fields, dbschema, tableName, n) == {})
    decreases |fields|
  {
    if fields != [] {
      var front, f := fields[..|fields| - 1], fields[|fields| - 1];
      assert fields == front + [f];
      DeclaredMeans(front, dbschema, tableName, n);
      IndexColumnsSnoc(front, f, dbschema, tableName, n);
      DeclaringMore(front, f, dbschema, tableName, n);
      DeclaredMore(front, f, dbschema, tableName, n);
    }
  }

  lemma DeclaringMore(fields: seq<Column>, f: Column, dbschema: string, tableName: string, n: string)
    ensures (exists i :: 0 <= i < |fields + [f]| && DeclaresIndex((fields + [f])[i], dbschema, tableName, n))
       <==> DeclaresIndex(f, dbschema, tableName, n)
            || exists i :: 0 <= i < |fields| && DeclaresIndex(fields[i], dbschema, tableName, n)
  {
    var all := fields + [f];
    if i :| 0 <= i < |fields| && DeclaresIndex(fields[i], dbschema, tableName, n) {
      assert DeclaresIndex(all[i], dbschema, tableName, n);
    }
    if DeclaresIndex(f, dbschema, tableName, n) {
      assert DeclaresIndex(all[|fields|], dbschema, tableName, n);
    }
  }

  lemma {:induction false} DeclaredMore(fields: seq<Column>, f: Column, dbschema: string, tableName: string, n: string)
    ensures var before, after := Declared(fields, dbschema, tableName), Declared(fields + [f], dbschema, tableName);
            if DeclaresIndex(f, dbschema, tableName, n) then
              && n in after
              && ColumnSet(after[n]) == (if n in before then ColumnSet(before[n]) else {}) + {Lower(f.name)}
            else (n in after <==> n in before) && (n in before ==> after[n] == before[n])
  {
    assert (fields + [f])[..|fields|] == fields;
    if DeclaresIndex(f, dbschema, tableName, n) {
      var before := Declared(fields, dbschema, tableName);
      ColumnSetSnoc(if n in before then before[n] else [], f.name);
      assert Lowers([]) == [];
    }
  }

  lemma {:induction false} IndexMeans(c: Layout, fields: seq<Column>, dbschema: string, tableName: string, n: string)
    ensures IndexMigrated(c.indexes, Target(c, fields, dbschema, tableName).indexes, fields, dbschema, tableName, n)
  {
    DeclaredMeans(fields, dbschema, tableName, n);
    var declared := Declared(fields, dbschema, tableName);
    if n in declared {
      assert Target(c, fields, dbschema, tableName).indexes[n] == IndexAfter(c.indexes, n, declared[n]);
    }
  }

  /** The layout aimed at, said of the fields alone. */
  lemma {:induction false} TargetMeans(c: Layout, fields: seq<Column>, dbschema: string, tableName: string)
    requires FoldDistinct(DbNames(fields))
    ensures ColumnsMigrated(c.columns, Target(c, fields, dbschema, tableName).columns, fields)
    ensures IndexesMigrated(c.indexes, Target(c, fields, dbschema, tableName).indexes, fields, dbschema, tableName)
  {
    WithColumnsMeans(c.columns, fields);
    forall n
      ensures IndexMigrated(c.indexes, Target(c, fields, dbschema, tableName).indexes, fields, dbschema, tableName, n)
    {
      IndexMeans(c, fields, dbschema, tableName, n);
    }
  }

  // ---------- Uniqueness of the declared indexes ----------

  /** Every declared index is there, on its columns, and is unique. */
  ghost predicate DeclaredUnique(c: Layout, declared: map<string, seq<string>>) {
    forall n :: n in declared ==> HasColumns(c.indexes, n, declared[n]) && c.indexes[n].unique
  }

  /** No index that is not unique has a declared name and the columns declared for it. */
  ghost predicate NoLookalike(c: Layout, declared: map<string, seq<string>>) {
    forall n :: n in declared && HasColumns(c.indexes, n, declared[n]) ==> c.indexes[n].unique
  }

  /** A migration makes every declared index unique exactly when no other index passes for one. */
  lemma {:induction false} UniqueIff(c: Layout, fields: seq<Column>, dbschema: string, tableName: string)
    ensures DeclaredUnique(Target(c, fields, dbschema, tableName), Declared(fields, dbschema, tableName))
       <==> NoLookalike(c, Declared(fields, dbschema, tableName))
  {
    var after, declared := Target(c, fields, dbschema, tableName), Declared(fields, dbschema, tableName);
    forall n | n in declared
      ensures HasColumns(after.indexes, n, declared[n])
      ensures after.indexes[n].unique <==> HasColumns(c.indexes, n, declared[n]) ==> c.indexes[n].unique
    {
      assert after.indexes[n] == IndexAfter(c.indexes, n, declared[n]);
    }
  }

  /** A table with the column of a unique field, and an index under the declared name that is not
      unique. */
  function Lookalike(f: Column, dbschema: string, tableName: string): Layout {
    Layout(map[Lower(f.name) := f.definition], map[IndexName(f, dbschema, tableName) := Index({Lower(f.name)}, false)])
  }

  lemma {:induction false} OneField(f: Column, dbschema: string, tableName: string)
    requires f.unique && !f.notDB
    ensures DbNames([f]) == [f.name]
    ensures Declared([f], dbschema, tableName) == map[IndexName(f, dbschema, tableName) := [f.name]]
  {
    assert [f][..|[f]| - 1] == [];
    assert Declared([], dbschema, tableName) == map[];
    assert [] + [f.name] == [f.name];
  }

  // ---------- Comparing index columns by counting ----------

  ghost predicate CountsEqual(columns: set<string>, names: seq<string>) {
    |columns| == |names| && forall i :: 0 <= i < |names| ==> Lower(names[i]) in columns
  }

  method UniqueKeyColumnsEqual(columns: set<string>, names: seq<string>) returns (r: bool)
    ensures r <==> CountsEqual(columns, names)
  {
    if |columns| != |names| {
      return false;
    }
    for i := 0 to |names|
      invariant forall j :: 0 <= j < i ==> Lower(names[j]) in columns
    {
      if Lower(names[i]) !in columns {
        return false;
      }
    }
    r := true;
  }

  lemma CountingDecides(columns: set<string>, names: seq<string>)
    requires FoldDistinct(names)
    ensures CountsEqual(columns, names) <==> columns == ColumnSet(names)
  {
    DistinctSize(Lowers(names));
    if CountsEqual(columns, names) {
      SubsetOfSameSize(ColumnSet(names), columns);
    }
    if columns == ColumnSet(names) {
      forall i | 0 <= i < |names|
        ensures Lower(names[i]) in columns
      {
        assert Lowers(names)[i] in Elems(Lowers(names));
      }
    }
  }

  /** Counting decides equality of column sets exactly for names that differ up to case. */
  lemma CountingDecidesIff(names: seq<string>)
    ensures (forall columns :: CountsEqual(columns, names) <==> columns == ColumnSet(names)) <==> FoldDistinct(names)
  {
    if FoldDistinct(names) {
      forall columns
        ensures CountsEqual(columns, names) <==> columns == ColumnSet(names)
      {
        CountingDecides(columns, names);
      }
    } else {
      DistinctSize(Lowers(names));
      assert !CountsEqual(ColumnSet(names), names);
    }
  }

  // ---------- Declared indexes are well formed ----------

  lemma {:induction false} NamesPrefix(fields: seq<Column>, n: nat)
    requires n <= |fields| && FoldDistinct(DbNames(fields))
    ensures FoldDistinct(DbNames(fields[..n]))
    decreases |fields|
  {
    if n < |fields| {
      var front := fields[..|fields| - 1];
      assert FoldDistinct(DbNames(front)) by {
        var all := Lowers(DbNames(fields));
        assert forall i :: 0 <= i < |DbNames(front)| ==> Lowers(DbNames(front))[i] == all[i];
      }
      NamesPrefix(front, n);
      assert front[..n] == fields[..n];
    } else {
      assert fields[..n] == fields;
    }
  }

  lemma ColumnSetSnoc(names: seq<string>, name: string)
    ensures ColumnSet(names + [name]) == ColumnSet(names) + {Lower(name)}
    ensures FoldDistinct(names + [name]) <==> FoldDistinct(names) && Lower(name) !in ColumnSet(names)
  {
    var all := Lowers(names + [name]);
    assert all == Lowers(names) + [Lower(name)];
    if FoldDistinct(names) && Lower(name) !in ColumnSet(names) {
      DistinctAppend(Lowers(names), Lower(name));
    }
    if FoldDistinct(names + [name]) {
      forall i | 0 <= i < |names|
        ensures Lowers(names)[i] != Lower(name)
      {
        assert all[i] != all[|names|];
      }
      forall i, j | 0 <= i < j < |names|
        ensures Lowers(names)[i] != Lowers(names)[j]
      {
        assert all[i] != all[j];
      }
    }
  }

  /** An index that can be created on the given columns. */
  ghost predicate Creatable(names: seq<string>, columns: set<string>) {
    names != [] && FoldDistinct(names) && ColumnSet(names) <= columns
  }

  ghost predicate AllCreatable(declared: map<string, seq<string>>, columns: set<string>) {
    forall n :: n in declared ==> Creatable(declared[n], columns)
  }

  /** One more name in an index. */
  lemma CreatableMore(declared: map<string, seq<string>>, columns: set<string>, n: string, name: string)
    requires AllCreatable(declared, columns) && Lower(name) !in columns
    ensures AllCreatable(declared[n := (if n in declared then declared[n] else []) + [name]], columns + {Lower(name)})
  {
    var names := if n in declared then declared[n] else [];
    ColumnSetSnoc(names, name);
    ColumnSetSnoc([], name);
    assert Lowers([]) == [];
  }

  lemma {:induction false} DeclaredCreatable(fields: seq<Column>, dbschema: string, tableName: string)
    requires FoldDistinct(DbNames(fields))
    ensures AllCreatable(Declared(fields, dbschema, tableName), ColumnSet(DbNames(fields)))
    decreases |fields|
  {
    if fields != [] {
      var front, f := fields[..|fields| - 1], fields[|fields| - 1];
      NamesPrefix(fields, |fields| - 1);
      DeclaredCreatable(front, dbschema, tableName);
      if !f.notDB {
        ColumnSetSnoc(DbNames(front), f.name);
        if f.unique {
          CreatableMore(Declared(front, dbschema, tableName), ColumnSet(DbNames(front)),
                        IndexName(f, dbschema, tableName), f.name);
        }
      }
    }
  }

  // ---------- Migrating ----------

  class MigrateItem {
    var sqlStr: seq<Script>

    constructor ()
      ensures sqlStr == []
    {
      sqlStr := [];
    }
  }

  /** All statements of the scripts, in order. */
  function Steps(scripts: seq<Script>): seq<Ddl> {
    if scripts == [] then [] else Steps(scripts[..|scripts| - 1]) + scripts[|scripts| - 1].steps
  }

  /** Taking each script apart gives its statements. */
  ghost predicate ReadsBack(scripts: seq<Script>) {
    forall i :: 0 <= i < |scripts| ==> ReadScript(scripts[i].text) == Some(scripts[i].steps)
  }

  ghost predicate TextsMatch(scripts: seq<Script>) {
    forall i :: 0 <= i < |scripts| ==> scripts[i].text == StepsText(scripts[i].steps)
  }

  lemma {:induction false} StepsSnoc(scripts: seq<Script>, s: Script)
    ensures Steps(scripts + [s]) == Steps(scripts) + s.steps
  {
    assert (scripts + [s])[..|scripts|] == scripts;
  }

  /** createOneUniqueKeySql on MySQL. */
  method CreateOneUniqueKeySql(dbtable: string, name: string, columns: seq<string>) returns (text: string)
    ensures text == DdlText(CreateUnique(dbtable, name, columns))
  {
    text := "CREATE " + " UNIQUE " + " INDEX " + name + " ON " + dbtable + " ( ";
    ghost var head := text;
    var isFirst := true;
    for i := 0 to |columns|
      invariant isFirst == (i == 0)
      invariant text == head + Join(columns[..i], COMMA)
    {
      assert columns[..i + 1] == columns[..i] + [columns[i]];
      JoinSnoc(columns[..i], columns[i], COMMA);
      if isFirst {
        isFirst := false;
      } else {
        text := text + COMMA;
      }
      text := text + columns[i];
    }
    assert columns[..|columns|] == columns;
    text := text + " ) " + SEMICOLON + "\n";
  }

  /** The field loop: the statements that add the missing columns among the fields so far. */
  ghost predicate AlterState(c: Layout, dbtable: string, fields: seq<Column>, alters: seq<Script>) {
    && TextsMatch(alters) && AllOn(Steps(alters), dbtable)
    && ChangeAll(c, Steps(alters)) == Some(c.(columns := WithColumns(c.columns, fields)))
    && (ColumnSet(DbNames(fields)) <= c.columns.Keys ==> alters == [])
    && (PlainName(dbtable) && PlainNames(DbNames(fields)) ==> ReadsBack(alters))
  }

  lemma {:induction false} ColumnAdded(c: Layout, fields: seq<Column>, steps: seq<Ddl>, f: Column, dbtable: string)
    requires ChangeAll(c, steps) == Some(c.(columns := WithColumns(c.columns, fields)))
    requires !f.notDB && FoldDistinct(DbNames(fields) + [f.name]) && Lower(f.name) !in c.columns
    ensures ChangeAll(c, steps + [AddColumn(dbtable, f.name, f.definition)])
            == Some(c.(columns := WithColumns(c.columns, fields + [f])))
  {
    ColumnSetSnoc(DbNames(fields), f.name);
    WithColumnsKeys(c.columns, fields);
    WithColumnsSnoc(c.columns, fields, f);
    ChangeSnoc(c, steps, AddColumn(dbtable, f.name, f.definition));
  }

  lemma {:induction false} ReadsBackMore(dbtable: string, fields: seq<Column>, alters: seq<Script>, f: Column)
    requires !f.notDB && (PlainName(dbtable) && PlainNames(DbNames(fields)) ==> ReadsBack(alters))
    ensures var s := AddColumn(dbtable, f.name, f.definition);
            PlainName(dbtable) && PlainNames(DbNames(fields + [f])) ==> ReadsBack(alters + [Script(DdlText(s), [s])])
  {
    WithColumnsSnoc(map[], fields, f);
    if PlainName(dbtable) && PlainNames(DbNames(fields + [f])) {
      assert forall i :: 0 <= i < |DbNames(fields)| ==> DbNames(fields + [f])[i] == DbNames(fields)[i];
      assert DbNames(fields + [f])[|DbNames(fields)|] == f.name;
      ReadAlterOf(dbtable, f.name, f.definition);
    }
  }

  lemma {:induction false} ColumnMissing(c: Layout, dbtable: string, fields: seq<Column>, alters: seq<Script>,
                                         f: Column)
    requires AlterState(c, dbtable, fields, alters)
    requires !f.notDB && FoldDistinct(DbNames(fields) + [f.name]) && Lower(f.name) !in c.columns
    ensures var s := AddColumn(dbtable, f.name, f.definition);
            AlterState(c, dbtable, fields + [f], alters + [Script(DdlText(s), [s])])
  {
    var s := AddColumn(dbtable, f.name, f.definition);
    ColumnSetSnoc(DbNames(fields), f.name);
    WithColumnsSnoc(c.columns, fields, f);
    StepsSnoc(alters, Script(DdlText(s), [s]));
    OneStepText(s);
    ColumnAdded(c, fields, Steps(alters), f, dbtable);
    ReadsBackMore(dbtable, fields, alters, f);
    assert Lower(f.name) in ColumnSet(DbNames(fields + [f]));
  }

  lemma {:induction false} ColumnPresent(c: Layout, dbtable: string, fields: seq<Column>, alters: seq<Script>,
                                         f: Column)
    requires AlterState(c, dbtable, fields, alters) && (f.notDB || Lower(f.name) in c.columns)
    ensures AlterState(c, dbtable, fields + [f], alters)
  {
    if !f.notDB {
      ColumnSetSnoc(DbNames(fields), f.name);
    }
    WithColumnsKeys(c.columns, fields);
    WithColumnsSnoc(c.columns, fields, f);
    assert forall i :: 0 <= i < |DbNames(fields)| ==> DbNames(fields + [f])[i] == DbNames(fields)[i];
  }

  method CollectField(c: Layout, f: Column, dbtable: string, alters: seq<Script>, ghost fields: seq<Column>)
    returns (alters': seq<Script>)
    requires AlterState(c, dbtable, fields, alters) && !f.notDB && FoldDistinct(DbNames(fields) + [f.name])
    ensures AlterState(c, dbtable, fields + [f], alters')
  {
    alters' := alters;
    if Lower(f.name) !in c.columns {
      ColumnMissing(c, dbtable, fields, alters, f);
      var alterStmt := "ALTER TABLE " + dbtable + " ADD COLUMN " + f.name + " " + f.definition + ";";
      alters' := alters' + [Script(alterStmt, [AddColumn(dbtable, f.name, f.definition)])];
    } else {
      ColumnPresent(c, dbtable, fields, alters, f);
    }
  }

  /** The field joins the index of its name. */
  method CollectKey(f: Column, keys: map<string, seq<string>>, dbschema: string, tableName: string)
    returns (keys': map<string, seq<string>>)
    ensures var n := IndexName(f, dbschema, tableName);
            keys' == if f.unique then keys[n := (if n in keys then keys[n] else []) + [f.name]] else keys
  {
    keys' := keys;
    if f.unique {
      var idxName := IndexName(f, dbschema, tableName);
      keys' := keys'[idxName := (if idxName in keys' then keys'[idxName] else []) + [f.name]];
    }
  }

  /** The field loop after i fields. */
  ghost predicate CollectState(c: Layout, dbtable: string, fields: seq<Column>, dbschema: string, tableName: string,
                               i: nat, alters: seq<Script>, keys: map<string, seq<string>>)
    requires i <= |fields|
  {
    AlterState(c, dbtable, fields[..i], alters) && keys == Declared(fields[..i], dbschema, tableName)
  }

  lemma {:induction false} CollectStart(c: Layout, dbtable: string, fields: seq<Column>, dbschema: string,
                                        tableName: string)
    ensures CollectState(c, dbtable, fields, dbschema, tableName, 0, [], map[])
  {
    assert fields[..0] == [];
  }

  method CollectNext(c: Layout, fields: seq<Column>, dbtable: string, dbschema: string, tableName: string, i: nat,
                     alters: seq<Script>, keys: map<string, seq<string>>)
    returns (alters': seq<Script>, keys': map<string, seq<string>>)
    requires i < |fields| && FoldDistinct(DbNames(fields))
    requires CollectState(c, dbtable, fields, dbschema, tableName, i, alters, keys)
    ensures CollectState(c, dbtable, fields, dbschema, tableName, i + 1, alters', keys')
  {
    alters', keys' := alters, keys;
    NamesPrefix(fields, i + 1);
    FieldStep(fields, i, dbschema, tableName);
    var f := fields[i];
    assert fields[..i + 1] == fields[..i] + [f];
    if f.notDB {
      ColumnPresent(c, dbtable, fields[..i], alters, f);
    } else {
      keys' := CollectKey(f, keys', dbschema, tableName);
      alters' := CollectField(c, f, dbtable, alters', fields[..i]);
    }
  }

  method CollectFields(c: Layout, fields: seq<Column>, dbtable: string, dbschema: string, tableName: string)
    returns (alters: seq<Script>, uniquekeysMap: map<string, seq<string>>)
    requires FoldDistinct(DbNames(fields))
    ensures AlterState(c, dbtable, fields, alters) && uniquekeysMap == Declared(fields, dbschema, tableName)
  {
    alters, uniquekeysMap := [], map[];
    CollectStart(c, dbtable, fields, dbschema, tableName);
    for i := 0 to |fields|
      invariant CollectState(c, dbtable, fields, dbschema, tableName, i, alters, uniquekeysMap)
    {
      alters, uniquekeysMap := CollectNext(c, fields, dbtable, dbschema, tableName, i, alters, uniquekeysMap);
    }
    assert fields[..|fields|] == fields;
  }

  /** The layout with the indexes of the given names on the columns declared. */
  ghost function Indexed(c: Layout, declared: map<string, seq<string>>, names: set<string>): Layout {
    c.(indexes := c.indexes + map n | n in names && n in declared :: IndexAfter(c.indexes, n, declared[n]))
  }

  /** The index loop: what the statements so far make of the catalogue. */
  ghost predicate IndexState(c: Layout, dbtable: string, declared: map<string, seq<string>>, walked: set<string>,
                             text: string, steps: seq<Ddl>)
  {
    && text == StepsText(steps) && AllOn(steps, dbtable)
    && ChangeAll(c, steps) == Some(Indexed(c, declared, walked))
    && (AllThere(c.indexes, declared, walked) ==> steps == [])
    && (PlainName(dbtable) && PlainDeclared(declared) ==> AllPlainIndex(steps))
  }

  ghost predicate AllThere(indexes: map<string, Index>, declared: map<string, seq<string>>, walked: set<string>) {
    forall n :: n in walked && n in declared ==> HasColumns(indexes, n, declared[n])
  }

  ghost predicate PlainDeclared(declared: map<string, seq<string>>) {
    forall n :: n in declared ==> PlainName(n) && declared[n] != [] && PlainNames(declared[n])
  }

  ghost predicate AllPlainIndex(steps: seq<Ddl>) {
    forall i :: 0 <= i < |steps| ==> PlainIndex(steps[i])
  }

  /** getMysqlIndex: the columns alone, and none when there is no such index. */
  function GetMysqlIndex(indexes: map<string, Index>, name: string): set<string> {
    if name in indexes then indexes[name].columns else {}
  }

  lemma IndexSame(c: Layout, declared: map<string, seq<string>>, walked: set<string>, name: string)
    requires name in declared && HasColumns(c.indexes, name, declared[name])
    ensures Indexed(c, declared, walked + {name}) == Indexed(c, declared, walked)
  {
  }

  lemma IndexMissing(c: Layout, declared: map<string, seq<string>>, walked: set<string>, name: string, create: Ddl)
    requires name in declared && name !in walked && name !in c.indexes && Creatable(declared[name], c.columns.Keys)
    requires create.CreateUnique? && create.index == name && create.columns == declared[name]
    ensures Change(Indexed(c, declared, walked), create) == Some(Indexed(c, declared, walked + {name}))
  {
    var before, after := Indexed(c, declared, walked), Indexed(c, declared, walked + {name});
    assert before.indexes[name := Index(ColumnSet(declared[name]), true)] == after.indexes;
  }

  lemma IndexDiffers(c: Layout, declared: map<string, seq<string>>, walked: set<string>, name: string, drop: Ddl,
                     create: Ddl)
    requires name in declared && name !in walked && name in c.indexes && Creatable(declared[name], c.columns.Keys)
    requires !HasColumns(c.indexes, name, declared[name])
    requires drop.DropIndex? && drop.index == name
    requires create.CreateUnique? && create.index == name && create.columns == declared[name]
    ensures Change(Indexed(c, declared, walked), drop).Some?
    ensures Change(Change(Indexed(c, declared, walked), drop).value, create)
            == Some(Indexed(c, declared, walked + {name}))
  {
    var before, after := Indexed(c, declared, walked), Indexed(c, declared, walked + {name});
    assert (before.indexes - {name})[name := Index(ColumnSet(declared[name]), true)] == after.indexes;
  }

  lemma {:induction false} IndexStart(c: Layout, dbtable: string, declared: map<string, seq<string>>)
    ensures IndexState(c, dbtable, declared, {}, "", [])
  {
    assert Indexed(c, declared, {}) == c;
  }

  lemma {:induction false} CreatedEffect(c: Layout, declared: map<string, seq<string>>, walked: set<string>,
                                         name: string, steps: seq<Ddl>, create: Ddl)
    requires name in declared && name !in walked && name !in c.indexes && Creatable(declared[name], c.columns.Keys)
    requires create.CreateUnique? && create.index == name && create.columns == declared[name]
    requires ChangeAll(c, steps) == Some(Indexed(c, declared, walked))
    ensures ChangeAll(c, steps + [create]) == Some(Indexed(c, declared, walked + {name}))
  {
    IndexMissing(c, declared, walked, name, create);
    ChangeSnoc(c, steps, create);
  }

  lemma {:induction false} RecreatedEffect(c: Layout, declared: map<string, seq<string>>, walked: set<string>,
                                           name: string, steps: seq<Ddl>, drop: Ddl, create: Ddl)
    requires name in declared && name !in walked && name in c.indexes && Creatable(declared[name], c.columns.Keys)
    requires !HasColumns(c.indexes, name, declared[name]) && drop.DropIndex? && drop.index == name
    requires create.CreateUnique? && create.index == name && create.columns == declared[name]
    requires ChangeAll(c, steps) == Some(Indexed(c, declared, walked))
    ensures ChangeAll(c, steps + [drop] + [create]) == Some(Indexed(c, declared, walked + {name}))
  {
    IndexDiffers(c, declared, walked, name, drop, create);
    ChangeSnoc(c, steps, drop);
    ChangeSnoc(c, steps + [drop], create);
  }

  lemma {:induction false} TwoSteps(steps: seq<Ddl>, s: Ddl, t: Ddl, dbtable: string)
    ensures StepsText(steps + [s] + [t]) == StepsText(steps) + DdlText(s) + DdlText(t)
    ensures AllOn(steps, dbtable) && s.table == dbtable && t.table == dbtable ==> AllOn(steps + [s] + [t], dbtable)
  {
    TextSnoc(steps, s);
    TextSnoc(steps + [s], t);
  }

  lemma PlainMore(steps: seq<Ddl>, s: Ddl)
    requires AllPlainIndex(steps) && PlainIndex(s)
    ensures AllPlainIndex(steps + [s])
  {
  }

  /** An index is created that is missing. */
  lemma {:induction false} IndexCreated(c: Layout, dbtable: string, declared: map<string, seq<string>>,
                                        walked: set<string>, name: string, text: string, steps: seq<Ddl>)
    requires name in declared && name !in walked && name !in c.indexes && Creatable(declared[name], c.columns.Keys)
    requires IndexState(c, dbtable, declared, walked, text, steps)
    ensures var create := CreateUnique(dbtable, name, declared[name]);
            IndexState(c, dbtable, declared, walked + {name}, text + DdlText(create), steps + [create])
  {
    var create := CreateUnique(dbtable, name, declared[name]);
    CreatedEffect(c, declared, walked, name, steps, create);
    TextSnoc(steps, create);
    if PlainName(dbtable) && PlainDeclared(declared) {
      PlainMore(steps, create);
    }
    assert !AllThere(c.indexes, declared, walked + {name});
  }

  /** An index is dropped and created that is on other columns. */
  lemma {:induction false} IndexRecreated(c: Layout, dbtable: string, declared: map<string, seq<string>>,
                                          walked: set<string>, name: string, text: string, steps: seq<Ddl>)
    requires name in declared && name !in walked && name in c.indexes && Creatable(declared[name], c.columns.Keys)
    requires !HasColumns(c.indexes, name, declared[name])
    requires IndexState(c, dbtable, declared, walked, text, steps)
    ensures var drop, create := DropIndex(dbtable, name), CreateUnique(dbtable, name, declared[name]);
            IndexState(c, dbtable, declared, walked + {name}, text + DdlText(drop) + DdlText(create),
                       steps + [drop] + [create])
  {
    var drop, create := DropIndex(dbtable, name), CreateUnique(dbtable, name, declared[name]);
    RecreatedEffect(c, declared, walked, name, steps, drop, create);
    assert name in walked + {name};
    assert !AllThere(c.indexes, declared, walked + {name});
    TwoSteps(steps, drop, create, dbtable);
    if PlainName(dbtable) && PlainDeclared(declared) {
      PlainMore(steps, drop);
      PlainMore(steps + [drop], create);
    }
  }

  method MigrateIndex(indexes: map<string, Index>, dbtable: string, declared: map<string, seq<string>>,
                      name: string, ghost c: Layout, ghost walked: set<string>, text: string, steps: seq<Ddl>)
    returns (text': string, steps': seq<Ddl>)
    requires ValidLayout(c) && c.indexes == indexes && name in declared && name !in walked
             && Creatable(declared[name], c.columns.Keys)
    requires IndexState(c, dbtable, declared, walked, text, steps)
    ensures IndexState(c, dbtable, declared, walked + {name}, text', steps')
  {
    text', steps' := text, steps;
    var columns := declared[name];
    var indexColumns := GetMysqlIndex(indexes, name);
    var createText := CreateOneUniqueKeySql(dbtable, name, columns);
    if |indexColumns| == 0 {
      IndexCreated(c, dbtable, declared, walked, name, text, steps);
      text', steps' := text' + createText, steps' + [CreateUnique(dbtable, name, columns)];
      return;
    }
    var same := UniqueKeyColumnsEqual(indexColumns, columns);
    CountingDecides(indexColumns, columns);
    if same {
      IndexSame(c, declared, walked, name);
    } else {
      IndexRecreated(c, dbtable, declared, walked, name, text, steps);
      text', steps' := text' + DdlText(DropIndex(dbtable, name)), steps' + [DropIndex(dbtable, name)];
      text', steps' := text' + createText, steps' + [CreateUnique(dbtable, name, columns)];
    }
  }

  /** Walks the declared indexes in any order. `c` is the catalogue the statements will meet. */
  method MigrateIndexes(indexes: map<string, Index>, dbtable: string, declared: map<string, seq<string>>,
                        ghost c: Layout)
    returns (text: string, steps: seq<Ddl>)
    requires ValidLayout(c) && c.indexes == indexes && AllCreatable(declared, c.columns.Keys)
    ensures IndexState(c, dbtable, declared, declared.Keys, text, steps)
  {
    text, steps := "", [];
    var remaining := declared.Keys;
    ghost var walked: set<string> := {};
    IndexStart(c, dbtable, declared);
    while remaining != {}
      invariant walked + remaining == declared.Keys && walked !! remaining
      invariant IndexState(c, dbtable, declared, walked, text, steps)
      decreases remaining
    {
      var uniqueKeyName :| uniqueKeyName in remaining;
      text, steps := MigrateIndex(indexes, dbtable, declared, uniqueKeyName, c, walked, text, steps);
      remaining, walked := remaining - {uniqueKeyName}, walked + {uniqueKeyName};
    }
  }

  /** The scripts can be run one after the other and make of the table what the migration aims at; a
      table that is so already gets none. */
  ghost predicate Reaches(scripts: seq<Script>, c: Layout, dbtable: string, fields: seq<Column>, dbschema: string,
                          tableName: string)
  {
    && TextsMatch(scripts) && AllOn(Steps(scripts), dbtable)
    && ChangeAll(c, Steps(scripts)) == Some(Target(c, fields, dbschema, tableName))
    && (c == Target(c, fields, dbschema, tableName) ==> scripts == [])
    && (PlainMessage(dbtable, fields, dbschema, tableName) ==> ReadsBack(scripts))
  }

  /** The names of the table, its columns and its indexes need no quotes in SQL. */
  ghost predicate PlainMessage(dbtable: string, fields: seq<Column>, dbschema: string, tableName: string) {
    && PlainName(dbtable) && PlainNames(DbNames(fields))
    && forall i :: 0 <= i < |fields| && !fields[i].notDB && fields[i].unique ==>
         PlainName(IndexName(fields[i], dbschema, tableName))
  }

  lemma {:induction false} PlainMessageDeclares(dbtable: string, fields: seq<Column>, dbschema: string,
                                                tableName: string)
    requires PlainMessage(dbtable, fields, dbschema, tableName)
    ensures PlainDeclared(Declared(fields, dbschema, tableName))
    decreases |fields|
  {
    if fields != [] {
      var front, f := fields[..|fields| - 1], fields[|fields| - 1];
      assert forall i :: 0 <= i < |DbNames(front)| ==> DbNames(fields)[i] == DbNames(front)[i];
      PlainMessageDeclares(dbtable, front, dbschema, tableName);
      if !f.notDB {
        assert DbNames(fields)[|DbNames(front)|] == f.name;
      }
    }
  }

  lemma {:induction false} LookalikeIsTarget(f: Column, dbschema: string, tableName: string)
    requires f.unique && !f.notDB
    ensures Target(Lookalike(f, dbschema, tableName), [f], dbschema, tableName) == Lookalike(f, dbschema, tableName)
  {
    var c, n := Lookalike(f, dbschema, tableName), IndexName(f, dbschema, tableName);
    OneField(f, dbschema, tableName);
    assert Lowers([f.name]) == [Lower(f.name)];
    assert ColumnSet([f.name]) == {Lower(f.name)};
    assert IndexAfter(c.indexes, n, [f.name]) == c.indexes[n];
    WithColumnsFixed(c.columns, [f]);
    assert c.indexes + map[n := c.indexes[n]] == c.indexes;
  }

  /** Such a table is left as it is: two rows may go on to have one value in the unique field. */
  lemma {:induction false} LookalikeStays(f: Column, dbschema: string, tableName: string)
    requires f.unique && !f.notDB
    ensures ValidLayout(Lookalike(f, dbschema, tableName))
    ensures forall scripts, dbtable ::
              Reaches(scripts, Lookalike(f, dbschema, tableName), dbtable, [f], dbschema, tableName) ==> scripts == []
    ensures var n := IndexName(f, dbschema, tableName);
            n in Declared([f], dbschema, tableName) && !Lookalike(f, dbschema, tableName).indexes[n].unique
  {
    LookalikeIsTarget(f, dbschema, tableName);
    OneField(f, dbschema, tableName);
  }

  /** dbMigrateTableMysql on a table that exists, of which the layout is queried. The scripts can be run
      one after the other on the database, and change that table alone. */
  method DbMigrateTableMysql(item: MigrateItem, ghost db: Catalogue, c: Layout, fields: seq<Column>, dbtable: string,
                             dbschema: string, tableName: string)
    returns (ghost scripts: seq<Script>)
    requires dbtable in db && db[dbtable] == c && ValidLayout(c) && FoldDistinct(DbNames(fields))
    modifies item
    ensures item.sqlStr == old(item.sqlStr) + scripts
    ensures Reaches(scripts, c, dbtable, fields, dbschema, tableName)
    ensures var after := ApplyAll(db, Steps(scripts));
            && after.Some? && dbtable in after.value && after.value == db[dbtable := after.value[dbtable]]
            && ColumnsMigrated(c.columns, after.value[dbtable].columns, fields)
            && IndexesMigrated(c.indexes, after.value[dbtable].indexes, fields, dbschema, tableName)
    ensures var declared := Declared(fields, dbschema, tableName);
            DeclaredUnique(ApplyAll(db, Steps(scripts)).value[dbtable], declared) <==> NoLookalike(c, declared)
  {
    var alters, migrateUniqueKeySql, steps := MigrationScripts(c, fields, dbtable, dbschema, tableName);
    scripts := alters;
    if |alters| > 0 {
      item.sqlStr := item.sqlStr + alters;
    }
    if |migrateUniqueKeySql| > 0 {
      item.sqlStr := item.sqlStr + [Script(migrateUniqueKeySql, steps)];
      scripts := scripts + [Script(migrateUniqueKeySql, steps)];
    }
    UniqueIff(c, fields, dbschema, tableName);
    TargetMeans(c, fields, dbschema, tableName);
    ApplyOn(db, dbtable, Steps(scripts));
  }

  method MigrationScripts(c: Layout, fields: seq<Column>, dbtable: string, dbschema: string, tableName: string)
    returns (alters: seq<Script>, migrateUniqueKeySql: string, steps: seq<Ddl>)
    requires ValidLayout(c) && FoldDistinct(DbNames(fields))
    ensures Reaches(if migrateUniqueKeySql == "" then alters else alters + [Script(migrateUniqueKeySql, steps)],
                    c, dbtable, fields, dbschema, tableName)
  {
    var uniquekeysMap;
    alters, uniquekeysMap := CollectFields(c, fields, dbtable, dbschema, tableName);
    ghost var altered := c.(columns := WithColumns(c.columns, fields));
    DeclaredCreatable(fields, dbschema, tableName);
    WithColumnsKeys(c.columns, fields);
    migrateUniqueKeySql, steps := MigrateIndexes(c.indexes, dbtable, uniquekeysMap, altered);
    ScriptsReachTarget(c, dbtable, fields, dbschema, tableName, alters, migrateUniqueKeySql, steps);
  }

  lemma {:induction false} SomeText(steps: seq<Ddl>)
    ensures StepsText(steps) == "" <==> steps == []
  {
    if steps != [] {
      assert |DdlText(steps[|steps| - 1])| > 0;
    }
  }

  lemma {:induction false} IndexedIsTarget(c: Layout, fields: seq<Column>, dbschema: string, tableName: string)
    ensures var declared := Declared(fields, dbschema, tableName);
            Indexed(c.(columns := WithColumns(c.columns, fields)), declared, declared.Keys)
              == Target(c, fields, dbschema, tableName)
  {
    var declared := Declared(fields, dbschema, tableName);
    assert (map n | n in declared.Keys && n in declared :: IndexAfter(c.indexes, n, declared[n]))
           == map n | n in declared :: IndexAfter(c.indexes, n, declared[n]);
  }

  /** A catalogue that is as asked has every column and every declared index. */
  lemma {:induction false} Conforming(c: Layout, fields: seq<Column>, dbschema: string, tableName: string)
    requires c == Target(c, fields, dbschema, tableName)
    ensures ColumnSet(DbNames(fields)) <= c.columns.Keys
    ensures var declared := Declared(fields, dbschema, tableName);
            forall n :: n in declared ==> HasColumns(c.indexes, n, declared[n])
  {
    var target, declared := Target(c, fields, dbschema, tableName), Declared(fields, dbschema, tableName);
    forall n | n in declared
      ensures HasColumns(c.indexes, n, declared[n])
    {
      assert target.indexes[n] == IndexAfter(c.indexes, n, declared[n]);
    }
    WithColumnsKeys(c.columns, fields);
  }

  lemma {:induction false} ScriptsReadBack(dbtable: string, fields: seq<Column>, dbschema: string, tableName: string,
                                           alters: seq<Script>, text: string, steps: seq<Ddl>)
    requires PlainMessage(dbtable, fields, dbschema, tableName) && ReadsBack(alters) && text == StepsText(steps)
    requires PlainName(dbtable) && PlainDeclared(Declared(fields, dbschema, tableName)) ==> AllPlainIndex(steps)
    ensures ReadsBack(alters + [Script(text, steps)])
  {
    PlainMessageDeclares(dbtable, fields, dbschema, tableName);
    ReadScriptOf(steps);
  }

  lemma {:induction false} ScriptsEffect(c: Layout, fields: seq<Column>, dbschema: string, tableName: string,
                                         alters: seq<Script>, text: string, steps: seq<Ddl>)
    requires ChangeAll(c, Steps(alters)) == Some(c.(columns := WithColumns(c.columns, fields)))
    requires var declared := Declared(fields, dbschema, tableName);
             var altered := c.(columns := WithColumns(c.columns, fields));
             ChangeAll(altered, steps) == Some(Indexed(altered, declared, declared.Keys))
    ensures ChangeAll(c, Steps(alters + [Script(text, steps)])) == Some(Target(c, fields, dbschema, tableName))
  {
    StepsSnoc(alters, Script(text, steps));
    ChangeInTurn(c, Steps(alters), steps);
    IndexedIsTarget(c, fields, dbschema, tableName);
  }

  lemma {:induction false} NothingToDo(c: Layout, dbtable: string, fields: seq<Column>, dbschema: string,
                                       tableName: string, alters: seq<Script>, text: string, steps: seq<Ddl>)
    requires c == Target(c, fields, dbschema, tableName) && AlterState(c, dbtable, fields, alters)
    requires var declared := Declared(fields, dbschema, tableName);
             IndexState(c.(columns := WithColumns(c.columns, fields)), dbtable, declared, declared.Keys, text, steps)
    ensures alters == [] && steps == []
  {
    Conforming(c, fields, dbschema, tableName);
    var declared := Declared(fields, dbschema, tableName);
    assert AllThere(c.indexes, declared, declared.Keys);
  }

  lemma {:induction false} AltersReach(c: Layout, dbtable: string, fields: seq<Column>, dbschema: string,
                                       tableName: string, alters: seq<Script>)
    requires AlterState(c, dbtable, fields, alters)
    requires ChangeAll(c, Steps(alters)) == Some(Target(c, fields, dbschema, tableName))
    requires c == Target(c, fields, dbschema, tableName) ==> alters == []
    ensures Reaches(alters, c, dbtable, fields, dbschema, tableName)
  {
  }

  lemma {:induction false} BothReach(c: Layout, dbtable: string, fields: seq<Column>, dbschema: string,
                                     tableName: string, alters: seq<Script>, text: string, steps: seq<Ddl>)
    requires AlterState(c, dbtable, fields, alters) && text == StepsText(steps) && AllOn(steps, dbtable)
    requires ChangeAll(c, Steps(alters + [Script(text, steps)])) == Some(Target(c, fields, dbschema, tableName))
    requires c != Target(c, fields, dbschema, tableName)
    requires PlainMessage(dbtable, fields, dbschema, tableName) ==> ReadsBack(alters + [Script(text, steps)])
    ensures Reaches(alters + [Script(text, steps)], c, dbtable, fields, dbschema, tableName)
  {
    StepsSnoc(alters, Script(text, steps));
  }

  lemma {:induction false} ScriptsReachTarget(c: Layout, dbtable: string, fields: seq<Column>, dbschema: string,
                                              tableName: string, alters: seq<Script>, text: string, steps: seq<Ddl>)
    requires AlterState(c, dbtable, fields, alters)
    requires var declared := Declared(fields, dbschema, tableName);
             IndexState(c.(columns := WithColumns(c.columns, fields)), dbtable, declared, declared.Keys, text, steps)
    ensures Reaches(if text == "" then alters else alters + [Script(text, steps)], c, dbtable, fields, dbschema,
                    tableName)
  {
    SomeText(steps);
    ScriptsEffect(c, fields, dbschema, tableName, alters, text, steps);
    if c == Target(c, fields, dbschema, tableName) {
      NothingToDo(c, dbtable, fields, dbschema, tableName, alters, text, steps);
    }
    if steps == [] {
      StepsSnoc(alters, Script(text, steps));
      assert Steps(alters) + steps == Steps(alters);
      AltersReach(c, dbtable, fields, dbschema, tableName, alters);
    } else {
      if PlainMessage(dbtable, fields, dbschema, tableName) {
        ScriptsReadBack(dbtable, fields, dbschema, tableName, alters, text, steps);
      }
      BothReach(c, dbtable, fields, dbschema, tableName, alters, text, steps);
    }
  }

  lemma {:induction false} TargetIsValid(c: Layout, fields: seq<Column>, dbschema: string, tableName: string)
    requires ValidLayout(c) && FoldDistinct(DbNames(fields))
    ensures ValidLayout(Target(c, fields, dbschema, tableName))
  {
    DeclaredCreatable(fields, dbschema, tableName);
    var declared := Declared(fields, dbschema, tableName);
    forall n | n in declared
      ensures ColumnSet(declared[n]) != {}
      ensures IndexAfter(c.indexes, n, declared[n]).columns == ColumnSet(declared[n])
    {
      assert Creatable(declared[n], ColumnSet(DbNames(fields)));
      ElemsEmpty(Lowers(declared[n]));
    }
  }

  /** Migrating the table that a migration left adds no statement. */
  method MigrateAgain(ghost db: Catalogue, after: Layout, fields: seq<Column>, dbtable: string, dbschema: string,
                      tableName: string)
    returns (second: MigrateItem)
    requires dbtable in db && ValidLayout(db[dbtable]) && FoldDistinct(DbNames(fields))
    requires after == Target(db[dbtable], fields, dbschema, tableName)
    ensures fresh(second) && second.sqlStr == []
  {
    second := new MigrateItem();
    TargetIsValid(db[dbtable], fields, dbschema, tableName);
    TargetIsFixed(db[dbtable], fields, dbschema, tableName);
    var scripts := DbMigrateTableMysql(second, db[dbtable := after], after, fields, dbtable, dbschema, tableName);
  }
}
