/** The reference planner of ddl/create.go: a depth-first search that turns a table and
    everything it references into a graph of statement items, sharing one memo map in
    which a null entry means "in progress". */
module Planner {
  import opened Prelude
  import opened Sqldb

  // ---------- Table definitions ----------

  /** The options of one message field that the planner reads. */
  datatype Field = Field(name: string, notDB: bool, reference: string)

  datatype TableDef = TableDef(notDB: bool, fields: seq<Field>)

  type Registry = map<string, TableDef>

  datatype PlanError =
    | NotATable(table: string)
    | BadReference(table: string)
    | NotRegistered(table: string)
    | CircularReference(table: string)

  /** Position of the first opening parenthesis, or the length when there is none. */
  function ParenIndex(s: string): (i: nat)
    ensures i <= |s|
    ensures '(' !in s[..i]
    ensures i < |s| ==> s[i] == '('
  {
    if s == "" || s[0] == '(' then 0 else
      var k := ParenIndex(s[1..]);
      assert s[..1 + k] == [s[0]] + s[1..][..k];
      1 + k
  }

  /** strings.TrimPrefix with a single space. */
  function TrimOneSpace(s: string): string {
    if " " <= s then s[1..] else s
  }

  /** GetRefTableName: drops at most one leading space and cuts at the first parenthesis. */
  function GetRefTableName(reference: string): (r: Option<string>)
    ensures r.Some? ==> '(' !in r.value
    ensures r.Some? ==> if " " <= reference then " " + r.value + "(" <= reference else r.value + "(" <= reference
    ensures r.None? <==> '(' !in reference
  {
    var s := TrimOneSpace(reference);
    var i := ParenIndex(s);
    assert reference == if " " <= reference then " " + s else s;
    if i == |s| then
      assert s[..i] == s;
      None
    else
      assert s == s[..i] + "(" + s[i + 1..];
      Some(s[..i])
  }

  predicate HasReference(f: Field) {
    !f.notDB && f.reference != ""
  }

  ghost predicate WellFormed(fields: seq<Field>) {
    forall f :: f in fields && HasReference(f) ==> GetRefTableName(f.reference).Some?
  }

  ghost function RefNames(fields: seq<Field>): set<string> {
    set f | f in fields && HasReference(f) && GetRefTableName(f.reference).Some? :: GetRefTableName(f.reference).value
  }

  /** An item for `self` that depends on `deps` depends on exactly what the fields reference, itself aside. */
  ghost predicate Linked(deps: set<string>, self: string, fields: seq<Field>, checkRef: bool) {
    if checkRef then WellFormed(fields) && deps == RefNames(fields) - {self} else deps == {}
  }

  lemma LinkedSnoc(deps: set<string>, deps': set<string>, self: string, fields: seq<Field>, f: Field, checkRef: bool)
    requires Linked(deps, self, fields, checkRef)
    requires if HasReference(f) && checkRef then
               GetRefTableName(f.reference).Some? && deps' == deps + ({GetRefTableName(f.reference).value} - {self})
             else deps' == deps
    ensures Linked(deps', self, fields + [f], checkRef)
  {
    RefNamesSnoc(fields, f);
  }

  lemma RefNamesSnoc(fields: seq<Field>, f: Field)
    ensures RefNames(fields + [f]) == RefNames(fields) + RefNames([f])
    ensures WellFormed(fields + [f]) <==> WellFormed(fields) && WellFormed([f])
    ensures !HasReference(f) ==> RefNames([f]) == {} && WellFormed([f])
    ensures HasReference(f) && GetRefTableName(f.reference).Some? ==>
              RefNames([f]) == {GetRefTableName(f.reference).value} && WellFormed([f])
  {
    forall x
      ensures x in fields + [f] <==> x in fields || x in [f]
      ensures x in [f] <==> x == f
    {
    }
  }

  // ---------- The reference graph ----------

  /** What the planner explores from a table: without reference checking, no reference at all. */
  function Explored(def: TableDef, checkRef: bool): TableDef {
    if checkRef then def else def.(fields := [])
  }

  ghost predicate Refers(g: Registry, a: string, b: string) {
    a in g && b in RefNames(g[a].fields) && a != b
  }

  /** A table the planner can build: known, stored, with well-formed references to registered tables. */
  ghost predicate NodeOk(g: Registry, registered: set<string>, t: string) {
    && t in g
    && !g[t].notDB
    && WellFormed(g[t].fields)
    && RefNames(g[t].fields) - {t} <= registered
  }

  /** A walk along references that never enters a table finished before. */
  ghost predicate NewPath(g: Registry, done: set<string>, p: seq<string>) {
    && |p| > 0
    && (forall i :: 0 <= i < |p| ==> p[i] !in done)
    && (forall i :: 0 <= i < |p| - 1 ==> Refers(g, p[i], p[i + 1]))
  }

  ghost predicate PathTo(g: Registry, done: set<string>, p: seq<string>, from: string, to: string) {
    NewPath(g, done, p) && p[0] == from && p[|p| - 1] == to
  }

  ghost predicate Reached(g: Registry, done: set<string>, from: string, to: string) {
    exists p :: PathTo(g, done, p, from, to)
  }

  /** Why the last table of a walk must be refused: it is not stored, has a malformed reference,
      refers to an unregistered table, or is in progress or already on the walk. */
  ghost predicate BadEnd(g: Registry, registered: set<string>, active: set<string>, p: seq<string>, e: PlanError)
    requires |p| > 0
  {
    var t := p[|p| - 1];
    match e
    case NotATable(n) => n == t && t in g && g[t].notDB
    case BadReference(n) => n == t && t in g && !WellFormed(g[t].fields)
    case NotRegistered(n) => t in g && n in RefNames(g[t].fields) - {t} && n !in registered
    case CircularReference(n) => n == t && t in active + Elems(p[..|p| - 1])
  }

  ghost predicate RefusedOn(g: Registry, registered: set<string>, done: set<string>, active: set<string>,
                            t: string, e: PlanError, p: seq<string>)
  {
    NewPath(g, done, p) && p[0] == t && BadEnd(g, registered, active, p, e)
  }

  ghost predicate Refused(g: Registry, registered: set<string>, done: set<string>, active: set<string>,
                          t: string, e: PlanError)
  {
    exists p :: RefusedOn(g, registered, done, active, t, e, p)
  }

  lemma PrependPath(g: Registry, done0: set<string>, done1: set<string>, t: string, p: seq<string>)
    requires t !in done0 && done0 <= done1 && NewPath(g, done1, p) && Refers(g, t, p[0])
    ensures NewPath(g, done0, [t] + p)
  {
    var q := [t] + p;
    forall i | 0 <= i < |q| - 1
      ensures Refers(g, q[i], q[i + 1])
    {
      if i > 0 {
        assert q[i] == p[i - 1] && q[i + 1] == p[i];
      }
    }
  }

  lemma PrependReached(g: Registry, done0: set<string>, done1: set<string>, t: string, dep: string, x: string)
    requires t !in done0 && done0 <= done1 && Refers(g, t, dep)
    requires Reached(g, done1, dep, x)
    ensures Reached(g, done0, t, x)
  {
    var p :| PathTo(g, done1, p, dep, x);
    PrependPath(g, done0, done1, t, p);
    assert PathTo(g, done0, [t] + p, t, x);
  }

  lemma PrependBadEnd(g: Registry, registered: set<string>, active: set<string>, t: string, p: seq<string>,
                      e: PlanError)
    requires |p| > 0 && BadEnd(g, registered, active + {t}, p, e)
    ensures BadEnd(g, registered, active, [t] + p, e)
  {
    var q := [t] + p;
    assert q[|q| - 1] == p[|p| - 1] && q[..|q| - 1] == [t] + p[..|p| - 1];
    assert q[0] == t && t in Elems(q[..|q| - 1]);
  }

  lemma PrependRefused(g: Registry, registered: set<string>, done0: set<string>, done1: set<string>,
                       active: set<string>, t: string, dep: string, e: PlanError)
    requires t !in done0 && done0 <= done1 && Refers(g, t, dep)
    requires Refused(g, registered, done1, active + {t}, dep, e)
    ensures Refused(g, registered, done0, active, t, e)
  {
    var p :| RefusedOn(g, registered, done1, active + {t}, dep, e, p);
    PrependPath(g, done0, done1, t, p);
    PrependBadEnd(g, registered, active, t, p, e);
    assert RefusedOn(g, registered, done0, active, t, e, [t] + p);
  }

  // ---------- Items and the memo map ----------

  /** One CREATE TABLE statement: the table's name in the database, then each stored
      column with the text of its REFERENCES clause (empty when it has none). */
  datatype CreateTable = CreateTable(dbTable: string, columns: seq<(string, string)>)

  function Columns(fields: seq<Field>): seq<(string, string)> {
    if fields == [] then []
    else
      var f := fields[|fields| - 1];
      Columns(fields[..|fields| - 1]) + if f.notDB then [] else [(f.name, f.reference)]
  }

  /** Where the stored fields stand, in order. */
  ghost predicate StoredAt(fields: seq<Field>, at: seq<nat>) {
    && (forall k, l :: 0 <= k < l < |at| ==> at[k] < at[l])
    && (forall k :: 0 <= k < |at| ==> at[k] < |fields| && !fields[at[k]].notDB)
    && (forall i :: 0 <= i < |fields| && !fields[i].notDB ==> i in at)
  }

  /** Each column has the name and the reference of the field it stands for. */
  ghost predicate ColumnsFrom(fields: seq<Field>, at: seq<nat>, columns: seq<(string, string)>) {
    && StoredAt(fields, at) && |columns| == |at|
    && forall k :: 0 <= k < |at| ==> columns[k] == (fields[at[k]].name, fields[at[k]].reference)
  }

  /** One column for each stored field and no other, in field order, each with the name and the
      reference of its own field. */
  ghost predicate ColumnsAre(fields: seq<Field>, columns: seq<(string, string)>) {
    exists at :: ColumnsFrom(fields, at, columns)
  }

  lemma StoredSkip(fields: seq<Field>, f: Field, at: seq<nat>)
    requires StoredAt(fields, at) && f.notDB
    ensures StoredAt(fields + [f], at)
  {
  }

  lemma StoredSnoc(fields: seq<Field>, f: Field, at: seq<nat>)
    requires StoredAt(fields, at) && !f.notDB
    ensures StoredAt(fields + [f], at + [|fields|])
  {
    var all := at + [|fields|];
    forall i | 0 <= i < |fields + [f]| && !(fields + [f])[i].notDB
      ensures i in all
    {
      if i < |fields| {
        assert fields[i] == (fields + [f])[i];
        var k :| 0 <= k < |at| && at[k] == i;
        assert all[k] == i;
      } else {
        assert all[|at|] == i;
      }
    }
  }

  lemma {:induction false} ColumnsFound(fields: seq<Field>) returns (at: seq<nat>)
    ensures ColumnsFrom(fields, at, Columns(fields))
  {
    at := [];
    if fields != [] {
      var front, f := fields[..|fields| - 1], fields[|fields| - 1];
      at := ColumnsFound(front);
      assert fields == front + [f];
      if f.notDB {
        StoredSkip(front, f, at);
      } else {
        StoredSnoc(front, f, at);
        at := at + [|front|];
      }
    }
  }

  lemma {:induction false} ColumnsAreStored(fields: seq<Field>)
    ensures ColumnsAre(fields, Columns(fields))
  {
    var at := ColumnsFound(fields);
  }

  class InitItem {
    var dbSchema: string
    var tableName: string
    var sqlStr: seq<CreateTable>
    var depTableNames: seq<string>
    var depTableSqlItemMap: map<string, InitItem>

    constructor (name: string)
      ensures dbSchema == "" && tableName == name && sqlStr == []
      ensures depTableNames == [] && depTableSqlItemMap == map[]
    {
      dbSchema := "";
      tableName := name;
      sqlStr := [];
      depTableNames := [];
      depTableSqlItemMap := map[];
    }

    /** The dependency names are the keys of the dependency map, each listed once. */
    ghost predicate NamesMatch()
      reads this
    {
      Distinct(depTableNames) && Elems(depTableNames) == depTableSqlItemMap.Keys
    }

    method AddDependency(name: string, dep: InitItem)
      requires NamesMatch() && name !in depTableSqlItemMap
      modifies this`depTableNames, this`depTableSqlItemMap
      ensures NamesMatch()
      ensures depTableSqlItemMap == old(depTableSqlItemMap)[name := dep]
      ensures depTableNames == old(depTableNames) + [name]
    {
      DistinctAppend(depTableNames, name);
      depTableSqlItemMap := depTableSqlItemMap[name := dep];
      depTableNames := depTableNames + [name];
    }
  }

  class InitMap {
    var entries: map<string, InitItem?>

    ghost function Items(): set<InitItem>
      reads this
    {
      set k | k in entries && entries[k] != null :: entries[k]
    }

    ghost function Done(): set<string>
      reads this
    {
      set k | k in entries && entries[k] != null
    }

    ghost function Active(): set<string>
      reads this
    {
      set k | k in entries && entries[k] == null
    }

    /** The item for `name`: its own name, dependency names without repeats that are exactly
        the keys of the dependency map, and every dependency stored and listed in `before`. */
    ghost predicate ItemOk(name: string, before: seq<string>)
      reads this, Items()
    {
      && name in entries && entries[name] != null
      && var it := entries[name];
      && it.tableName == name
      && it.NamesMatch()
      && (forall d :: d in it.depTableSqlItemMap ==>
            d in before && d in entries && entries[d] == it.depTableSqlItemMap[d])
    }

    /** `order` lists the finished entries so that every dependency comes first. */
    ghost predicate Finished(order: seq<string>)
      reads this, Items()
    {
      && Distinct(order)
      && Elems(order) == Done()
      && forall i :: 0 <= i < |order| ==> ItemOk(order[i], order[..i])
    }

    /** Marks a table as in progress. */
    method Mark(name: string, ghost order: seq<string>)
      requires Finished(order) && name !in entries
      modifies this
      ensures entries == old(entries)[name := null]
      ensures Finished(order)
      ensures Done() == old(Done()) && Active() == old(Active()) + {name}
    {
      entries := entries[name := null];
    }

    /** Replaces the mark of a table by its item. */
    method Commit(name: string, item: InitItem, ghost order: seq<string>)
      requires Finished(order) && name in entries && entries[name] == null
      requires item.tableName == name && item.NamesMatch()
      requires forall d :: d in item.depTableSqlItemMap ==>
                 d in entries && entries[d] == item.depTableSqlItemMap[d]
      modifies this
      ensures entries == old(entries)[name := item]
      ensures Finished(order + [name])
      ensures Active() == old(Active()) - {name}
    {
      entries := entries[name := item];
      DistinctAppend(order, name);
      ghost var order' := order + [name];
      forall i | 0 <= i < |order'|
        ensures ItemOk(order'[i], order'[..i])
      {
        if i < |order| {
          assert order'[..i] == order[..i];
          assert old(ItemOk(order[i], order[..i]));
          var it := entries[order[i]];
          forall d | d in it.depTableSqlItemMap
            ensures d in entries && entries[d] == it.depTableSqlItemMap[d]
          {
            assert old(entries)[d] == it.depTableSqlItemMap[d];
          }
        } else {
          assert order'[..i] == order;
          forall d | d in item.depTableSqlItemMap
            ensures d in order && d in entries && entries[d] == item.depTableSqlItemMap[d]
          {
            assert d in Elems(order);
          }
        }
      }
    }

    /** Removes the mark of a table whose planning failed. */
    method Withdraw(name: string, ghost order: seq<string>)
      requires Finished(order) && name in entries && entries[name] == null
      modifies this
      ensures entries == old(entries) - {name}
      ensures Finished(order)
      ensures Active() == old(Active()) - {name}
    {
      entries := entries - {name};
      assert Done() == old(Done());
      forall x | x in old(Items())
        ensures x in Items()
      {
        var k :| k in old(entries) && old(entries)[k] == x;
        assert k in entries;
      }
    }
  }

  // ---------- The search ----------

  /** Outside the tables already entered, the explored graph is the registry. */
  ghost predicate Agrees(g: Registry, registry: Registry, entered: set<string>) {
    forall k :: k in registry && k !in entered ==> k in g && g[k] == registry[k]
  }

  /** What a freshly planned item says about its table. */
  ghost predicate Built(g: Registry, registered: set<string>, it: InitItem, name: string)
    reads it
  {
    it.dbSchema == "" && BuiltDeps(g, registered, it.depTableSqlItemMap.Keys, name)
  }

  ghost predicate BuiltDeps(g: Registry, registered: set<string>, deps: set<string>, name: string) {
    NodeOk(g, registered, name) && deps == RefNames(g[name].fields) - {name}
  }

  lemma LinkedIsBuilt(g: Registry, registered: set<string>, deps: set<string>, name: string, def: TableDef,
                      checkRef: bool)
    requires name in g && g[name] == Explored(def, checkRef) && !def.notDB
    requires Linked(deps, name, def.fields, checkRef) && deps <= registered
    ensures BuiltDeps(g, registered, deps, name)
  {
  }

  ghost predicate Extends(e0: map<string, InitItem?>, e1: map<string, InitItem?>) {
    forall k :: k in e0 ==> k in e1 && e1[k] == e0[k]
  }

  /** The statement the planner makes: for the requested table `root`, `stmt`; for every other
      table the bare name, because no item ever carries a schema to its dependencies. */
  ghost predicate Creates(registry: Registry, root: string, stmt: CreateTable, k: string, sqlStr: seq<CreateTable>) {
    if k == root then sqlStr == [stmt]
    else k in registry && sqlStr == [CreateTable(k, Columns(registry[k].fields))]
  }

  /** The one statement of an item creates a table of this name with the columns of these fields. */
  ghost predicate Makes(it: InitItem, dbTable: string, fields: seq<Field>)
    reads it
  {
    |it.sqlStr| == 1 && it.sqlStr[0].dbTable == dbTable && ColumnsAre(fields, it.sqlStr[0].columns)
  }

  ghost predicate Planned(registry: Registry, g: Registry, done: set<string>, root: string, stmt: CreateTable,
                          k: string, it: InitItem)
    reads it
  {
    && Built(g, registry.Keys, it, k)
    && Reached(g, done, root, k)
    && Creates(registry, root, stmt, k, it.sqlStr)
  }

  /** Every entry added between the two maps was planned on behalf of `root`. */
  ghost predicate PlannedAll(registry: Registry, g: Registry, done: set<string>, root: string, stmt: CreateTable,
                             e0: map<string, InitItem?>, e1: map<string, InitItem?>)
    reads set k | k in e1 && e1[k] != null :: e1[k]
  {
    forall k :: k in e1 && k !in e0 ==> e1[k] != null && Planned(registry, g, done, root, stmt, k, e1[k])
  }

  /** The state of the search while the references of `item` are being added: `e0` and `done`
      are the memo map and its finished tables when the item was started. */
  ghost predicate InBuild(registry: Registry, g: Registry, memo: InitMap, order: seq<string>, item: InitItem,
                          stmt: CreateTable, e0: map<string, InitItem?>, done: set<string>, active: set<string>)
    reads memo, memo.Items(), item
  {
    && memo.Finished(order)
    && Extends(e0, memo.entries)
    && PlannedAll(registry, g, done, item.tableName, stmt, e0, memo.entries)
    && Agrees(g, registry, memo.entries.Keys)
    && item.tableName !in done && done <= memo.Done()
    && item.tableName in memo.entries && memo.Active() == active + {item.tableName} && item.tableName !in active
    && item !in memo.Items() && item.dbSchema == "" && item.sqlStr == []
    && item.NamesMatch()
    && item.depTableSqlItemMap.Keys <= registry.Keys
    && (forall d :: d in item.depTableSqlItemMap ==> d in memo.entries && memo.entries[d] == item.depTableSqlItemMap[d])
  }

  function Requested(dialect: Dialect, tableName: string, def: TableDef, dbschema: string): CreateTable {
    CreateTable(BuildDbTableName(tableName, dbschema, dialect), Columns(def.fields))
  }

  method DbCreateSQL(registry: Registry, dialect: Dialect, tableName: string, def: TableDef, dbschema: string,
                     checkRef: bool, memo: InitMap, ghost g: Registry, ghost order: seq<string>)
    returns (item: InitItem?, err: Option<PlanError>, ghost order': seq<string>)
    requires memo.Finished(order)
    requires Agrees(g, registry, memo.entries.Keys + {tableName})
    requires tableName !in memo.entries ==> tableName in g && g[tableName] == Explored(def, checkRef)
    modifies memo
    ensures memo.Finished(order') && order <= order'
    ensures memo.Active() == old(memo.Active())
    ensures Extends(old(memo.entries), memo.entries)
    ensures PlannedAll(registry, g, old(memo.Done()), tableName, Requested(dialect, tableName, def, dbschema),
                       old(memo.entries), memo.entries)
    ensures err.None? ==> item != null && tableName in memo.entries && memo.entries[tableName] == item
    ensures err.Some? ==> item == null && tableName !in memo.Done()
    ensures err.Some? ==> Refused(g, registry.Keys, old(memo.Done()), old(memo.Active()), tableName, err.value)
    decreases ({tableName} + registry.Keys) - memo.entries.Keys, 0
  {
    if tableName in memo.entries {
      item := memo.entries[tableName];
      order' := order;
      if item == null {
        err := Some(CircularReference(tableName));
        assert RefusedOn(g, registry.Keys, memo.Done(), memo.Active(), tableName, err.value, [tableName]);
      } else {
        err := None;
      }
      return;
    }
    ghost var done, active := memo.Done(), memo.Active();
    memo.Mark(tableName, order);
    assert memo.Done() == done && memo.Active() - {tableName} == active;
    item, err, order' := BuildItem(registry, dialect, tableName, def, dbschema, checkRef, memo, g, order);
    if err.Some? {
      memo.Withdraw(tableName, order');
      item := null;
    } else {
      memo.Commit(tableName, item, order');
      order' := order' + [tableName];
      assert PathTo(g, done, [tableName], tableName, tableName);
    }
  }

  method BuildItem(registry: Registry, dialect: Dialect, tableName: string, def: TableDef, dbschema: string,
                   checkRef: bool, memo: InitMap, ghost g: Registry, ghost order: seq<string>)
    returns (item: InitItem?, err: Option<PlanError>, ghost order': seq<string>)
    requires memo.Finished(order)
    requires tableName in memo.entries && memo.entries[tableName] == null
    requires Agrees(g, registry, memo.entries.Keys)
    requires tableName in g && g[tableName] == Explored(def, checkRef)
    modifies memo
    ensures memo.Finished(order') && order <= order'
    ensures memo.Active() == old(memo.Active())
    ensures Extends(old(memo.entries), memo.entries)
    ensures PlannedAll(registry, g, old(memo.Done()), tableName, Requested(dialect, tableName, def, dbschema),
                       old(memo.entries), memo.entries)
    ensures err.None? ==>
              && item != null && item !in memo.Items() && item.tableName == tableName
              && Built(g, registry.Keys, item, tableName)
              && item.NamesMatch()
              && (forall d :: d in item.depTableSqlItemMap ==>
                  d in memo.entries && memo.entries[d] == item.depTableSqlItemMap[d])
              && item.sqlStr == [Requested(dialect, tableName, def, dbschema)]
    ensures err.Some? ==>
              Refused(g, registry.Keys, old(memo.Done()), old(memo.Active()) - {tableName}, tableName, err.value)
    decreases registry.Keys - memo.entries.Keys, 5
  {
    item, err, order' := null, None, order;
    ghost var e0, done, active := memo.entries, memo.Done(), memo.Active() - {tableName};
    if def.notDB {
      err := Some(NotATable(tableName));
      assert RefusedOn(g, registry.Keys, done, active, tableName, err.value, [tableName]);
      return;
    }
    var it := new InitItem(tableName);
    var columns;
    ghost var stmt := Requested(dialect, tableName, def, dbschema);
    columns, err, order' := AddFields(registry, dialect, it, def, checkRef, memo, g, order, stmt, e0, done, active);
    if err.Some? {
      return;
    }
    LinkedIsBuilt(g, registry.Keys, it.depTableSqlItemMap.Keys, tableName, def, checkRef);
    it.sqlStr := [CreateTable(BuildDbTableName(tableName, dbschema, dialect), columns)];
    item := it;
  }

  method AddFields(registry: Registry, dialect: Dialect, item: InitItem, def: TableDef, checkRef: bool, memo: InitMap,
                   ghost g: Registry, ghost order: seq<string>, ghost stmt: CreateTable,
                   ghost e0: map<string, InitItem?>, ghost done: set<string>, ghost active: set<string>)
    returns (columns: seq<(string, string)>, err: Option<PlanError>, ghost order': seq<string>)
    requires InBuild(registry, g, memo, order, item, stmt, e0, done, active)
    requires item.tableName in g && g[item.tableName] == Explored(def, checkRef)
    requires item.depTableSqlItemMap == map[]
    modifies memo, item`depTableNames, item`depTableSqlItemMap
    ensures InBuild(registry, g, memo, order', item, stmt, e0, done, active) && order <= order'
    ensures err.None? ==> columns == Columns(def.fields)
    ensures err.None? ==> Linked(item.depTableSqlItemMap.Keys, item.tableName, def.fields, checkRef)
    ensures err.Some? ==> Refused(g, registry.Keys, done, active, item.tableName, err.value)
    decreases registry.Keys - memo.entries.Keys, 4
  {
    columns, err, order' := [], None, order;
    var i := 0;
    while i < |def.fields|
      invariant 0 <= i <= |def.fields| && err.None?
      invariant InBuild(registry, g, memo, order', item, stmt, e0, done, active) && order <= order'
      invariant old(memo.entries.Keys) <= memo.entries.Keys
      invariant columns == Columns(def.fields[..i])
      invariant Linked(item.depTableSqlItemMap.Keys, item.tableName, def.fields[..i], checkRef)
    {
      var f := def.fields[i];
      assert def.fields[..i + 1] == def.fields[..i] + [f];
      if !f.notDB {
        columns := columns + [(f.name, f.reference)];
      }
      err, order' := AddField(registry, dialect, item, def, i, checkRef, memo, g, order', stmt, e0, done, active);
      if err.Some? {
        return;
      }
      i := i + 1;
    }
    assert def.fields[..i] == def.fields;
  }

  method AddField(registry: Registry, dialect: Dialect, item: InitItem, def: TableDef, i: nat, checkRef: bool,
                  memo: InitMap, ghost g: Registry, ghost order: seq<string>, ghost stmt: CreateTable,
                  ghost e0: map<string, InitItem?>, ghost done: set<string>, ghost active: set<string>)
    returns (err: Option<PlanError>, ghost order': seq<string>)
    requires i < |def.fields|
    requires InBuild(registry, g, memo, order, item, stmt, e0, done, active)
    requires item.tableName in g && g[item.tableName] == Explored(def, checkRef)
    requires Linked(item.depTableSqlItemMap.Keys, item.tableName, def.fields[..i], checkRef)
    modifies memo, item`depTableNames, item`depTableSqlItemMap
    ensures InBuild(registry, g, memo, order', item, stmt, e0, done, active) && order <= order'
    ensures old(memo.entries.Keys) <= memo.entries.Keys
    ensures err.None? ==> Linked(item.depTableSqlItemMap.Keys, item.tableName, def.fields[..i + 1], checkRef)
    ensures err.Some? ==> Refused(g, registry.Keys, done, active, item.tableName, err.value)
    decreases registry.Keys - memo.entries.Keys, 3
  {
    err, order' := None, order;
    var f := def.fields[i];
    assert def.fields[..i + 1] == def.fields[..i] + [f];
    ghost var deps := item.depTableSqlItemMap.Keys;
    if !f.notDB && f.reference != "" && checkRef {
      assert f in def.fields;
      err, order' := AddReference(registry, dialect, item, f.reference, memo, g, order, stmt, e0, done, active);
    }
    if err.None? {
      LinkedSnoc(deps, item.depTableSqlItemMap.Keys, item.tableName, def.fields[..i], f, checkRef);
    }
  }

  method AddReference(registry: Registry, dialect: Dialect, item: InitItem, reference: string, memo: InitMap,
                      ghost g: Registry, ghost order: seq<string>, ghost stmt: CreateTable,
                      ghost e0: map<string, InitItem?>, ghost done: set<string>, ghost active: set<string>)
    returns (err: Option<PlanError>, ghost order': seq<string>)
    requires InBuild(registry, g, memo, order, item, stmt, e0, done, active)
    requires item.tableName in g
    requires var name := GetRefTableName(reference);
             if name.Some? then name.value in RefNames(g[item.tableName].fields)
             else !WellFormed(g[item.tableName].fields)
    modifies memo, item`depTableNames, item`depTableSqlItemMap
    ensures InBuild(registry, g, memo, order', item, stmt, e0, done, active)
    ensures order <= order'
    ensures old(memo.entries.Keys) <= memo.entries.Keys
    ensures err.None? ==>
              && GetRefTableName(reference).Some?
              && item.depTableSqlItemMap.Keys
                 == old(item.depTableSqlItemMap.Keys) + ({GetRefTableName(reference).value} - {item.tableName})
    ensures err.Some? ==> Refused(g, registry.Keys, done, active, item.tableName, err.value)
    decreases registry.Keys - memo.entries.Keys, 2
  {
    order' := order;
    var wanted;
    err, wanted := WantedReference(registry, item, reference, memo, g, order, stmt, e0, done, active);
    if err.Some? || wanted.None? {
      return;
    }
    var depItem;
    depItem, err, order' := PlanDependency(registry, dialect, item, wanted.value, memo, g, order, stmt, e0, done,
                                           active);
    if err.None? {
      RecordDependency(registry, item, wanted.value, depItem, memo, g, order', stmt, e0, done, active);
    }
  }

  method RecordDependency(ghost registry: Registry, item: InitItem, dep: string, depItem: InitItem, ghost memo: InitMap,
                          ghost g: Registry, ghost order: seq<string>, ghost stmt: CreateTable,
                          ghost e0: map<string, InitItem?>, ghost done: set<string>, ghost active: set<string>)
    requires InBuild(registry, g, memo, order, item, stmt, e0, done, active)
    requires dep !in item.depTableSqlItemMap && dep in registry && dep in memo.entries && memo.entries[dep] == depItem
    modifies item`depTableNames, item`depTableSqlItemMap
    ensures InBuild(registry, g, memo, order, item, stmt, e0, done, active)
    ensures item.depTableSqlItemMap.Keys == old(item.depTableSqlItemMap.Keys) + {dep}
  {
    item.AddDependency(dep, depItem);
  }

  /** Plans the table an item refers to. */
  method PlanDependency(registry: Registry, dialect: Dialect, item: InitItem, dep: string, memo: InitMap,
                        ghost g: Registry, ghost order: seq<string>, ghost stmt: CreateTable,
                        ghost e0: map<string, InitItem?>, ghost done: set<string>, ghost active: set<string>)
    returns (depItem: InitItem?, err: Option<PlanError>, ghost order': seq<string>)
    requires InBuild(registry, g, memo, order, item, stmt, e0, done, active)
    requires item.tableName in g && dep in RefNames(g[item.tableName].fields) && dep in registry
             && dep != item.tableName
    modifies memo
    ensures InBuild(registry, g, memo, order', item, stmt, e0, done, active)
    ensures order <= order'
    ensures old(memo.entries.Keys) <= memo.entries.Keys
    ensures err.None? ==> depItem != null && dep in memo.entries && memo.entries[dep] == depItem
    ensures err.Some? ==> Refused(g, registry.Keys, done, active, item.tableName, err.value)
    decreases registry.Keys - memo.entries.Keys, 1
  {
    ghost var e1, doneNow := memo.entries, memo.Done();
    depItem, err, order' := DbCreateSQL(registry, dialect, dep, registry[dep], item.dbSchema, true, memo, g, order);
    Apart(memo, order', item);
    PlannedTransitive(registry, g, memo, item.tableName, stmt, dep, e0, e1, done, doneNow);
    if err.Some? {
      PrependRefused(g, registry.Keys, done, doneNow, active, item.tableName, dep, err.value);
    }
  }

  /** The table a reference names, unless it is the item's own, is planned already, or is unknown. */
  method WantedReference(registry: Registry, item: InitItem, reference: string, memo: InitMap, ghost g: Registry,
                         ghost order: seq<string>, ghost stmt: CreateTable, ghost e0: map<string, InitItem?>,
                         ghost done: set<string>, ghost active: set<string>)
    returns (err: Option<PlanError>, wanted: Option<string>)
    requires InBuild(registry, g, memo, order, item, stmt, e0, done, active) && item.tableName in g
    requires var name := GetRefTableName(reference);
             if name.Some? then name.value in RefNames(g[item.tableName].fields)
             else !WellFormed(g[item.tableName].fields)
    ensures err.Some? ==> Refused(g, registry.Keys, done, active, item.tableName, err.value)
    ensures err.None? ==> GetRefTableName(reference).Some?
    ensures err.None? && wanted.None? ==>
              var dep := GetRefTableName(reference).value;
              dep in item.depTableSqlItemMap || dep == item.tableName
    ensures wanted.Some? ==> wanted == GetRefTableName(reference) && wanted.value in registry
                             && wanted.value != item.tableName && wanted.value !in item.depTableSqlItemMap
  {
    err, wanted := None, None;
    var name := GetRefTableName(reference);
    if name.None? {
      err := Some(BadReference(item.tableName));
      assert RefusedOn(g, registry.Keys, done, active, item.tableName, err.value, [item.tableName]);
      return;
    }
    var dep := name.value;
    if dep in item.depTableSqlItemMap || item.tableName == dep {
      return;
    }
    if dep !in registry {
      err := Some(NotRegistered(dep));
      assert RefusedOn(g, registry.Keys, done, active, item.tableName, err.value, [item.tableName]);
      return;
    }
    wanted := name;
  }

  /** A finished entry's item bears the entry's name, so no other entry can hold it. */
  lemma Apart(memo: InitMap, order: seq<string>, item: InitItem)
    requires memo.Finished(order)
    requires item.tableName in memo.entries && memo.entries[item.tableName] == null
    ensures item !in memo.Items()
  {
    forall k | k in memo.entries && memo.entries[k] != null
      ensures memo.entries[k] != item
    {
      assert k in Elems(order);
      var i :| 0 <= i < |order| && order[i] == k;
      assert memo.ItemOk(order[i], order[..i]);
    }
  }

  lemma PlannedTransitive(registry: Registry, g: Registry, memo: InitMap, t: string, stmt: CreateTable, dep: string,
                          e0: map<string, InitItem?>, e1: map<string, InitItem?>, done: set<string>,
                          doneNow: set<string>)
    requires t !in done && done <= doneNow && Refers(g, t, dep) && dep in registry && t in e1
    requires Extends(e0, e1) && Extends(e1, memo.entries)
    requires PlannedAll(registry, g, done, t, stmt, e0, e1)
    requires PlannedAll(registry, g, doneNow, dep, CreateTable(dep, Columns(registry[dep].fields)), e1, memo.entries)
    ensures PlannedAll(registry, g, done, t, stmt, e0, memo.entries)
    ensures Extends(e0, memo.entries)
  {
    forall k | k in memo.entries && k !in e0
      ensures memo.entries[k] != null && Planned(registry, g, done, t, stmt, k, memo.entries[k])
    {
      if k !in e1 {
        PrependReached(g, done, doneNow, t, dep, k);
      }
    }
  }

  // ---------- When planning succeeds ----------

  /** Every table newly reached from `t` can be built, and no walk meets a table twice. */
  ghost predicate Plannable(g: Registry, registered: set<string>, done: set<string>, t: string) {
    t in done || forall p :: NewPath(g, done, p) && p[0] == t ==> NodeOk(g, registered, p[|p| - 1]) && Distinct(p)
  }

  /** Along a new walk from a planned table every table was planned, and each comes earlier in
      the dependency order than the one before it. */
  lemma {:induction false} IndexBelow(order: seq<string>, k: nat, x: string)
    requires k <= |order| && x in order[..k]
    ensures x in order && IndexOf(order, x) < k
  {
    assert x in order;
  }

  /** A table referred to by a newly planned one was planned before it. */
  lemma {:induction false} StepDown(registry: Registry, g: Registry, memo: InitMap, done: set<string>, t: string,
                                    stmt: CreateTable, e0: map<string, InitItem?>, order: seq<string>, a: string,
                                    b: string)
    requires memo.Finished(order) && PlannedAll(registry, g, done, t, stmt, e0, memo.entries)
    requires forall k :: k in e0 ==> e0[k] != null && k in done
    requires a in memo.entries && a !in e0 && a in order && Refers(g, a, b) && b !in done
    ensures b in memo.entries && b !in e0 && b in order && IndexOf(order, b) < IndexOf(order, a)
  {
    var k := IndexOf(order, a);
    assert memo.ItemOk(order[k], order[..k]);
    var it := memo.entries[a];
    assert Planned(registry, g, done, t, stmt, a, it);
    assert b in it.depTableSqlItemMap;
    IndexBelow(order, k, b);
  }

  lemma {:induction false} WalkDescends(registry: Registry, g: Registry, memo: InitMap, done: set<string>, t: string,
                     stmt: CreateTable, e0: map<string, InitItem?>, order: seq<string>, p: seq<string>, i: nat)
    requires memo.Finished(order) && PlannedAll(registry, g, done, t, stmt, e0, memo.entries)
    requires forall k :: k in e0 ==> e0[k] != null && k in done
    requires NewPath(g, done, p) && p[0] == t && t in memo.entries && i < |p|
    ensures p[i] in memo.entries && p[i] !in e0 && p[i] in order
    ensures forall j :: 0 <= j < i ==> p[j] in order && IndexOf(order, p[i]) < IndexOf(order, p[j])
  {
    if i > 0 {
      WalkDescends(registry, g, memo, done, t, stmt, e0, order, p, i - 1);
      StepDown(registry, g, memo, done, t, stmt, e0, order, p[i - 1], p[i]);
    } else {
      assert p[0] in Elems(order);
    }
  }

  lemma PlannedIsPlannable(registry: Registry, g: Registry, memo: InitMap, done: set<string>, t: string,
                           stmt: CreateTable, e0: map<string, InitItem?>, order: seq<string>)
    requires memo.Finished(order) && PlannedAll(registry, g, done, t, stmt, e0, memo.entries)
    requires forall k :: k in e0 ==> e0[k] != null && k in done
    requires t in memo.entries
    ensures Plannable(g, registry.Keys, done, t)
  {
    forall p | NewPath(g, done, p) && p[0] == t
      ensures NodeOk(g, registry.Keys, p[|p| - 1]) && Distinct(p)
    {
      forall i | 0 <= i < |p|
        ensures NodeOk(g, registry.Keys, p[i]) && forall j :: 0 <= j < i ==> p[j] != p[i]
      {
        WalkDescends(registry, g, memo, done, t, stmt, e0, order, p, i);
        assert Planned(registry, g, done, t, stmt, p[i], memo.entries[p[i]]);
      }
    }
  }

  lemma RefusedIsNotPlannable(g: Registry, registered: set<string>, done: set<string>, t: string, e: PlanError)
    requires t !in done && Refused(g, registered, done, {}, t, e)
    ensures !Plannable(g, registered, done, t)
  {
    var p :| RefusedOn(g, registered, done, {}, t, e, p);
    var last := |p| - 1;
    if e.CircularReference? {
      assert p[last] in Elems(p[..last]);
      var j :| 0 <= j < last && p[j] == p[last];
      assert !Distinct(p);
    }
  }

  /** The requested table is made with its schema in front, separated by a dot on PostgreSQL and
      Oracle, a dependency under its bare name, each with the columns of its own fields. */
  ghost predicate MakesTable(it: InitItem, registry: Registry, dialect: Dialect, tableName: string, def: TableDef,
                             dbschema: string, k: string)
    reads it
  {
    if k != tableName then k in registry && Makes(it, k, registry[k].fields)
    else if dbschema == "" then Makes(it, tableName, def.fields)
    else if dialect == Postgres || dialect == Oracle then Makes(it, dbschema + "." + tableName, def.fields)
    else Makes(it, dbschema + tableName, def.fields)
  }

  lemma AllMake(registry: Registry, g: Registry, done: set<string>, dialect: Dialect, tableName: string, def: TableDef,
                dbschema: string, e0: map<string, InitItem?>, e1: map<string, InitItem?>)
    requires PlannedAll(registry, g, done, tableName, Requested(dialect, tableName, def, dbschema), e0, e1)
    ensures forall k :: k in e1 && k !in e0 ==>
              e1[k] != null && MakesTable(e1[k], registry, dialect, tableName, def, dbschema, k)
  {
    forall k | k in e1 && k !in e0
      ensures e1[k] != null && MakesTable(e1[k], registry, dialect, tableName, def, dbschema, k)
    {
      assert Planned(registry, g, done, tableName, Requested(dialect, tableName, def, dbschema), k, e1[k]);
      ColumnsAreStored(if k == tableName then def.fields else registry[k].fields);
    }
  }

  /** A user's call, on a memo map with nothing in progress: the planner returns for every
      reference graph, and succeeds exactly when the table is plannable. Either way nothing is
      left in progress, earlier items are kept, and every entry added was reached and built. */
  method PlanTable(registry: Registry, dialect: Dialect, tableName: string, def: TableDef, dbschema: string,
                   checkRef: bool, memo: InitMap, ghost order: seq<string>)
    returns (item: InitItem?, err: Option<PlanError>, ghost order': seq<string>)
    requires memo.Finished(order) && memo.Active() == {}
    modifies memo
    ensures memo.Finished(order') && order <= order' && memo.Active() == {}
    ensures Extends(old(memo.entries), memo.entries)
    ensures var g := registry[tableName := Explored(def, checkRef)];
            && PlannedAll(registry, g, old(memo.Done()), tableName, Requested(dialect, tableName, def, dbschema),
                          old(memo.entries), memo.entries)
            && (err.None? <==> Plannable(g, registry.Keys, old(memo.Done()), tableName))
            && (err.Some? ==> Refused(g, registry.Keys, old(memo.Done()), {}, tableName, err.value))
    ensures err.None? ==> item != null && tableName in memo.entries && memo.entries[tableName] == item
    ensures err.Some? ==> item == null && tableName !in memo.entries
    ensures forall k :: k in memo.entries && k !in old(memo.entries) ==>
              memo.entries[k] != null && MakesTable(memo.entries[k], registry, dialect, tableName, def, dbschema, k)
  {
    ghost var g := registry[tableName := Explored(def, checkRef)];
    ghost var e0, done := memo.entries, memo.Done();
    assert forall k :: k in e0 ==> (if e0[k] == null then k in memo.Active() else k in done);
    item, err, order' := DbCreateSQL(registry, dialect, tableName, def, dbschema, checkRef, memo, g, order);
    if err.Some? {
      assert tableName !in done;
      RefusedIsNotPlannable(g, registry.Keys, done, tableName, err.value);
      assert tableName !in memo.Active();
    } else if tableName !in done {
      PlannedIsPlannable(registry, g, memo, done, tableName, Requested(dialect, tableName, def, dbschema), e0, order');
    }
    AllMake(registry, g, done, dialect, tableName, def, dbschema, e0, memo.entries);
  }
}
