/** Updates and deletes that return rows, on every dialect (crud/update.go, crud/partialupdate.go,
    crud/delete.go, crud/selectone.go, crud/mysql_fallback.go). A full and a partial update differ
    in their selector only. */
module Crud {
  import opened Prelude
  import opened Sqldb
  import opened Message
  import opened Sql
  import opened Text
  import opened UpdateBuilder
  import opened UpdateMeaning
  import opened UpdateLaws
  import opened UpdateDialects
  import opened StoredValues

  /** The server has what the statement uses: placeholders are numbered on PostgreSQL and nowhere
      else, MySQL has no RETURNING, only Oracle and PostgreSQL from version 18 on return the old row
      of an update, and WITH in front of an update is PostgreSQL's. */
  predicate Supports(d: Dialect, pgMajor: int, s: Stmt) {
    && Styled(Holes(s), d == Postgres)
    && match s
       case Update(_, _, _, NewRow) => d != Mysql
       case Update(_, _, _, OldAndNew) => d == Oracle || (d == Postgres && pgMajor >= 18)
       case CteUpdate(_, _, _, _, _) => d == Postgres || d == Unknown
       case Delete(_, _, NewRow) => d != Mysql
       case _ => true
  }

  lemma NumberedStyled(xs: seq<string>, ys: seq<string>, d: Dialect, no: nat)
    ensures Styled(HolesOf(Number(xs, PlaceholderOf(d), 1)) + HolesOf(Number(ys, PlaceholderOf(d), no)), d == Postgres)
    ensures Styled(HolesOf(Number(xs, PlaceholderOf(d), 1)), d == Postgres)
  {
  }

  class Database {
    var tables: Tables
    const dialect: Dialect
    const pgMajor: int

    constructor (tables: Tables, dialect: Dialect, pgMajor: int)
      ensures this.tables == tables && this.dialect == dialect && this.pgMajor == pgMajor
    {
      this.tables, this.dialect, this.pgMajor := tables, dialect, pgMajor;
    }

    /** Runs a statement given by its text and arguments. A statement that fails changes nothing. */
    method Query(b: Built) returns (rows: Option<set<ResultRow>>)
      requires b.sql == Render(b.stmt)
      modifies this
      ensures var ans := if Supports(dialect, pgMajor, b.stmt) then Eval(old(tables), b.stmt, b.vals) else Failed;
              if ans.Failed? then rows.None? && tables == old(tables)
              else rows == Some(ans.rows) && tables == ans.tables
    {
      var ans := if Supports(dialect, pgMajor, b.stmt) then Eval(tables, b.stmt, b.vals) else Failed;
      match ans {
        case Failed => rows := None;
        case Answer(after, returned) =>
          tables := after;
          rows := Some(returned);
      }
    }
  }

  /** What an operation for one row returns: an error, sql.ErrNoRows, or the row. */
  datatype Single = Refused | Missing | Row(row: Row)

  // ---------- Specifications ----------

  ghost predicate Selectable(tables: Tables, table: string, msg: GoMsg, fields: seq<FieldDesc>) {
    table in tables && KeyFields(fields) != map[] && HasKeys(msg, fields)
  }

  /** One of the given rows, or the news that there is none. */
  predicate OneOf(r: Single, rows: Table) {
    match r
    case Refused => false
    case Missing => rows == {}
    case Row(row) => row in rows
  }

  ghost predicate SelectOutcome(tables: Tables, table: string, msg: GoMsg, fields: seq<FieldDesc>, r: Single) {
    if Selectable(tables, table, msg, fields) then OneOf(r, KeyedRows(tables[table], KeyOf(msg, fields)))
    else r.Refused?
  }

  function Shifted(t: Table, m: map<string, Cell>): Table {
    set r | r in t :: r + m
  }

  ghost predicate Updatable(tables: Tables, table: string, msg: GoMsg, fields: seq<FieldDesc>, sel: Selector,
                            d: Dialect, reencode: bool)
    requires Typed(msg, fields)
  {
    table in tables && Buildable(msg, fields, sel, d, reencode, true)
  }

  /** The tables after the intended update. */
  ghost function AfterUpdate(tables: Tables, table: string, msg: GoMsg, fields: seq<FieldDesc>, sel: Selector,
                             d: Dialect): Tables
    requires Typed(msg, fields) && Updatable(tables, table, msg, fields, sel, d, false)
  {
    tables[table := UpdatedTable(tables[table], KeyOf(msg, fields), ChangesOf(msg, fields, sel, d, false))]
  }

  /** The intended update, said of the message. */
  lemma AfterUpdateSays(before: Tables, table: string, msg: GoMsg, fields: seq<FieldDesc>, sel: Selector, d: Dialect)
    requires Typed(msg, fields) && DistinctNames(fields)
    ensures Updatable(before, table, msg, fields, sel, d, false) <==> CanUpdate(before, table, msg, fields, sel)
    ensures Updatable(before, table, msg, fields, sel, d, false) ==>
              UpdateSays(before, AfterUpdate(before, table, msg, fields, sel, d), table, msg, fields, sel, d)
  {
    BuildableMeans(msg, fields, sel, d, before, table);
    if Updatable(before, table, msg, fields, sel, d, false) {
      UpdatedTableMeans(before[table], msg, fields, sel, d);
    }
  }

  /** An update that returns the new row. */
  ghost predicate NewOutcome(before: Tables, after: Tables, table: string, msg: GoMsg, fields: seq<FieldDesc>,
                             sel: Selector, d: Dialect, r: Single)
    requires Typed(msg, fields)
  {
    if Updatable(before, table, msg, fields, sel, d, false) then
      && after == AfterUpdate(before, table, msg, fields, sel, d)
      && OneOf(r, Shifted(KeyedRows(before[table], KeyOf(msg, fields)), ChangesOf(msg, fields, sel, d, false)))
    else after == before && r.Refused?
  }

  /** The dialects that cannot return an old row, so that it is selected before the update. */
  predicate SelectsFirst(d: Dialect) {
    d == SQLite || d == Mysql
  }

  /** The select by key can run and finds nothing. */
  ghost predicate FindsNothing(tables: Tables, table: string, msg: GoMsg, fields: seq<FieldDesc>) {
    Selectable(tables, table, msg, fields) && KeyedRows(tables[table], KeyOf(msg, fields)) == {}
  }

  /** An update that returns the old and the new row: it does the intended update and reports the
      row before and after it, or that there is none; or it cannot run, and changes nothing. That is
      an error, unless a select that comes first has found that there is no row. */
  ghost predicate PairOutcome(before: Tables, after: Tables, table: string, msg: GoMsg, fields: seq<FieldDesc>,
                              sel: Selector, d: Dialect, reencode: bool, first: bool, out: Outcome)
    requires Typed(msg, fields)
  {
    if Updatable(before, table, msg, fields, sel, d, reencode) then
      && Updatable(before, table, msg, fields, sel, d, false)
      && after == AfterUpdate(before, table, msg, fields, sel, d)
      && !out.Error?
      && (KeyUnique(before[table], KeyFields(fields).Keys) ==>
            IsOutcome(before[table], KeyOf(msg, fields), ChangesOf(msg, fields, sel, d, false), out))
    else after == before && out == if first && FindsNothing(before, table, msg, fields) then NoRow else Error
  }

  /** The dialects that use a common table expression, which encodes substituted values again. */
  predicate UsesCte(d: Dialect, pgMajor: int) {
    d == Unknown || (d == Postgres && pgMajor < 18)
  }

  /** On one table whose key is unique, all shapes of an update leave the same tables, whatever
      orders the key map was walked in. They report the same outcome too, except that of a message
      which cannot be updated and has no row a shape that selects first reports the latter. */
  lemma {:induction false} ShapesAgree(before: Tables, table: string, msg: GoMsg, fields: seq<FieldDesc>, sel: Selector,
                                       d: Dialect, after1: Tables, out1: Outcome, cte1: bool, first1: bool,
                                       after2: Tables, out2: Outcome, cte2: bool, first2: bool)
    requires Typed(msg, fields) && NoDefaultedMessage(msg, fields, |fields|, sel)
    requires table in before ==> KeyUnique(before[table], KeyFields(fields).Keys)
    requires PairOutcome(before, after1, table, msg, fields, sel, d, cte1, first1, out1)
    requires PairOutcome(before, after2, table, msg, fields, sel, d, cte2, first2, out2)
    ensures after1 == after2
    ensures out1 == out2 <==> Updatable(before, table, msg, fields, sel, d, false)
                              || !FindsNothing(before, table, msg, fields) || first1 == first2
  {
    CteBuildableIff(msg, fields, sel, d);
    if out1.Found? && out2.Found? {
      SameKeySameRow(before[table], out1.before, out2.before, msg, fields);
    }
  }

  /** One update on two databases, of whatever dialects and by whatever shapes: from equal tables with
      a unique key both do it, and they come to equal tables and report the same outcome exactly
      when both store every chosen value alike, or there is no row to update. */
  lemma {:induction false} DialectsAgreeIff(msg: GoMsg, fields: seq<FieldDesc>, sel: Selector,
                                            before1: Tables, after1: Tables, table1: string, d1: Dialect, cte1: bool,
                                            first1: bool, out1: Outcome, before2: Tables, after2: Tables,
                                            table2: string, d2: Dialect, cte2: bool, first2: bool, out2: Outcome)
    requires Typed(msg, fields) && DistinctNames(fields) && NoDefaultedMessage(msg, fields, |fields|, sel)
    requires Updatable(before1, table1, msg, fields, sel, d1, false)
    requires table2 in before2 && before1[table1] == before2[table2]
             && KeyUnique(before1[table1], KeyFields(fields).Keys)
    requires PairOutcome(before1, after1, table1, msg, fields, sel, d1, cte1, first1, out1)
    requires PairOutcome(before2, after2, table2, msg, fields, sel, d2, cte2, first2, out2)
    ensures Updatable(before2, table2, msg, fields, sel, d2, false)
    ensures after1 == before1[table1 := after1[table1]] && after2 == before2[table2 := after2[table2]]
    ensures var alike := SameForms(msg, fields, sel, d1, d2) || FindsNothing(before1, table1, msg, fields);
            (after1[table1] == after2[table2] <==> alike) && (out1 == out2 <==> alike)
  {
    CteBuildableIff(msg, fields, sel, d1);
    CteBuildableIff(msg, fields, sel, d2);
    BuildableOnBoth(msg, fields, sel, d1, d2);
    ChangesAgreeIff(msg, fields, sel, d1, d2);
    ChangesSpareKeys(msg, fields, sel, d1, false);
    ChangesSpareKeys(msg, fields, sel, d2, false);
    var m1, m2 := ChangesOf(msg, fields, sel, d1, false), ChangesOf(msg, fields, sel, d2, false);
    UpdatesAgreeIff(before1[table1], msg, fields, m1, m2);
    OutcomesAgreeIff(before1[table1], msg, fields, m1, m2, out1, out2);
  }

  lemma BuildableOnBoth(msg: GoMsg, fields: seq<FieldDesc>, sel: Selector, d1: Dialect, d2: Dialect)
    requires Typed(msg, fields) && DistinctNames(fields) && Buildable(msg, fields, sel, d1, false, true)
    ensures Buildable(msg, fields, sel, d2, false, true)
  {
    ChangesAgreeIff(msg, fields, sel, d1, d2);
    ChangeMapEmpty(Changing(msg, fields, sel, d1, false).value);
    ChangeMapEmpty(Changing(msg, fields, sel, d2, false).value);
  }

  lemma ChangeMapEmpty(ch: Changes)
    requires |ch.names| == |ch.vals|
    ensures ChangeMap(ch.names, ch.vals).Keys == {} <==> ch.names == []
  {
    if ch.names != [] {
      assert ch.names[|ch.names| - 1] in ChangeMap(ch.names, ch.vals);
    }
  }

  lemma {:induction false} OutcomesAgreeIff(t: Table, msg: GoMsg, fields: seq<FieldDesc>, m1: map<string, Cell>,
                                            m2: map<string, Cell>, out1: Outcome, out2: Outcome)
    requires KeyUnique(t, KeyFields(fields).Keys) && HasKeys(msg, fields) && m1.Keys == m2.Keys
    requires IsOutcome(t, KeyOf(msg, fields), m1, out1) && IsOutcome(t, KeyOf(msg, fields), m2, out2)
    ensures out1 == out2 <==> m1 == m2 || KeyedRows(t, KeyOf(msg, fields)) == {}
  {
    var key := KeyOf(msg, fields);
    if out1.Found? {
      assert out1.before in KeyedRows(t, key);
      SameKeySameRow(t, out1.before, out2.before, msg, fields);
      forall c | out1.after == out2.after && c in m1
        ensures m1[c] == m2[c]
      {
        assert out1.after[c] == m1[c] && out2.after[c] == m2[c];
      }
    }
  }

  // ---------- Outcomes, said of the message ----------

  /** The select can be made: the table exists and the message has every field of its key. */
  ghost predicate CanSelect(tables: Tables, table: string, msg: GoMsg, fields: seq<FieldDesc>) {
    && table in tables
    && (exists i :: 0 <= i < |fields| && fields[i].pdb.primary)
    && (forall i :: 0 <= i < |fields| && fields[i].pdb.primary ==> fields[i].name in msg)
  }

  ghost predicate NoneHasKey(t: Table, msg: GoMsg, fields: seq<FieldDesc>) {
    forall r :: r in t ==> !KeyIs(r, msg, fields)
  }

  ghost predicate SelectSays(tables: Tables, table: string, msg: GoMsg, fields: seq<FieldDesc>, r: Single) {
    if CanSelect(tables, table, msg, fields) then
      match r
      case Refused => false
      case Missing => NoneHasKey(tables[table], msg, fields)
      case Row(row) => row in tables[table] && KeyIs(row, msg, fields)
    else r == Refused
  }

  lemma SelectOutcomeSays(tables: Tables, table: string, msg: GoMsg, fields: seq<FieldDesc>, r: Single)
    requires DistinctNames(fields) && SelectOutcome(tables, table, msg, fields, r)
    ensures SelectSays(tables, table, msg, fields, r)
  {
    HasKeysMeans(msg, fields);
    if table in tables {
      KeyedMeans(tables[table], msg, fields);
    }
  }

  lemma SelectOutcomesSay(tables: Tables, table: string, msg: GoMsg, fields: seq<FieldDesc>)
    requires DistinctNames(fields)
    ensures forall r :: SelectOutcome(tables, table, msg, fields, r) ==> SelectSays(tables, table, msg, fields, r)
  {
    forall r | SelectOutcome(tables, table, msg, fields, r)
      ensures SelectSays(tables, table, msg, fields, r)
    {
      SelectOutcomeSays(tables, table, msg, fields, r);
    }
  }

  lemma KeyedMeans(t: Table, msg: GoMsg, fields: seq<FieldDesc>)
    requires DistinctNames(fields)
    ensures forall r :: r in KeyedRows(t, KeyOf(msg, fields)) <==> r in t && KeyIs(r, msg, fields)
  {
    forall r
      ensures r in KeyedRows(t, KeyOf(msg, fields)) <==> r in t && KeyIs(r, msg, fields)
    {
      HasKeyMeans(r, msg, fields);
    }
  }

  /** A changed row of the key, or the news that there is none. */
  ghost predicate NewRowSays(t: Table, msg: GoMsg, fields: seq<FieldDesc>, sel: Selector, d: Dialect, r: Single) {
    match r
    case Refused => false
    case Missing => NoneHasKey(t, msg, fields)
    case Row(row) => exists b :: b in t && KeyIs(b, msg, fields) && RowUpdated(b, row, msg, fields, sel, d)
  }

  /** The update is made, and a changed row of the key comes back. */
  ghost predicate NewSays(before: Tables, after: Tables, table: string, msg: GoMsg, fields: seq<FieldDesc>,
                          sel: Selector, d: Dialect, r: Single)
  {
    if CanUpdate(before, table, msg, fields, sel) then
      UpdateSays(before, after, table, msg, fields, sel, d) && NewRowSays(before[table], msg, fields, sel, d, r)
    else after == before && r == Refused
  }

  lemma ShiftedSays(t: Table, msg: GoMsg, fields: seq<FieldDesc>, sel: Selector, d: Dialect, r: Single)
    requires Typed(msg, fields) && DistinctNames(fields) && Changing(msg, fields, sel, d, false).Ok?
    requires OneOf(r, Shifted(KeyedRows(t, KeyOf(msg, fields)), ChangesOf(msg, fields, sel, d, false)))
    ensures NewRowSays(t, msg, fields, sel, d, r)
  {
    var m := ChangesOf(msg, fields, sel, d, false);
    KeyedMeans(t, msg, fields);
    if r.Row? {
      var b :| b in KeyedRows(t, KeyOf(msg, fields)) && r.row == b + m;
      UpdatedRowMeans(b, msg, fields, sel, d);
    } else {
      forall b | b in t
        ensures !KeyIs(b, msg, fields)
      {
        assert b + m !in Shifted(KeyedRows(t, KeyOf(msg, fields)), m);
      }
    }
  }

  lemma NewOutcomeSays(before: Tables, after: Tables, table: string, msg: GoMsg, fields: seq<FieldDesc>, sel: Selector,
                       d: Dialect, r: Single)
    requires Typed(msg, fields) && DistinctNames(fields) && NewOutcome(before, after, table, msg, fields, sel, d, r)
    ensures NewSays(before, after, table, msg, fields, sel, d, r)
  {
    AfterUpdateSays(before, table, msg, fields, sel, d);
    if Updatable(before, table, msg, fields, sel, d, false) {
      ShiftedSays(before[table], msg, fields, sel, d, r);
    }
  }

  lemma NewOutcomesSay(before: Tables, table: string, msg: GoMsg, fields: seq<FieldDesc>, sel: Selector, d: Dialect)
    requires Typed(msg, fields) && DistinctNames(fields)
    ensures forall after, r ::
              NewOutcome(before, after, table, msg, fields, sel, d, r) ==>
              NewSays(before, after, table, msg, fields, sel, d, r)
  {
    forall after, r | NewOutcome(before, after, table, msg, fields, sel, d, r)
      ensures NewSays(before, after, table, msg, fields, sel, d, r)
    {
      NewOutcomeSays(before, after, table, msg, fields, sel, d, r);
    }
  }

  /** A pair that comes back for a unique key is the row of the key before and after the update. */
  ghost predicate PairSays(before: Tables, after: Tables, table: string, msg: GoMsg, fields: seq<FieldDesc>,
                           sel: Selector, d: Dialect, out: Outcome)
  {
    && (out.Found? ==> UpdateSays(before, after, table, msg, fields, sel, d))
    && (out.Error? ==> after == before)
    && (table in before && KeyUnique(before[table], KeyFields(fields).Keys) ==>
          match out
          case Error => true
          case NoRow => after == before && NoneHasKey(before[table], msg, fields)
          case Found(b, a) =>
            b in before[table] && KeyIs(b, msg, fields) && RowUpdated(b, a, msg, fields, sel, d))
  }

  lemma {:induction false} PairOutcomeSays(before: Tables, after: Tables, table: string, msg: GoMsg,
                                           fields: seq<FieldDesc>, sel: Selector, d: Dialect, reencode: bool,
                                           first: bool, out: Outcome)
    requires Typed(msg, fields) && DistinctNames(fields)
    requires PairOutcome(before, after, table, msg, fields, sel, d, reencode, first, out)
    ensures PairSays(before, after, table, msg, fields, sel, d, out)
  {
    AfterUpdateSays(before, table, msg, fields, sel, d);
    if table in before {
      KeyedMeans(before[table], msg, fields);
    }
    if Updatable(before, table, msg, fields, sel, d, reencode) {
      var key, m := KeyOf(msg, fields), ChangesOf(msg, fields, sel, d, false);
      if out.Found? && KeyUnique(before[table], KeyFields(fields).Keys) {
        UpdatedRowMeans(out.before, msg, fields, sel, d);
        HasKeyMeans(out.before, msg, fields);
      }
      if out.NoRow? && KeyUnique(before[table], KeyFields(fields).Keys) {
        NothingToChange(before, table, key, m);
      }
    }
  }

  lemma {:induction false} PairOutcomesSay(before: Tables, table: string, msg: GoMsg, fields: seq<FieldDesc>,
                                           sel: Selector, d: Dialect, reencode: bool, first: bool)
    requires Typed(msg, fields) && DistinctNames(fields)
    ensures forall after, out ::
              PairOutcome(before, after, table, msg, fields, sel, d, reencode, first, out) ==>
              PairSays(before, after, table, msg, fields, sel, d, out)
  {
    forall after, out | PairOutcome(before, after, table, msg, fields, sel, d, reencode, first, out)
      ensures PairSays(before, after, table, msg, fields, sel, d, out)
    {
      PairOutcomeSays(before, after, table, msg, fields, sel, d, reencode, first, out);
    }
  }

  ghost predicate DeleteOutcome(before: Tables, after: Tables, table: string, msg: GoMsg, fields: seq<FieldDesc>,
                                r: Single)
  {
    && SelectOutcome(before, table, msg, fields, r)
    && after == if Selectable(before, table, msg, fields)
                then before[table := before[table] - KeyedRows(before[table], KeyOf(msg, fields))] else before
  }

  /** The rows of the key are gone, and every other row and table stays. */
  ghost predicate DeleteSays(before: Tables, after: Tables, table: string, msg: GoMsg, fields: seq<FieldDesc>,
                             r: Single)
  {
    && SelectSays(before, table, msg, fields, r)
    && if CanSelect(before, table, msg, fields) then
         && table in after && after == before[table := after[table]]
         && forall row :: row in after[table] <==> row in before[table] && !KeyIs(row, msg, fields)
       else after == before
  }

  lemma DeleteOutcomesSay(before: Tables, table: string, msg: GoMsg, fields: seq<FieldDesc>)
    requires DistinctNames(fields)
    ensures forall after, r ::
              DeleteOutcome(before, after, table, msg, fields, r) ==> DeleteSays(before, after, table, msg, fields, r)
  {
    HasKeysMeans(msg, fields);
    SelectOutcomesSay(before, table, msg, fields);
    if table in before {
      KeyedMeans(before[table], msg, fields);
    }
  }

  // ---------- Operations ----------

  method First(rows: Option<set<ResultRow>>) returns (r: Option<Option<ResultRow>>)
    ensures rows.None? ==> r == None
    ensures rows.Some? ==>
            r.Some? && (r.value.None? <==> rows.value == {}) && (r.value.Some? ==> r.value.value in rows.value)
  {
    if rows.None? {
      return None;
    }
    if rows.value == {} {
      return Some(None);
    }
    var x :| x in rows.value;
    r := Some(Some(x));
  }

  /** dbSelectOne by primary key. */
  method DbSelectOne(db: Database, msg: GoMsg, dbschema: string, tableName: string, fields: seq<FieldDesc>)
    returns (r: Single)
    modifies db
    ensures db.tables == old(db.tables)
    ensures SelectOutcome(db.tables, BuildDbTableName(tableName, dbschema, db.dialect), msg, fields, r)
    ensures DistinctNames(fields) ==>
              SelectSays(db.tables, BuildDbTableName(tableName, dbschema, db.dialect), msg, fields, r)
  {
    if DistinctNames(fields) {
      SelectOutcomesSay(db.tables, BuildDbTableName(tableName, dbschema, db.dialect), msg, fields);
    }
    ghost var table := BuildDbTableName(tableName, dbschema, db.dialect);
    var built, ks := DbBuildSqlSelectOne(msg, dbschema, tableName, fields, db.dialect);
    if built.Err? {
      return Refused;
    }
    NumberedStyled(ks, [], db.dialect, 1);
    if table in db.tables {
      SelectMeans(db.tables, table, msg, fields, ks, PlaceholderOf(db.dialect));
    }
    var rows := db.Query(built.value);
    if rows.Some? {
      OnesAreRows(KeyedRows(db.tables[table], KeyOf(msg, fields)));
    }
    r := FirstOne(rows);
  }

  lemma OnesAreRows(t: Table)
    ensures RowsOf(Ones(t)) == t && forall x :: x in Ones(t) ==> x.One?
  {
    forall r | r in t
      ensures r in RowsOf(Ones(t))
    {
      assert One(r) in Ones(t);
    }
  }

  function RowsOf(answer: set<ResultRow>): Table {
    set x | x in answer && x.One? :: x.row
  }

  /** Scans the first row of an answer of single rows. */
  method FirstOne(rows: Option<set<ResultRow>>) returns (r: Single)
    requires rows.Some? ==> forall x :: x in rows.value ==> x.One?
    ensures rows.None? ==> r == Refused
    ensures rows.Some? ==> OneOf(r, RowsOf(rows.value))
  {
    var first := First(rows);
    match first {
      case None => r := Refused;
      case Some(None) => r := Missing;
      case Some(Some(x)) => r := Row(x.row);
    }
  }

  /** dbUpdate and dbUpdatePartial: no rows come back. */
  method DbUpdate(db: Database, msg: GoMsg, sel: Selector, dbschema: string, tableName: string, fields: seq<FieldDesc>)
    returns (ok: bool)
    requires Typed(msg, fields) && |fields| < TWO31
    modifies db
    ensures var table := BuildDbTableName(tableName, dbschema, db.dialect);
            ok == Updatable(old(db.tables), table, msg, fields, sel, db.dialect, false)
    ensures ok ==>
            db.tables == AfterUpdate(old(db.tables), BuildDbTableName(tableName, dbschema, db.dialect), msg, fields,
                                     sel, db.dialect)
    ensures !ok ==> db.tables == old(db.tables)
    ensures DistinctNames(fields) ==>
              var table := BuildDbTableName(tableName, dbschema, db.dialect);
              && (ok <==> CanUpdate(old(db.tables), table, msg, fields, sel))
              && (ok ==> UpdateSays(old(db.tables), db.tables, table, msg, fields, sel, db.dialect))
  {
    if DistinctNames(fields) {
      AfterUpdateSays(db.tables, BuildDbTableName(tableName, dbschema, db.dialect), msg, fields, sel, db.dialect);
    }
    var built, capacity, ks := DbBuildSqlUpdate(msg, sel, dbschema, tableName, fields, db.dialect, false);
    if built.Err? {
      return false;
    }
    BuiltUpdateMeans(db.tables, built.value, BuildDbTableName(tableName, dbschema, db.dialect), msg, fields, sel,
                     db.dialect, NoRows, ks);
    var rows := db.Query(built.value);
    ok := rows.Some?;
  }

  /** A built statement of the update shape does the intended update, unless it sets nothing or
      its table is missing. */
  lemma BuiltUpdateMeans(db: Tables, b: Built, table: string, msg: GoMsg, fields: seq<FieldDesc>, sel: Selector,
                         d: Dialect, ret: Returning, ks: seq<string>)
    requires Typed(msg, fields) && Buildable(msg, fields, sel, d, false, false) && KeyOrder(fields, ks)
    requires IsUpdate(b, table, Changing(msg, fields, sel, d, false).value, msg, ks, PlaceholderOf(d), ret)
    ensures Eval(db, b.stmt, b.vals)
         == if Updatable(db, table, msg, fields, sel, d, false) then
              Answer(AfterUpdate(db, table, msg, fields, sel, d),
                     ReturnedRows(db[table], KeyOf(msg, fields), ChangesOf(msg, fields, sel, d, false), ret))
            else Failed
    ensures Styled(Holes(b.stmt), d == Postgres)
  {
    var ch := Changing(msg, fields, sel, d, false).value;
    NumberedStyled(ch.names, ks, d, 1 + |ch.names|);
    if Updatable(db, table, msg, fields, sel, d, false) {
      UpdateMeans(db, table, msg, fields, Changing(msg, fields, sel, d, false).value, ks, PlaceholderOf(d), ret);
    }
  }

  /** dbUpdateReturnNew and dbUpdatePartialReturnNew. */
  method DbUpdateReturnNew(db: Database, msg: GoMsg, sel: Selector, dbschema: string, tableName: string,
                           fields: seq<FieldDesc>) returns (r: Single)
    requires Typed(msg, fields) && |fields| < TWO31 && DistinctNames(fields)
    modifies db
    ensures NewOutcome(old(db.tables), db.tables, BuildDbTableName(tableName, dbschema, db.dialect), msg, fields, sel,
                       db.dialect, r)
    ensures NewSays(old(db.tables), db.tables, BuildDbTableName(tableName, dbschema, db.dialect), msg, fields, sel,
                    db.dialect, r)
  {
    ghost var table := BuildDbTableName(tableName, dbschema, db.dialect);
    NewOutcomesSay(db.tables, table, msg, fields, sel, db.dialect);
    if db.dialect == Mysql {
      r := UpdateThenSelect(db, msg, sel, dbschema, tableName, fields);
      return;
    }
    var built, capacity, ks := DbBuildSqlUpdate(msg, sel, dbschema, tableName, fields, db.dialect, true);
    if built.Err? {
      return Refused;
    }
    BuiltUpdateMeans(db.tables, built.value, table, msg, fields, sel, db.dialect, NewRow, ks);
    if Updatable(db.tables, table, msg, fields, sel, db.dialect, false) {
      NewRowsAreShifted(db.tables[table], KeyOf(msg, fields), ChangesOf(msg, fields, sel, db.dialect, false));
    }
    var rows := db.Query(built.value);
    r := FirstOne(rows);
  }

  lemma NewRowsAreShifted(t: Table, key: Key, m: map<string, Cell>)
    ensures RowsOf(ReturnedRows(t, key, m, NewRow)) == Shifted(KeyedRows(t, key), m)
    ensures forall x :: x in ReturnedRows(t, key, m, NewRow) ==> x.One?
  {
    var a, b := RowsOf(ReturnedRows(t, key, m, NewRow)), Shifted(KeyedRows(t, key), m);
    forall y | y in b
      ensures y in a
    {
      var r :| r in KeyedRows(t, key) && y == r + m;
      assert One(y) in ReturnedRows(t, key, m, NewRow);
    }
  }

  /** The path for a database without RETURNING: update, then select the same key. */
  method UpdateThenSelect(db: Database, msg: GoMsg, sel: Selector, dbschema: string, tableName: string,
                          fields: seq<FieldDesc>) returns (r: Single)
    requires Typed(msg, fields) && |fields| < TWO31 && DistinctNames(fields)
    modifies db
    ensures NewOutcome(old(db.tables), db.tables, BuildDbTableName(tableName, dbschema, db.dialect), msg, fields, sel,
                       db.dialect, r)
  {
    ghost var before, table := db.tables, BuildDbTableName(tableName, dbschema, db.dialect);
    var ok := DbUpdate(db, msg, sel, dbschema, tableName, fields);
    if !ok {
      return Refused;
    }
    r := DbSelectOne(db, msg, dbschema, tableName, fields);
    ChangesSpareKeys(msg, fields, sel, db.dialect, false);
    KeyedShift(before[table], msg, fields, ChangesOf(msg, fields, sel, db.dialect, false));
  }

  lemma KeyedShift(t: Table, msg: GoMsg, fields: seq<FieldDesc>, m: map<string, Cell>)
    requires SparesKeys(m, fields)
    ensures KeyedRows(UpdatedTable(t, KeyOf(msg, fields), m), KeyOf(msg, fields))
            == Shifted(KeyedRows(t, KeyOf(msg, fields)), m)
  {
    KeyedAfterUpdate(t, msg, fields, m);
  }

  /** dbUpdateReturnOldAndNew and dbUpdatePartialReturnOldAndNew: whatever the dialect, the
      statement or statements issued do the one intended update. */
  method DbUpdateReturnOldAndNew(db: Database, msg: GoMsg, sel: Selector, dbschema: string, tableName: string,
                                 fields: seq<FieldDesc>)
    returns (out: Outcome)
    requires Typed(msg, fields) && |fields| < TWO31 && DistinctNames(fields)
    modifies db
    ensures PairOutcome(old(db.tables), db.tables, BuildDbTableName(tableName, dbschema, db.dialect), msg, fields, sel,
                        db.dialect, db.dialect == Unknown || (db.dialect == Postgres && db.pgMajor < 18),
                        db.dialect == SQLite || db.dialect == Mysql, out)
    ensures PairSays(old(db.tables), db.tables, BuildDbTableName(tableName, dbschema, db.dialect), msg, fields, sel,
                     db.dialect, out)
  {
    ghost var before, table := db.tables, BuildDbTableName(tableName, dbschema, db.dialect);
    PairOutcomesSay(before, table, msg, fields, sel, db.dialect, UsesCte(db.dialect, db.pgMajor),
                    SelectsFirst(db.dialect));
    if SelectsFirst(db.dialect) {
      out := SelectThenUpdate(db, msg, sel, dbschema, tableName, fields);
      return;
    }
    var native := (db.dialect == Postgres && db.pgMajor >= 18) || db.dialect == Oracle;
    if native {
      out := UpdateNative(db, msg, sel, dbschema, tableName, fields);
    } else {
      out := UpdateWithCte(db, msg, sel, dbschema, tableName, fields);
    }
  }

  /** The path for a database that cannot return old rows: select the old row, then update. */
  method SelectThenUpdate(db: Database, msg: GoMsg, sel: Selector, dbschema: string, tableName: string,
                          fields: seq<FieldDesc>)
    returns (out: Outcome)
    requires Typed(msg, fields) && |fields| < TWO31 && DistinctNames(fields)
    modifies db
    ensures PairOutcome(old(db.tables), db.tables, BuildDbTableName(tableName, dbschema, db.dialect), msg, fields, sel,
                        db.dialect, false, true, out)
  {
    ghost var before, table := db.tables, BuildDbTableName(tableName, dbschema, db.dialect);
    var oldRow := DbSelectOne(db, msg, dbschema, tableName, fields);
    match oldRow {
      case Refused =>
        return Error;
      case Missing =>
        if Updatable(before, table, msg, fields, sel, db.dialect, false) {
          NothingToChange(before, table, KeyOf(msg, fields), ChangesOf(msg, fields, sel, db.dialect, false));
        }
        return NoRow;
      case Row(b) =>
        var newRow := DbUpdateReturnNew(db, msg, sel, dbschema, tableName, fields);
        out := PairUp(b, newRow);
        OldAndNewFit(before, db.tables, table, msg, fields, sel, db.dialect, b, newRow);
    }
  }

  method PairUp(b: Row, newRow: Single) returns (out: Outcome)
    ensures out == match newRow case Refused => Error case Missing => NoRow case Row(a) => Found(b, a)
  {
    match newRow {
      case Refused => out := Error;
      case Missing => out := NoRow;
      case Row(a) => out := Found(b, a);
    }
  }

  lemma OldAndNewFit(before: Tables, after: Tables, table: string, msg: GoMsg, fields: seq<FieldDesc>, sel: Selector,
                     d: Dialect, b: Row, newRow: Single)
    requires Typed(msg, fields) && Selectable(before, table, msg, fields)
    requires b in KeyedRows(before[table], KeyOf(msg, fields))
    requires NewOutcome(before, after, table, msg, fields, sel, d, newRow)
    ensures PairOutcome(before, after, table, msg, fields, sel, d, false, true,
                        match newRow case Refused => Error case Missing => NoRow case Row(a) => Found(b, a))
  {
    if Updatable(before, table, msg, fields, sel, d, false) {
      var m := ChangesOf(msg, fields, sel, d, false);
      assert b + m in Shifted(KeyedRows(before[table], KeyOf(msg, fields)), m);
      if KeyUnique(before[table], KeyFields(fields).Keys) && newRow.Row? {
        var r :| r in KeyedRows(before[table], KeyOf(msg, fields)) && newRow.row == r + m;
        SameKeySameRow(before[table], r, b, msg, fields);
      }
    }
  }

  lemma NothingToChange(db: Tables, table: string, key: Key, m: map<string, Cell>)
    requires table in db && KeyedRows(db[table], key) == {}
    ensures db[table := UpdatedTable(db[table], key, m)] == db
    ensures forall r :: r in db[table] ==> !HasKey(r, key)
  {
    NothingKeyed(db[table], key, m);
  }

  /** Scans the first row of an answer of pairs. */
  method FirstPair(rows: Option<set<ResultRow>>) returns (out: Outcome)
    requires rows.Some? ==> forall x :: x in rows.value ==> x.Pair?
    ensures rows.None? ==> out == Error
    ensures rows.Some? ==>
            !out.Error? && (out.NoRow? <==> rows.value == {})
            && (out.Found? ==> Pair(out.before, out.after) in rows.value)
  {
    var first := First(rows);
    match first {
      case None => out := Error;
      case Some(None) => out := NoRow;
      case Some(Some(x)) => out := Found(x.before, x.after);
    }
  }

  lemma PairsAreOutcomes(t: Table, key: Key, m: map<string, Cell>, out: Outcome)
    requires out.NoRow? ==> ReturnedRows(t, key, m, OldAndNew) == {}
    requires out.Found? ==> Pair(out.before, out.after) in ReturnedRows(t, key, m, OldAndNew)
    ensures !out.Error? ==> IsOutcome(t, key, m, out)
  {
    if out.NoRow? {
      forall r | r in t
        ensures !HasKey(r, key)
      {
        assert Pair(r, r + m) !in ReturnedRows(t, key, m, OldAndNew);
      }
    }
  }

  lemma NativeFits(before: Tables, after: Tables, table: string, msg: GoMsg, fields: seq<FieldDesc>, sel: Selector,
                   d: Dialect, rows: Option<set<ResultRow>>, out: Outcome)
    requires Typed(msg, fields)
    requires if Updatable(before, table, msg, fields, sel, d, false) then
               && after == AfterUpdate(before, table, msg, fields, sel, d)
               && rows == Some(ReturnedRows(before[table], KeyOf(msg, fields), ChangesOf(msg, fields, sel, d, false),
                                            OldAndNew))
             else after == before && rows.None?
    requires if rows.None? then out == Error
             else !out.Error? && (out.NoRow? ==> rows.value == {})
                  && (out.Found? ==> Pair(out.before, out.after) in rows.value)
    ensures PairOutcome(before, after, table, msg, fields, sel, d, false, false, out)
  {
    if Updatable(before, table, msg, fields, sel, d, false) {
      PairsAreOutcomes(before[table], KeyOf(msg, fields), ChangesOf(msg, fields, sel, d, false), out);
    }
  }

  method UpdateNative(db: Database, msg: GoMsg, sel: Selector, dbschema: string, tableName: string,
                      fields: seq<FieldDesc>) returns (out: Outcome)
    requires Typed(msg, fields) && (db.dialect == Oracle || (db.dialect == Postgres && db.pgMajor >= 18))
    modifies db
    ensures PairOutcome(old(db.tables), db.tables, BuildDbTableName(tableName, dbschema, db.dialect), msg, fields, sel,
                        db.dialect, false, false, out)
  {
    ghost var before, table := db.tables, BuildDbTableName(tableName, dbschema, db.dialect);
    var built, ks := DbBuildSqlUpdateOldAndNewNative(msg, sel, dbschema, tableName, fields, db.dialect);
    if built.Err? {
      return Error;
    }
    BuiltUpdateMeans(before, built.value, table, msg, fields, sel, db.dialect, OldAndNew, ks);
    var rows := db.Query(built.value);
    out := FirstPair(rows);
    NativeFits(before, db.tables, table, msg, fields, sel, db.dialect, rows, out);
  }

  /** A built statement with a common table expression does the intended update too. */
  lemma {:induction false} BuiltCteMeans(db: Tables, b: Built, table: string, msg: GoMsg, fields: seq<FieldDesc>,
                                         sel: Selector, d: Dialect, ks: seq<string>, js: seq<string>)
    requires Typed(msg, fields) && Buildable(msg, fields, sel, d, true, true) && KeyOrder(fields, ks)
             && KeyOrder(fields, js)
    requires IsCteUpdate(b, table, Changing(msg, fields, sel, d, true).value, msg, ks, js, PlaceholderOf(d), sel.Named?)
    ensures Buildable(msg, fields, sel, d, false, true) && Styled(Holes(b.stmt), d == Postgres)
    ensures var ans := Eval(db, b.stmt, b.vals);
            if table !in db then ans.Failed?
            else
              && ans.Answer? && ans.tables == AfterUpdate(db, table, msg, fields, sel, d)
              && (forall x :: x in ans.rows ==> x.Pair?)
              && (KeyUnique(db[table], KeyFields(fields).Keys) ==>
                    ans.rows == ReturnedRows(db[table], KeyOf(msg, fields), ChangesOf(msg, fields, sel, d, false),
                                             OldAndNew))
  {
    CteBuildableIff(msg, fields, sel, d);
    NumberedStyled(ks, Changing(msg, fields, sel, d, true).value.names, d, 1 + |ks|);
    if table in db {
      CteMeans(db, table, msg, fields, Changing(msg, fields, sel, d, true).value, ks, js, PlaceholderOf(d), sel.Named?);
    }
  }

  method UpdateWithCte(db: Database, msg: GoMsg, sel: Selector, dbschema: string, tableName: string,
                       fields: seq<FieldDesc>) returns (out: Outcome)
    requires Typed(msg, fields) && (db.dialect == Postgres || db.dialect == Unknown)
    modifies db
    ensures PairOutcome(old(db.tables), db.tables, BuildDbTableName(tableName, dbschema, db.dialect), msg, fields, sel,
                        db.dialect, true, false, out)
  {
    ghost var before, table := db.tables, BuildDbTableName(tableName, dbschema, db.dialect);
    var built, ks, js := DbBuildSqlUpdateOldAndNew(msg, sel, dbschema, tableName, fields, db.dialect);
    if built.Err? {
      return Error;
    }
    BuiltCteMeans(before, built.value, table, msg, fields, sel, db.dialect, ks, js);
    var rows := db.Query(built.value);
    out := FirstPair(rows);
    if table in before && KeyUnique(before[table], KeyFields(fields).Keys) {
      PairsAreOutcomes(before[table], KeyOf(msg, fields), ChangesOf(msg, fields, sel, db.dialect, false), out);
    }
  }

  // ---------- Deletes ----------

  /** DbDeleteReturn: with RETURNING or, where there is none, by selecting first. The table is the
      message's, which is the one DbDelete deletes from. */
  method DbDeleteReturn(db: Database, msg: GoMsg, dbschema: string, msgName: string, fields: seq<FieldDesc>)
    returns (r: Single)
    modifies db
    ensures DeleteOutcome(old(db.tables), db.tables, BuildDbTableName(msgName, dbschema, db.dialect), msg, fields, r)
    ensures DistinctNames(fields) ==>
              DeleteSays(old(db.tables), db.tables, BuildDbTableName(msgName, dbschema, db.dialect), msg, fields, r)
  {
    if DistinctNames(fields) {
      DeleteOutcomesSay(db.tables, BuildDbTableName(msgName, dbschema, db.dialect), msg, fields);
    }
    if db.dialect == Mysql {
      r := SelectThenDelete(db, msg, dbschema, msgName, fields);
      return;
    }
    ghost var before, table := db.tables, BuildDbTableName(msgName, dbschema, db.dialect);
    var rows := RunDelete(db, msg, dbschema, msgName, fields, true);
    if rows.Some? {
      OnesAreRows(KeyedRows(before[table], KeyOf(msg, fields)));
    }
    r := FirstOne(rows);
  }

  lemma NothingToDelete(db: Tables, table: string, key: Key)
    requires table in db && KeyedRows(db[table], key) == {}
    ensures db[table := db[table] - KeyedRows(db[table], key)] == db
  {
    assert db[table] - {} == db[table];
  }

  method SelectThenDelete(db: Database, msg: GoMsg, dbschema: string, msgName: string, fields: seq<FieldDesc>)
    returns (r: Single)
    modifies db
    ensures DeleteOutcome(old(db.tables), db.tables, BuildDbTableName(msgName, dbschema, db.dialect), msg, fields, r)
  {
    r := DbSelectOne(db, msg, dbschema, msgName, fields);
    if !r.Row? {
      if r.Missing? {
        NothingToDelete(db.tables, BuildDbTableName(msgName, dbschema, db.dialect), KeyOf(msg, fields));
      }
      return;
    }
    var rows := RunDelete(db, msg, dbschema, msgName, fields, false);
  }

  method RunDelete(db: Database, msg: GoMsg, dbschema: string, msgName: string, fields: seq<FieldDesc>,
                   returnDeleted: bool)
    returns (rows: Option<set<ResultRow>>)
    modifies db
    ensures var table := BuildDbTableName(msgName, dbschema, db.dialect);
            if Selectable(old(db.tables), table, msg, fields) then
              var gone := KeyedRows(old(db.tables)[table], KeyOf(msg, fields));
              && db.tables == old(db.tables)[table := old(db.tables)[table] - gone]
              && rows == Some(if returnDeleted && db.dialect != Mysql then Ones(gone) else {})
            else rows.None? && db.tables == old(db.tables)
  {
    ghost var table := BuildDbTableName(msgName, dbschema, db.dialect);
    var built, ks := DbBuildSqlDelete(msg, dbschema, msgName, msgName, fields, db.dialect, returnDeleted);
    if built.Err? {
      return None;
    }
    NumberedStyled(ks, [], db.dialect, 1);
    if table in db.tables {
      var ret := if returnDeleted && db.dialect != Mysql then NewRow else NoRows;
      DeleteMeans(db.tables, table, msg, fields, ks, PlaceholderOf(db.dialect), ret);
    }
    rows := db.Query(built.value);
  }
}
