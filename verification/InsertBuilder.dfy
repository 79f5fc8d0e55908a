/** The insert builder of crud/insert.go: the columns it takes, its text, and the row the
    statement stores. */
module InsertBuilder {
  import opened Prelude
  import opened Sqldb
  import opened Text
  import opened Message
  import opened Sql
  import opened SqlBuilder
  import opened UpdateBuilder
  import opened UpdateMeaning
  import opened UpdateLaws

  // ---------- The statement ----------

  datatype InsertStmt = InsertStmt(table: string, cells: seq<Assign>, returning: bool)

  datatype BuiltInsert = BuiltInsert(sql: string, stmt: InsertStmt, vals: seq<GoVal>)

  function HoleTexts(n: nat, style: PlaceholderStyle): (r: seq<string>)
    ensures |r| == n && forall i :: 0 <= i < n ==> r[i] == HoleText(HoleOf(style, 1 + i))
  {
    seq(n, i requires 0 <= i < n => HoleText(HoleOf(style, 1 + i)))
  }

  /** The text of an insert of the columns, their placeholders numbered from one. */
  function InsertText(table: string, names: seq<string>, style: PlaceholderStyle, returning: bool): string {
    " INSERT INTO " + table + " ( " + Join(names, COMMA) + " ) VALUES ( " + Join(HoleTexts(|names|, style), COMMA)
    + " ) " + (if returning then " RETURNING * " else "") + SEMICOLON
  }

  ghost predicate IsInsert(b: BuiltInsert, table: string, ch: Changes, style: PlaceholderStyle, returning: bool) {
    && b.stmt == InsertStmt(table, Number(ch.names, style, 1), returning)
    && b.vals == ch.vals
    && b.sql == InsertText(table, ch.names, style, returning)
  }

  // ---------- The columns ----------

  predicate WithinLast(f: FieldDesc, last: int) {
    !(last > 0 && f.number > last)
  }

  /** A field the insert gives a value for. */
  predicate Given(f: FieldDesc, last: int) {
    f.pdb.NeedInInsert() && WithinLast(f, last)
  }

  /** What the insert takes of a field: nothing, an argument, or an error. */
  ghost function ColumnOf(msg: GoMsg, f: FieldDesc, last: int, d: Dialect): Result<Option<GoVal>, BuildError>
    requires f.name in msg ==> TypedValue(f, msg[f.name])
  {
    if !f.pdb.NeedInInsert() then Ok(None)
    else if !WithinLast(f, last) then if f.pdb.defaultValue != "" then Ok(None) else Err(NoDefault(f.name))
    else if f.name !in msg then Err(NoSuchField(f.name))
    else
      var arg := ArgFor(f, d, msg[f.name], false);
      if arg.Err? then Err(EncodeFailed(f.name, arg.error)) else Ok(Some(arg.value))
  }

  /** The columns and arguments of the first n fields, or the first error. */
  ghost function Inserting(msg: GoMsg, fields: seq<FieldDesc>, n: nat, last: int,
                           d: Dialect): (r: Result<Changes, BuildError>)
    requires n <= |fields| && Typed(msg, fields)
    ensures r.Ok? ==> |r.value.names| == |r.value.vals|
  {
    if n == 0 then Ok(Changes([], []))
    else
      var front := Inserting(msg, fields, n - 1, last, d);
      if front.Err? then front
      else match ColumnOf(msg, fields[n - 1], last, d)
        case Err(e) => Err(e)
        case Ok(None) => front
        case Ok(Some(v)) => Ok(Changes(front.value.names + [fields[n - 1].name], front.value.vals + [v]))
  }

  lemma {:induction false} InsertingErr(msg: GoMsg, fields: seq<FieldDesc>, n: nat, m: nat, last: int, d: Dialect)
    requires n <= m <= |fields| && Typed(msg, fields)
    requires Inserting(msg, fields, n, last, d).Err?
    ensures Inserting(msg, fields, m, last, d) == Inserting(msg, fields, n, last, d)
    decreases m
  {
    if n < m {
      InsertingErr(msg, fields, n, m - 1, last, d);
    }
  }

  method ColumnArg(msg: GoMsg, f: FieldDesc, last: int, d: Dialect) returns (r: Result<Option<GoVal>, BuildError>)
    requires f.name in msg ==> TypedValue(f, msg[f.name])
    ensures r == ColumnOf(msg, f, last, d)
  {
    if !f.pdb.NeedInInsert() {
      return Ok(None);
    }
    if last > 0 && f.number > last {
      if f.pdb.defaultValue != "" {
        return Ok(None);
      }
      return Err(NoDefault(f.name));
    }
    if f.name !in msg {
      return Err(NoSuchField(f.name));
    }
    var arg := FieldArg(f, d, msg[f.name], false);
    if arg.Err? {
      return Err(EncodeFailed(f.name, arg.error));
    }
    r := Ok(Some(arg.value));
  }

  /** One column name more, after a comma unless it is the first. */
  method WriteColumn(sb: string, firstColumn: bool, name: string, ghost names: seq<string>) returns (sb': string)
    requires sb == Join(names, COMMA) && firstColumn == (names == [])
    ensures sb' == Join(names + [name], COMMA)
  {
    JoinSnoc(names, name, COMMA);
    sb' := sb;
    if !firstColumn {
      sb' := sb' + COMMA;
    }
    sb' := sb' + name;
  }

  /** The column list of the first n fields, with its arguments. */
  ghost predicate ColumnsWritten(msg: GoMsg, fields: seq<FieldDesc>, n: nat, last: int, d: Dialect, sb: string,
                                 vals: seq<GoVal>, names: seq<string>)
    requires n <= |fields| && Typed(msg, fields)
  {
    Inserting(msg, fields, n, last, d) == Ok(Changes(names, vals)) && sb == Join(names, COMMA)
  }

  /** What one field more comes to. */
  lemma OneFieldMore(msg: GoMsg, fields: seq<FieldDesc>, fi: nat, last: int, d: Dialect, names: seq<string>,
                     vals: seq<GoVal>)
    requires fi < |fields| && Typed(msg, fields) && Inserting(msg, fields, fi, last, d) == Ok(Changes(names, vals))
    ensures Inserting(msg, fields, fi + 1, last, d)
            == match ColumnOf(msg, fields[fi], last, d)
               case Err(e) => Err(e)
               case Ok(None) => Ok(Changes(names, vals))
               case Ok(Some(v)) => Ok(Changes(names + [fields[fi].name], vals + [v]))
  {
  }

  /** One field more: it adds a column and an argument, or nothing, or fails. */
  method WriteField(msg: GoMsg, fields: seq<FieldDesc>, fi: nat, last: int, d: Dialect, sb: string, vals: seq<GoVal>,
                    names: seq<string>, firstColumn: bool)
    returns (err: Option<BuildError>, sb': string, vals': seq<GoVal>, names': seq<string>, firstColumn': bool)
    requires fi < |fields| && Typed(msg, fields) && ColumnsWritten(msg, fields, fi, last, d, sb, vals, names)
    requires firstColumn == (names == [])
    ensures firstColumn' == (names' == [])
    ensures match err
            case Some(e) => Inserting(msg, fields, fi + 1, last, d) == Err(e)
            case None => ColumnsWritten(msg, fields, fi + 1, last, d, sb', vals', names')
  {
    OneFieldMore(msg, fields, fi, last, d, names, vals);
    err, sb', vals', names', firstColumn' := None, sb, vals, names, firstColumn;
    var arg := ColumnArg(msg, fields[fi], last, d);
    match arg {
      case Err(e) => err := Some(e);
      case Ok(None) =>
      case Ok(Some(v)) =>
        sb' := WriteColumn(sb, firstColumn, fields[fi].name, names);
        names', vals', firstColumn' := names + [fields[fi].name], vals + [v], false;
    }
  }

  method WriteColumns(msg: GoMsg, fields: seq<FieldDesc>, last: int, d: Dialect)
    returns (err: Option<BuildError>, sb: string, vals: seq<GoVal>, columnCount: nat, names: seq<string>)
    requires Typed(msg, fields)
    ensures match err
            case Some(e) => Inserting(msg, fields, |fields|, last, d) == Err(e)
            case None => && Inserting(msg, fields, |fields|, last, d) == Ok(Changes(names, vals))
                         && sb == Join(names, COMMA) && columnCount == |names|
  {
    err, sb, vals, columnCount, names := None, "", [], 0, [];
    var firstColumn := true;
    for fi := 0 to |fields|
      invariant err == None && ColumnsWritten(msg, fields, fi, last, d, sb, vals, names)
      invariant firstColumn == (names == [])
    {
      err, sb, vals, names, firstColumn := WriteField(msg, fields, fi, last, d, sb, vals, names, firstColumn);
      if err.Some? {
        InsertingErr(msg, fields, fi + 1, |fields|, last, d);
        return;
      }
    }
    columnCount := |names|;
  }

  method WriteHoles(columnCount: nat, style: PlaceholderStyle) returns (sb: string)
    ensures sb == Join(HoleTexts(columnCount, style), COMMA)
  {
    sb := "";
    for i := 0 to columnCount
      invariant sb == Join(HoleTexts(i, style), COMMA)
    {
      assert HoleTexts(i + 1, style) == HoleTexts(i, style) + [HoleText(HoleOf(style, 1 + i))];
      JoinSnoc(HoleTexts(i, style), HoleText(HoleOf(style, 1 + i)), COMMA);
      if i > 0 {
        sb := sb + COMMA;
      }
      var hole, next := WriteHole(style, i + 1);
      sb := sb + hole;
    }
  }

  /** dbBuildSqlInsert. */
  method DbBuildSqlInsert(msg: GoMsg, last: int, dbschema: string, tableName: string, msgName: string,
                          fields: seq<FieldDesc>, d: Dialect, returnInserted: bool)
    returns (r: Result<BuiltInsert, BuildError>)
    requires Typed(msg, fields)
    ensures var ch := Inserting(msg, fields, |fields|, last, d);
            if ch.Err? then r == Err(ch.error)
            else r.Ok?
                 && IsInsert(r.value, BuildDbTableName(NameOr(tableName, msgName), dbschema, d), ch.value,
                             PlaceholderOf(d),
                                   returnInserted && d != Mysql)
  {
    var dbtable := BuildDbTableName(NameOr(tableName, msgName), dbschema, d);
    var style := PlaceholderOf(d);
    var returning := returnInserted && d != Mysql;
    var err, cols, vals, columnCount, names := WriteColumns(msg, fields, last, d);
    if err.Some? {
      return Err(err.value);
    }
    var holes := WriteHoles(columnCount, style);
    var sql := " INSERT INTO " + dbtable + " ( " + cols + " ) VALUES ( " + holes
      + " ) " + (if returning then " RETURNING * " else "") + SEMICOLON;
    r := Ok(BuiltInsert(sql, InsertStmt(dbtable, Number(names, style, 1), returning), vals));
  }

  // ---------- What the statement stores ----------

  /** What a server decides about an insert: whether it refuses it, the cells of columns that are
      left out, and the number its generating column takes next. */
  datatype Server = Server(refuses: bool, filled: Row, auto: Option<string>, id: nat)

  /** MySQL generates a number when its generating column is left out, NULL or zero. */
  predicate Generates(s: Server, given: Row) {
    s.auto.Some? && (s.auto.value in given ==> given[s.auto.value] == Null || given[s.auto.value] == Val(Int(0)))
  }

  function StoredRow(given: Row, s: Server): Row {
    var row := s.filled + given;
    if Generates(s, given) then row[s.auto.value := Val(Int(s.id))] else row
  }

  /** MySQL has no RETURNING, and PostgreSQL alone has numbered placeholders. */
  predicate InsertSupported(d: Dialect, st: InsertStmt) {
    (st.returning ==> d != Mysql) && Styled(HolesOf(st.cells), d == Postgres)
  }

  /** The row an insert adds. Only MySQL takes an empty list of columns. */
  function EvalInsert(db: Tables, st: InsertStmt, args: seq<GoVal>, d: Dialect, s: Server): Option<Row> {
    if s.refuses || st.table !in db || !Binds(HolesOf(st.cells), args) || (st.cells == [] && d != Mysql)
       || !InsertSupported(d, st)
    then None
    else Some(StoredRow(Changed(map[], st.cells, Cells(HolesOf(st.cells), args)), s))
  }

  function GivenCells(ch: Changes): Row
    requires |ch.names| == |ch.vals|
  {
    ChangeMap(ch.names, ch.vals)
  }

  ghost predicate Accepts(db: Tables, table: string, ch: Changes, d: Dialect, s: Server) {
    !s.refuses && table in db && (ch.names == [] ==> d == Mysql)
  }

  lemma GivenMeans(ch: Changes, style: PlaceholderStyle)
    requires |ch.names| == |ch.vals|
    ensures Binds(HolesOf(Number(ch.names, style, 1)), ch.vals)
    ensures Changed(map[], Number(ch.names, style, 1), Cells(HolesOf(Number(ch.names, style, 1)), ch.vals))
            == GivenCells(ch)
  {
    var empty: Row := map[];
    CellsAlone(ch.names, style, ch.vals);
    SetListMeansChanges(empty, ch.names, ch.vals, style, 1);
    assert empty + GivenCells(ch) == GivenCells(ch);
  }

  lemma StatementMeans(db: Tables, table: string, ch: Changes, d: Dialect, returning: bool, s: Server)
    requires |ch.names| == |ch.vals| && (returning ==> d != Mysql)
    ensures EvalInsert(db, InsertStmt(table, Number(ch.names, PlaceholderOf(d), 1), returning), ch.vals, d, s)
         == if Accepts(db, table, ch, d, s) then Some(StoredRow(GivenCells(ch), s)) else None
  {
    GivenMeans(ch, PlaceholderOf(d));
    assert Number(ch.names, PlaceholderOf(d), 1) == [] <==> |ch.names| == 0;
  }

  /** An accepted insert stores each argument in its column, and leaves the others to the server. */
  lemma InsertMeans(db: Tables, b: BuiltInsert, table: string, ch: Changes, d: Dialect, returning: bool, s: Server)
    requires |ch.names| == |ch.vals| && IsInsert(b, table, ch, PlaceholderOf(d), returning)
    requires returning ==> d != Mysql
    ensures EvalInsert(db, b.stmt, b.vals, d, s)
            == if Accepts(db, table, ch, d, s) then Some(StoredRow(GivenCells(ch), s)) else None
  {
    StatementMeans(db, table, ch, d, returning, s);
  }

  // ---------- Which fields are stored ----------

  /** The value stored for a field the insert gives. */
  ghost function StoredCell(msg: GoMsg, f: FieldDesc, d: Dialect): Cell
    requires Sendable(msg, f, d, false)
  {
    ToCell(ArgFor(f, d, msg[f.name], false).value)
  }

  ghost predicate CellsOfGiven(m: Row, msg: GoMsg, fields: seq<FieldDesc>, n: nat, last: int, d: Dialect)
    requires n <= |fields|
  {
    && (forall i :: 0 <= i < n && Given(fields[i], last) ==>
          Sendable(msg, fields[i], d, false) && fields[i].name in m
            && m[fields[i].name] == StoredCell(msg, fields[i], d))
    && (forall c :: c in m ==> exists i :: 0 <= i < n && Given(fields[i], last) && fields[i].name == c)
  }

  /** An insert can be built exactly when every field it gives can be sent, and every field above
      the last number that an insert needs has a default. */
  lemma {:induction false} InsertableIff(msg: GoMsg, fields: seq<FieldDesc>, n: nat, last: int, d: Dialect)
    requires n <= |fields| && Typed(msg, fields)
    ensures Inserting(msg, fields, n, last, d).Ok? <==>
            forall i :: 0 <= i < n && fields[i].pdb.NeedInInsert() ==>
              if WithinLast(fields[i], last) then Sendable(msg, fields[i], d, false)
              else fields[i].pdb.defaultValue != ""
    decreases n
  {
    if n > 0 {
      InsertableIff(msg, fields, n - 1, last, d);
    }
  }

  lemma GivenNext(m: Row, msg: GoMsg, fields: seq<FieldDesc>, n: nat, last: int, d: Dialect)
    requires 0 < n <= |fields| && DistinctNames(fields) && CellsOfGiven(m, msg, fields, n - 1, last, d)
    requires Given(fields[n - 1], last) ==> Sendable(msg, fields[n - 1], d, false)
    ensures CellsOfGiven(if Given(fields[n - 1], last) then m[fields[n - 1].name := StoredCell(msg, fields[n - 1], d)]
                         else m,
                         msg, fields, n, last, d)
  {
    var f := fields[n - 1];
    if Given(f, last) {
      var after := m[f.name := StoredCell(msg, f, d)];
      forall c | c in after
        ensures exists i :: 0 <= i < n && Given(fields[i], last) && fields[i].name == c
      {
        if c != f.name {
          var i :| 0 <= i < n - 1 && Given(fields[i], last) && fields[i].name == c;
        }
      }
      forall i | 0 <= i < n - 1 && Given(fields[i], last)
        ensures fields[i].name in after && after[fields[i].name] == StoredCell(msg, fields[i], d)
      {
        assert fields[i].name != f.name;
      }
    }
  }

  lemma InsertingStep(msg: GoMsg, fields: seq<FieldDesc>, n: nat, last: int, d: Dialect)
    requires 0 < n <= |fields| && Typed(msg, fields) && Inserting(msg, fields, n, last, d).Ok?
    ensures Inserting(msg, fields, n - 1, last, d).Ok?
    ensures var f := fields[n - 1];
            && (Given(f, last) ==> Sendable(msg, f, d, false))
            && GivenCells(Inserting(msg, fields, n, last, d).value)
               == var before := GivenCells(Inserting(msg, fields, n - 1, last, d).value);
                  if Given(f, last) then before[f.name := StoredCell(msg, f, d)] else before
  {
    var front, f := Inserting(msg, fields, n - 1, last, d).value, fields[n - 1];
    if Given(f, last) {
      ChangeMapSnoc(front.names, front.vals, f.name, ArgFor(f, d, msg[f.name], false).value);
    }
  }

  /** The insert gives exactly the needed fields up to the last number, each with its argument. */
  lemma {:induction false} GivenAreNeeded(msg: GoMsg, fields: seq<FieldDesc>, n: nat, last: int, d: Dialect)
    requires n <= |fields| && Typed(msg, fields) && DistinctNames(fields) && Inserting(msg, fields, n, last, d).Ok?
    ensures CellsOfGiven(GivenCells(Inserting(msg, fields, n, last, d).value), msg, fields, n, last, d)
    decreases n
  {
    if n > 0 {
      InsertingStep(msg, fields, n, last, d);
      GivenAreNeeded(msg, fields, n - 1, last, d);
      GivenNext(GivenCells(Inserting(msg, fields, n - 1, last, d).value), msg, fields, n, last, d);
    }
  }
}
