/** Inserts that return the stored row (crud/insert.go, crud/mysql_fallback.go). Where there is no
    RETURNING, the key is completed with the last insert id and the row is selected by its key. */
module Inserts {
  import opened Prelude
  import opened Sqldb
  import opened Text
  import opened Message
  import opened Sql
  import opened Codec
  import opened UpdateBuilder
  import opened UpdateMeaning
  import opened UpdateLaws
  import opened StoredValues
  import opened InsertBuilder
  import opened Crud

  // ---------- The missing key ----------

  datatype PopulateError = NoKey | SeveralMissing | NoLastInsertId | NegativeId | UnsupportedKind

  /** isZeroPrimaryKeyValue. A field with presence reads as its default when it is unset. */
  predicate ZeroKey(kind: Kind, v: GoVal) {
    if kind in {FloatKind, DoubleKind, MessageKind} then false
    else match v
      case NilPtr => true
      case Ptr(t) => ZeroKey(kind, t)
      case Int(n) => n == 0
      case Enum(n, _) => n == 0
      case Str(s) => s == ""
      case Bool(b) => !b
      case Bytes(bs) => bs == []
      case _ => false
  }

  predicate Missing(msg: GoMsg, fields: seq<FieldDesc>, c: string)
    requires c in KeyFields(fields)
  {
    c in msg && ZeroKey(KeyFields(fields)[c].kind, msg[c])
  }

  function MissingKeys(msg: GoMsg, fields: seq<FieldDesc>): set<string> {
    set c | c in KeyFields(fields).Keys && Missing(msg, fields, c)
  }

  /** A field set to an integer, keeping its presence. */
  function WithInt(v: GoVal, n: int): GoVal {
    if v.Ptr? || v == NilPtr then Ptr(Int(n)) else Int(n)
  }

  /** The message with its missing key field set to the last insert id, cast to the field's kind. */
  function FromId(msg: GoMsg, kind: Kind, c: string, lastInsertId: Option<int>): Result<GoMsg, PopulateError>
    requires c in msg
  {
    if lastInsertId.None? then Err(NoLastInsertId)
    else if !IntegerKind(kind) then Err(UnsupportedKind)
    else if kind in {Uint32Kind, Uint64Kind} && lastInsertId.value < 0 then Err(NegativeId)
    else Ok(msg[c := WithInt(msg[c], CastTo(kind, lastInsertId.value))])
  }

  ghost function Pick(z: set<string>): (c: string)
    requires z != {}
    ensures c in z
  {
    var c :| c in z;
    c
  }

  ghost function Populated(msg: GoMsg, fields: seq<FieldDesc>, lastInsertId: Option<int>): Result<GoMsg, PopulateError>
  {
    var z := MissingKeys(msg, fields);
    if KeyFields(fields) == map[] then Err(NoKey)
    else if z == {} then Ok(msg)
    else if z != {Pick(z)} then Err(SeveralMissing)
    else FromId(msg, KeyFields(fields)[Pick(z)].kind, Pick(z), lastInsertId)
  }

  /** mysqlPopulateInsertPrimaryKey, walking the key map in any order. */
  method MysqlPopulateInsertPrimaryKey(msg: GoMsg, fields: seq<FieldDesc>, lastInsertId: Option<int>)
    returns (r: Result<GoMsg, PopulateError>)
    ensures r == Populated(msg, fields, lastInsertId)
  {
    var primaryKeyFields := KeyFields(fields);
    if primaryKeyFields == map[] {
      return Err(NoKey);
    }
    var allKeysPresent := true;
    var missingField: Option<string> := None;
    var remaining := primaryKeyFields.Keys;
    ghost var z := MissingKeys(msg, fields);
    while remaining != {}
      invariant remaining <= primaryKeyFields.Keys && allKeysPresent == missingField.None?
      invariant forall c :: c in z - remaining <==> missingField == Some(c)
      decreases remaining
    {
      var c :| c in remaining;
      remaining := remaining - {c};
      if c in msg && ZeroKey(primaryKeyFields[c].kind, msg[c]) {
        allKeysPresent := false;
        if missingField.Some? {
          assert c in z && missingField.value in z && c != missingField.value;
          return Err(SeveralMissing);
        }
        missingField := Some(c);
      }
    }
    assert z - remaining == z;
    if allKeysPresent {
      return Ok(msg);
    }
    var c := missingField.value;
    assert z == {c} && Pick(z) == c;
    if lastInsertId.None? {
      return Err(NoLastInsertId);
    }
    r := SetFromId(msg, primaryKeyFields[c].kind, c, lastInsertId.value);
  }

  method SetFromId(msg: GoMsg, kind: Kind, c: string, lastInsertId: int) returns (r: Result<GoMsg, PopulateError>)
    requires c in msg
    ensures r == FromId(msg, kind, c, Some(lastInsertId))
  {
    match kind {
      case Int32Kind => r := Ok(msg[c := WithInt(msg[c], ToSigned32(lastInsertId))]);
      case Int64Kind => r := Ok(msg[c := WithInt(msg[c], lastInsertId)]);
      case Uint32Kind =>
        if lastInsertId < 0 {
          return Err(NegativeId);
        }
        r := Ok(msg[c := WithInt(msg[c], lastInsertId % TWO32)]);
      case Uint64Kind =>
        if lastInsertId < 0 {
          return Err(NegativeId);
        }
        r := Ok(msg[c := WithInt(msg[c], lastInsertId % TWO64)]);
      case _ => r := Err(UnsupportedKind);
    }
  }

  // ---------- Insert and return ----------

  /** The id the driver reports: what the generating column received, as an int64; 0 without one. */
  function LastInsertId(row: Row, s: Server): int {
    if s.auto.None? || s.auto.value !in row then 0
    else
      match row[s.auto.value]
      case Val(Int(n)) => ToSigned64(n)
      case _ => 0
  }

  /** Runs a built insert. */
  method Exec(db: Database, b: BuiltInsert, s: Server) returns (row: Option<Row>, lastInsertId: int)
    modifies db
    ensures row == EvalInsert(old(db.tables), b.stmt, b.vals, db.dialect, s)
    ensures row.Some? ==> lastInsertId == LastInsertId(row.value, s)
    ensures db.tables == if row.None? then old(db.tables)
                         else old(db.tables)[b.stmt.table := old(db.tables)[b.stmt.table] + {row.value}]
  {
    row, lastInsertId := EvalInsert(db.tables, b.stmt, b.vals, db.dialect, s), 0;
    if row.Some? {
      lastInsertId := LastInsertId(row.value, s);
      db.tables := db.tables[b.stmt.table := db.tables[b.stmt.table] + {row.value}];
    }
  }

  /** How an insert that returns the row ends. The second table is the one selected from. */
  ghost predicate InsertOutcome(before: Tables, after: Tables, d: Dialect, table: string, selected: string, msg: GoMsg,
                                msg': GoMsg, fields: seq<FieldDesc>, last: int, s: Server, r: Single)
    requires Typed(msg, fields)
  {
    var ch := Inserting(msg, fields, |fields|, last, d);
    if ch.Err? || !Accepts(before, table, ch.value, d, s) then after == before && msg' == msg && r == Refused
    else
      var row := StoredRow(GivenCells(ch.value), s);
      && after == before[table := before[table] + {row}]
      && if d != Mysql then r == Row(row) && msg' == msg
         else Selects(Populated(msg, fields, Some(LastInsertId(row, s))), after, selected, msg, msg', fields, r)
  }

  ghost predicate Selects(p: Result<GoMsg, PopulateError>, after: Tables, selected: string, msg: GoMsg, msg': GoMsg,
                          fields: seq<FieldDesc>, r: Single)
  {
    match p
    case Err(_) => r == Refused && msg' == msg
    case Ok(m) => msg' == m && SelectOutcome(after, selected, m, fields, r)
  }

  // ---------- What is stored, said of the message ----------

  /** The insert gives the field: it is stored and insertable, is not serial, and within the last number. */
  predicate Inserted(f: FieldDesc, last: int) {
    !f.pdb.notDB && !f.pdb.noInsert && !f.pdb.serial && (last <= 0 || f.number <= last)
  }

  /** The insert can be made: the table exists, the server takes it, every field it gives can be sent,
      and a field above the last number has a default; only MySQL takes an insert of no column. */
  ghost predicate CanInsert(before: Tables, table: string, msg: GoMsg, fields: seq<FieldDesc>, last: int, d: Dialect,
                            s: Server)
  {
    && !s.refuses && table in before
    && (forall i :: 0 <= i < |fields| && Inserted(fields[i], last) ==>
          fields[i].name in msg && Encodable(fields[i], msg[fields[i].name]))
    && (forall i :: 0 <= i < |fields| && Inserted(fields[i], 0) && !Inserted(fields[i], last) ==>
          fields[i].pdb.defaultValue != "")
    && (d == Mysql || exists i :: 0 <= i < |fields| && Inserted(fields[i], last))
  }

  /** A generating column that receives nothing or zero gets the generated number. */
  predicate Received(s: Server, c: string, cell: Cell, stored: Cell) {
    stored == if s.auto == Some(c) && (cell == Null || cell == Val(Int(0))) then Val(Int(s.id)) else cell
  }

  predicate InsertsColumn(f: FieldDesc, last: int, c: string) {
    Inserted(f, last) && f.name == c
  }

  /** Every field given is stored as its options say, every other column as the server fills it. */
  ghost predicate RowInserted(row: Row, msg: GoMsg, fields: seq<FieldDesc>, last: int, d: Dialect, s: Server) {
    && (forall i :: 0 <= i < |fields| && Inserted(fields[i], last) ==>
          var c := fields[i].name;
          && c in msg && c in row
          && exists cell :: StoredAs(fields[i], d, msg[c], cell) && Received(s, c, cell, row[c]))
    && (forall c ::
          || (exists i :: 0 <= i < |fields| && InsertsColumn(fields[i], last, c))
          || (if s.auto == Some(c) then c in row && row[c] == Val(Int(s.id)) else SameCell(c, s.filled, row)))
  }

  /** A value that no key has: nothing, 0, an empty text or no bytes, and false; floating-point numbers
      and messages always count as set. */
  predicate Blank(kind: Kind, v: GoVal) {
    && kind != FloatKind && kind != DoubleKind && kind != MessageKind
    && (|| v in {NilPtr, Int(0), Enum(0, false), Enum(0, true), Str(""), Bool(false), Bytes([])}
        || (v.Ptr? && Blank(kind, v.target)))
  }

  predicate BlankKey(msg: GoMsg, f: FieldDesc) {
    f.pdb.primary && f.name in msg && Blank(f.kind, msg[f.name])
  }

  /** The field is set to the id, of which a 32-bit field takes the low bits; presence is kept. */
  ghost predicate SetTo(kind: Kind, id: int, v: GoVal, v': GoVal) {
    exists n :: v' == (if v == NilPtr || v.Ptr? then Ptr(Int(n)) else Int(n))
      && (-TWO63 <= id < TWO63 ==>
            InKind(kind, n) && if kind == Int64Kind || kind == Uint64Kind then n == id else (n - id) % TWO32 == 0)
  }

  predicate TakesId(kind: Kind, id: int) {
    IntegerKind(kind) && (kind == Uint32Kind || kind == Uint64Kind ==> id >= 0)
  }

  /** The one blank key field is set to the id, and the message's key is selected; without a key, with
      two blank fields or one that cannot take the id, an error is reported. */
  ghost predicate CompletedSays(after: Tables, selected: string, msg: GoMsg, msg': GoMsg, fields: seq<FieldDesc>,
                                id: int, r: Single)
  {
    if forall i :: 0 <= i < |fields| ==> !fields[i].pdb.primary then r == Refused && msg' == msg
    else if forall i :: 0 <= i < |fields| ==> !BlankKey(msg, fields[i]) then
      msg' == msg && SelectSays(after, selected, msg, fields, r)
    else if exists i, j :: 0 <= i < j < |fields| && BlankKey(msg, fields[i]) && BlankKey(msg, fields[j]) then
      r == Refused && msg' == msg
    else exists i :: 0 <= i < |fields| && BlankKey(msg, fields[i]) && OneBlankSays(after, selected, msg, msg', fields,
                                                                                    id, r, i)
  }

  ghost predicate OneBlankSays(after: Tables, selected: string, msg: GoMsg, msg': GoMsg, fields: seq<FieldDesc>,
                               id: int, r: Single, i: nat)
    requires i < |fields|
  {
    var c, kind := fields[i].name, fields[i].kind;
    if !TakesId(kind, id) then r == Refused && msg' == msg
    else
      && c in msg && c in msg' && msg' == msg[c := msg'[c]] && SetTo(kind, id, msg[c], msg'[c])
      && SelectSays(after, selected, msg', fields, r)
  }

  /** One row is added, said of the message. It is reported where the server returns it; on MySQL the
      message's key is completed and selected. */
  ghost predicate InsertSays(before: Tables, after: Tables, table: string, selected: string, msg: GoMsg, msg': GoMsg,
                             fields: seq<FieldDesc>, last: int, d: Dialect, s: Server, r: Single)
  {
    if CanInsert(before, table, msg, fields, last, d, s) then
      exists row :: && after == before[table := before[table] + {row}] && RowInserted(row, msg, fields, last, d, s)
                    && if d != Mysql then r == Row(row) && msg' == msg
                       else CompletedSays(after, selected, msg, msg', fields, LastInsertId(row, s), r)
    else after == before && r == Refused && msg' == msg
  }

  lemma {:induction false} BlankIsZero(kind: Kind, v: GoVal)
    ensures Blank(kind, v) <==> ZeroKey(kind, v)
  {
    if v.Ptr? {
      BlankIsZero(kind, v.target);
    }
  }

  lemma {:induction false} BlankIsMissing(msg: GoMsg, fields: seq<FieldDesc>)
    requires DistinctNames(fields)
    ensures forall i :: 0 <= i < |fields| ==> (BlankKey(msg, fields[i]) <==> fields[i].name in MissingKeys(msg, fields))
    ensures forall i :: 0 <= i < |fields| && fields[i].pdb.primary ==>
              fields[i].name in KeyFields(fields) && KeyFields(fields)[fields[i].name] == fields[i]
    ensures forall c :: c in MissingKeys(msg, fields) ==> exists i :: 0 <= i < |fields| && fields[i].name == c
  {
    forall i | 0 <= i < |fields|
      ensures BlankKey(msg, fields[i]) <==> fields[i].name in MissingKeys(msg, fields)
      ensures fields[i].pdb.primary ==>
                fields[i].name in KeyFields(fields) && KeyFields(fields)[fields[i].name] == fields[i]
    {
      KeyFieldAt(fields, i);
      if fields[i].name in msg {
        BlankIsZero(fields[i].kind, msg[fields[i].name]);
      }
    }
    forall c | c in MissingKeys(msg, fields)
      ensures exists i :: 0 <= i < |fields| && fields[i].name == c
    {
      var i := KeyFieldIndex(fields, c);
    }
  }

  lemma CastSets(kind: Kind, id: int, v: GoVal)
    requires TakesId(kind, id)
    ensures SetTo(kind, id, v, WithInt(v, CastTo(kind, id)))
  {
    var n := CastTo(kind, id);
    assert -TWO63 <= id < TWO63 ==> InKind(kind, n);
    assert WithInt(v, n) == if v == NilPtr || v.Ptr? then Ptr(Int(n)) else Int(n);
    if kind == Int32Kind || kind == Uint32Kind {
      assert (n - id) % TWO32 == 0;
    }
  }

  lemma {:induction false} OneBlank(after: Tables, selected: string, msg: GoMsg, msg': GoMsg, fields: seq<FieldDesc>,
                                    id: int, r: Single, i: nat)
    requires DistinctNames(fields) && i < |fields| && fields[i].name in msg
    requires fields[i].name in KeyFields(fields) && KeyFields(fields)[fields[i].name] == fields[i]
    requires MissingKeys(msg, fields) == {fields[i].name}
    requires Selects(Populated(msg, fields, Some(id)), after, selected, msg, msg', fields, r)
    ensures OneBlankSays(after, selected, msg, msg', fields, id, r, i)
  {
    var c, kind := fields[i].name, fields[i].kind;
    assert Pick(MissingKeys(msg, fields)) == c;
    if TakesId(kind, id) {
      CastSets(kind, id, msg[c]);
      SelectOutcomeSays(after, selected, msg', fields, r);
    }
  }

  /** How the completed key is selected, said of the message. */
  lemma CompletedMeans(after: Tables, selected: string, msg: GoMsg, msg': GoMsg, fields: seq<FieldDesc>, id: int,
                       r: Single)
    requires DistinctNames(fields) && Selects(Populated(msg, fields, Some(id)), after, selected, msg, msg', fields, r)
    ensures CompletedSays(after, selected, msg, msg', fields, id, r)
  {
    var z := MissingKeys(msg, fields);
    BlankIsMissing(msg, fields);
    HasKeysMeans(msg, fields);
    if KeyFields(fields) != map[] {
      if z == {} {
        SelectOutcomeSays(after, selected, msg', fields, r);
      } else {
        var c := Pick(z);
        var i :| 0 <= i < |fields| && fields[i].name == c;
        assert BlankKey(msg, fields[i]);
        if z == {c} {
          forall j | 0 <= j < |fields| && BlankKey(msg, fields[j])
            ensures j == i
          {
          }
          OneBlank(after, selected, msg, msg', fields, id, r, i);
        } else {
          SecondBlank(msg, fields, i);
        }
      }
    }
  }

  lemma SecondBlank(msg: GoMsg, fields: seq<FieldDesc>, i: nat)
    requires DistinctNames(fields) && i < |fields| && BlankKey(msg, fields[i])
    requires MissingKeys(msg, fields) != {fields[i].name}
    ensures exists k, j :: 0 <= k < j < |fields| && BlankKey(msg, fields[k]) && BlankKey(msg, fields[j])
  {
    BlankIsMissing(msg, fields);
    var d :| d in MissingKeys(msg, fields) && d != fields[i].name;
    var j :| 0 <= j < |fields| && fields[j].name == d;
    assert BlankKey(msg, fields[j]);
    if i < j {
      assert BlankKey(msg, fields[i]) && BlankKey(msg, fields[j]);
    } else {
      assert BlankKey(msg, fields[j]) && BlankKey(msg, fields[i]);
    }
  }

  lemma InsertedRow(given: Row, msg: GoMsg, fields: seq<FieldDesc>, last: int, d: Dialect, s: Server)
    requires DistinctNames(fields) && CellsOfGiven(given, msg, fields, |fields|, last, d)
    ensures RowInserted(StoredRow(given, s), msg, fields, last, d, s)
  {
    var row := StoredRow(given, s);
    forall i | 0 <= i < |fields| && Inserted(fields[i], last)
      ensures var c := fields[i].name;
              && c in msg && c in row
              && exists cell :: StoredAs(fields[i], d, msg[c], cell) && Received(s, c, cell, row[c])
    {
      var c := fields[i].name;
      assert Given(fields[i], last);
      SentIsStored(fields[i], d, msg[c]);
      assert StoredAs(fields[i], d, msg[c], given[c]) && Received(s, c, given[c], row[c]);
    }
    forall c | c in given
      ensures exists i :: 0 <= i < |fields| && InsertsColumn(fields[i], last, c)
    {
      var i :| 0 <= i < |fields| && Given(fields[i], last) && fields[i].name == c;
      assert InsertsColumn(fields[i], last, c);
    }
  }

  lemma {:induction false} SomethingInserted(msg: GoMsg, fields: seq<FieldDesc>, n: nat, last: int, d: Dialect)
    requires n <= |fields| && Typed(msg, fields) && Inserting(msg, fields, n, last, d).Ok?
    ensures Inserting(msg, fields, n, last, d).value.names != []
            <==> exists i :: 0 <= i < n && Inserted(fields[i], last)
    decreases n
  {
    if n > 0 {
      SomethingInserted(msg, fields, n - 1, last, d);
      assert Inserted(fields[n - 1], last) || !Inserted(fields[n - 1], last);
    }
  }

  lemma {:induction false} InsertableMeans(msg: GoMsg, fields: seq<FieldDesc>, last: int, d: Dialect)
    requires Typed(msg, fields)
    ensures Inserting(msg, fields, |fields|, last, d).Ok? <==>
            && (forall i :: 0 <= i < |fields| && Inserted(fields[i], last) ==>
                  fields[i].name in msg && Encodable(fields[i], msg[fields[i].name]))
            && (forall i :: 0 <= i < |fields| && Inserted(fields[i], 0) && !Inserted(fields[i], last) ==>
                  fields[i].pdb.defaultValue != "")
  {
    InsertableIff(msg, fields, |fields|, last, d);
    forall i | 0 <= i < |fields| && fields[i].name in msg
      ensures Sendable(msg, fields[i], d, false) <==> Encodable(fields[i], msg[fields[i].name])
    {
      EncodableMeans(fields[i], d, msg[fields[i].name]);
    }
  }

  lemma {:induction false} CanInsertMeans(before: Tables, d: Dialect, table: string, msg: GoMsg, fields: seq<FieldDesc>,
                                          last: int, s: Server)
    requires Typed(msg, fields)
    ensures CanInsert(before, table, msg, fields, last, d, s) <==>
            && Inserting(msg, fields, |fields|, last, d).Ok?
            && Accepts(before, table, Inserting(msg, fields, |fields|, last, d).value, d, s)
  {
    InsertableMeans(msg, fields, last, d);
    if Inserting(msg, fields, |fields|, last, d).Ok? {
      SomethingInserted(msg, fields, |fields|, last, d);
    }
  }

  lemma InsertOutcomeSays(before: Tables, after: Tables, d: Dialect, table: string, selected: string, msg: GoMsg,
                          msg': GoMsg, fields: seq<FieldDesc>, last: int, s: Server, r: Single)
    requires Typed(msg, fields) && DistinctNames(fields)
    requires InsertOutcome(before, after, d, table, selected, msg, msg', fields, last, s, r)
    ensures InsertSays(before, after, table, selected, msg, msg', fields, last, d, s, r)
  {
    CanInsertMeans(before, d, table, msg, fields, last, s);
    if CanInsert(before, table, msg, fields, last, d, s) {
      var ch := Inserting(msg, fields, |fields|, last, d).value;
      GivenAreNeeded(msg, fields, |fields|, last, d);
      InsertedRow(GivenCells(ch), msg, fields, last, d, s);
      var row := StoredRow(GivenCells(ch), s);
      if d == Mysql {
        CompletedMeans(after, selected, msg, msg', fields, LastInsertId(row, s), r);
      }
      assert after == before[table := before[table] + {row}] && RowInserted(row, msg, fields, last, d, s);
    }
  }

  /** dbInsertReturn. On MySQL the caller's message is changed as well. */
  method DbInsertReturn(db: Database, msg: GoMsg, last: int, dbschema: string, tableName: string, msgName: string,
                        fields: seq<FieldDesc>, s: Server) returns (r: Single, msg': GoMsg)
    requires Typed(msg, fields)
    modifies db
    ensures InsertOutcome(old(db.tables), db.tables, db.dialect,
                          BuildDbTableName(NameOr(tableName, msgName), dbschema, db.dialect),
                          BuildDbTableName(tableName, dbschema, db.dialect), msg, msg', fields, last, s, r)
    ensures DistinctNames(fields) ==>
              var table := BuildDbTableName(if tableName == "" then msgName else tableName, dbschema, db.dialect);
              InsertSays(old(db.tables), db.tables, table, BuildDbTableName(tableName, dbschema, db.dialect), msg, msg',
                         fields, last, db.dialect, s, r)
  {
    r, msg' := InsertAndSelect(db, msg, last, dbschema, tableName, msgName, fields, s);
    if DistinctNames(fields) {
      InsertOutcomeSays(old(db.tables), db.tables, db.dialect,
                        BuildDbTableName(NameOr(tableName, msgName), dbschema, db.dialect),
                        BuildDbTableName(tableName, dbschema, db.dialect), msg, msg', fields, last, s, r);
    }
  }

  method InsertAndSelect(db: Database, msg: GoMsg, last: int, dbschema: string, tableName: string, msgName: string,
                         fields: seq<FieldDesc>, s: Server) returns (r: Single, msg': GoMsg)
    requires Typed(msg, fields)
    modifies db
    ensures InsertOutcome(old(db.tables), db.tables, db.dialect,
                          BuildDbTableName(NameOr(tableName, msgName), dbschema, db.dialect),
                          BuildDbTableName(tableName, dbschema, db.dialect), msg, msg', fields, last, s, r)
  {
    ghost var table := BuildDbTableName(NameOr(tableName, msgName), dbschema, db.dialect);
    msg' := msg;
    var built := DbBuildSqlInsert(msg, last, dbschema, tableName, msgName, fields, db.dialect, true);
    if built.Err? {
      return Refused, msg';
    }
    ghost var ch := Inserting(msg, fields, |fields|, last, db.dialect).value;
    InsertMeans(db.tables, built.value, table, ch, db.dialect, db.dialect != Mysql, s);
    var row, id := Exec(db, built.value, s);
    if row.None? {
      return Refused, msg';
    }
    if db.dialect != Mysql {
      return Row(row.value), msg';
    }
    var populated := MysqlPopulateInsertPrimaryKey(msg, fields, Some(id));
    if populated.Err? {
      return Refused, msg';
    }
    msg' := populated.value;
    r := DbSelectOne(db, msg', dbschema, tableName, fields);
  }

  // ---------- When the selected row is the stored one ----------

  /** The message's key, completed, is the key of the stored row. */
  ghost predicate Recognised(msg: GoMsg, fields: seq<FieldDesc>, row: Row, s: Server) {
    var p := Populated(msg, fields, Some(LastInsertId(row, s)));
    p.Ok? && HasKey(row, KeyOf(p.value, fields))
  }

  /** Without RETURNING, the stored row is reported exactly when the completed key is its key; in
      every other case the row is stored, and an error, another row or no row is reported. */
  lemma {:induction false} ReportsStoredIff(before: Tables, after: Tables, table: string, msg: GoMsg, msg': GoMsg,
                                            fields: seq<FieldDesc>, last: int, s: Server, r: Single)
    requires Typed(msg, fields) && InsertOutcome(before, after, Mysql, table, table, msg, msg', fields, last, s, r)
    requires Inserting(msg, fields, |fields|, last, Mysql).Ok?
             && Accepts(before, table, Inserting(msg, fields, |fields|, last, Mysql).value, Mysql, s)
    requires KeyUnique(after[table], KeyFields(fields).Keys)
    ensures var row := StoredRow(GivenCells(Inserting(msg, fields, |fields|, last, Mysql).value), s);
            row in after[table] && (r == Row(row) <==> Recognised(msg, fields, row, s))
  {
    var row := StoredRow(GivenCells(Inserting(msg, fields, |fields|, last, Mysql).value), s);
    var p := Populated(msg, fields, Some(LastInsertId(row, s)));
    if p.Ok? && HasKey(row, KeyOf(p.value, fields)) {
      forall c | c in KeyFields(fields).Keys
        ensures c in p.value
      {
        assert c in KeyOf(p.value, fields);
      }
      assert row in KeyedRows(after[table], KeyOf(p.value, fields));
      if r.Row? {
        SameKeySameRow(after[table], row, r.row, p.value, fields);
      }
    }
  }

  /** The table has the generating column the fields declare, and generates positive ids that fit it. */
  ghost predicate Admissible(s: Server, fields: seq<FieldDesc>) {
    && (forall i :: 0 <= i < |fields| ==> (fields[i].pdb.serial <==> s.auto == Some(fields[i].name)))
    && (s.auto.Some? ==> exists i :: 0 <= i < |fields| && fields[i].name == s.auto.value)
    && (forall i :: 0 <= i < |fields| && fields[i].pdb.serial ==> InKind(fields[i].kind, s.id))
    && 0 < s.id < TWO63
  }

  /** At most one field is serial, and it is an integer. */
  ghost predicate SerialOk(fields: seq<FieldDesc>) {
    && (forall i :: 0 <= i < |fields| && fields[i].pdb.serial ==> IntegerKind(fields[i].kind))
    && (forall i, j :: 0 <= i < |fields| && 0 <= j < |fields| && fields[i].pdb.serial && fields[j].pdb.serial ==>
        i == j)
  }

  predicate HasSerial(fields: seq<FieldDesc>) {
    exists i :: 0 <= i < |fields| && fields[i].pdb.serial
  }

  /** The caller knows this key field: a serial one is left at zero, any other is stored as it is. */
  ghost predicate KeyKnown(msg: GoMsg, f: FieldDesc, last: int)
    requires f.name in msg
  {
    var v := msg[f.name];
    if f.pdb.serial then ZeroKey(f.kind, v)
    else
      && Given(f, last) && Sendable(msg, f, Mysql, false)
      && StoredCell(msg, f, Mysql) == (if ZeroKey(f.kind, v) then Val(Int(0)) else ToCell(v))
      && StoredCell(msg, f, Mysql) != Null
  }

  /** The key field that reads as zero: there is one at most, an integer, and it is the serial
      field if there is one. */
  ghost predicate ZeroAllowed(msg: GoMsg, fields: seq<FieldDesc>) {
    forall c :: c in MissingKeys(msg, fields) ==>
      && MissingKeys(msg, fields) == {c} && IntegerKind(KeyFields(fields)[c].kind)
      && (KeyFields(fields)[c].pdb.serial || !HasSerial(fields))
  }

  ghost predicate KeysKnown(msg: GoMsg, fields: seq<FieldDesc>, last: int) {
    && (forall i :: 0 <= i < |fields| && fields[i].pdb.primary ==>
        fields[i].name in msg && KeyKnown(msg, fields[i], last))
    && ZeroAllowed(msg, fields)
  }

  lemma {:induction false} PopulatedAt(msg: GoMsg, fields: seq<FieldDesc>, id: int, c: string)
    requires Populated(msg, fields, Some(id)).Ok? && c in msg && c in KeyFields(fields)
    ensures var m := Populated(msg, fields, Some(id)).value;
            && m.Keys == msg.Keys
            && m[c] == if Missing(msg, fields, c) then WithInt(msg[c], CastTo(KeyFields(fields)[c].kind, id))
              else msg[c]
    ensures Missing(msg, fields, c) ==> MissingKeys(msg, fields) == {c} && IntegerKind(KeyFields(fields)[c].kind)
  {
    var z := MissingKeys(msg, fields);
    assert Missing(msg, fields, c) <==> c in z;
    if z != {} {
      assert z == {Pick(z)};
    }
  }

  lemma CastKeeps(kind: Kind, n: int)
    requires IntegerKind(kind) && InKind(kind, n)
    ensures CastTo(kind, n) == n
  {
  }

  /** A server that fills keys with NULL and generates the given number. */
  ghost function Filling(fields: seq<FieldDesc>, id: nat): Server {
    Server(false, map c | c in KeyFields(fields).Keys :: Null,
           if HasSerial(fields) then var i :| 0 <= i < |fields| && fields[i].pdb.serial; Some(fields[i].name)
           else None, id)
  }

  lemma FillingAdmissible(fields: seq<FieldDesc>, id: nat)
    requires DistinctNames(fields) && SerialOk(fields) && 1 <= id <= 2
    ensures Admissible(Filling(fields, id), fields)
  {
  }

  ghost function RowOf(msg: GoMsg, fields: seq<FieldDesc>, last: int, s: Server): Row
    requires Typed(msg, fields) && Inserting(msg, fields, |fields|, last, Mysql).Ok?
  {
    StoredRow(GivenCells(Inserting(msg, fields, |fields|, last, Mysql).value), s)
  }

  /** A serial field is not given; its column receives the generated number, which is reported. */
  lemma {:induction false} SerialStored(msg: GoMsg, fields: seq<FieldDesc>, last: int, s: Server, i: nat)
    requires Typed(msg, fields) && DistinctNames(fields) && Inserting(msg, fields, |fields|, last, Mysql).Ok?
    requires Admissible(s, fields) && i < |fields| && fields[i].pdb.serial
    ensures var row := RowOf(msg, fields, last, s);
            fields[i].name in row && row[fields[i].name] == Val(Int(s.id)) && LastInsertId(row, s) == s.id
  {
    GivenAreNeeded(msg, fields, |fields|, last, Mysql);
  }

  lemma NoSerialNoId(fields: seq<FieldDesc>, row: Row, s: Server)
    requires Admissible(s, fields) && !HasSerial(fields)
    ensures LastInsertId(row, s) == 0
  {
  }

  /** Any other field is stored as it is given, or left to the server. */
  lemma {:induction false} PlainStored(msg: GoMsg, fields: seq<FieldDesc>, last: int, s: Server, i: nat)
    requires Typed(msg, fields) && DistinctNames(fields) && Inserting(msg, fields, |fields|, last, Mysql).Ok?
    requires Admissible(s, fields) && i < |fields| && !fields[i].pdb.serial
    ensures var row, c := RowOf(msg, fields, last, s), fields[i].name;
            if Given(fields[i], last) then Sendable(msg, fields[i], Mysql, false) && c in row
              && row[c] == StoredCell(msg, fields[i], Mysql)
            else (c in row <==> c in s.filled) && (c in row ==> row[c] == s.filled[c])
  {
    GivenAreNeeded(msg, fields, |fields|, last, Mysql);
    var given := GivenCells(Inserting(msg, fields, |fields|, last, Mysql).value);
    if fields[i].name in given {
      var j :| 0 <= j < |fields| && Given(fields[j], last) && fields[j].name == fields[i].name;
      assert i == j;
    }
  }

  /** The completed cell of a known key is the stored one. */
  lemma {:induction false} KnownCell(msg: GoMsg, fields: seq<FieldDesc>, last: int, s: Server, i: nat)
    requires Typed(msg, fields) && DistinctNames(fields) && Inserting(msg, fields, |fields|, last, Mysql).Ok?
    requires Admissible(s, fields) && i < |fields| && fields[i].pdb.primary && KeysKnown(msg, fields, last)
    requires Populated(msg, fields, Some(LastInsertId(RowOf(msg, fields, last, s), s))).Ok?
    ensures var row, c := RowOf(msg, fields, last, s), fields[i].name;
            var m := Populated(msg, fields, Some(LastInsertId(row, s))).value;
            c in m && c in row && row[c] == ToCell(m[c]) != Null
  {
    var row, f := RowOf(msg, fields, last, s), fields[i];
    var id := LastInsertId(row, s);
    KeyFieldAt(fields, i);
    PopulatedAt(msg, fields, id, f.name);
    assert KeyKnown(msg, f, last);
    if f.pdb.serial {
      SerialStored(msg, fields, last, s, i);
      CastKeeps(f.kind, id);
    } else {
      PlainStored(msg, fields, last, s, i);
      if Missing(msg, fields, f.name) {
        assert f.name in MissingKeys(msg, fields);
        NoSerialNoId(fields, row, s);
        CastKeeps(f.kind, 0);
      }
    }
  }

  lemma {:induction false} KnownIsRecognised(msg: GoMsg, fields: seq<FieldDesc>, last: int, s: Server)
    requires Typed(msg, fields) && DistinctNames(fields) && Inserting(msg, fields, |fields|, last, Mysql).Ok?
    requires Admissible(s, fields) && KeyFields(fields) != map[] && KeysKnown(msg, fields, last)
    ensures Recognised(msg, fields, RowOf(msg, fields, last, s), s)
  {
    var row := RowOf(msg, fields, last, s);
    var p := Populated(msg, fields, Some(LastInsertId(row, s)));
    var z := MissingKeys(msg, fields);
    if z != {} {
      var c := Pick(z);
      assert z == {c};
      IdNotNegative(fields, row, s, msg, last);
    }
    forall c | c in KeyOf(p.value, fields)
      ensures c in row && KeyOf(p.value, fields)[c] != Null && row[c] == KeyOf(p.value, fields)[c]
    {
      var i := KeyFieldIndex(fields, c);
      KnownCell(msg, fields, last, s, i);
    }
  }

  lemma {:induction false} IdNotNegative(fields: seq<FieldDesc>, row: Row, s: Server, msg: GoMsg, last: int)
    requires Typed(msg, fields) && DistinctNames(fields) && Inserting(msg, fields, |fields|, last, Mysql).Ok?
    requires Admissible(s, fields) && row == RowOf(msg, fields, last, s)
    ensures LastInsertId(row, s) >= 0
  {
    if HasSerial(fields) {
      var i :| 0 <= i < |fields| && fields[i].pdb.serial;
      SerialStored(msg, fields, last, s, i);
    } else {
      NoSerialNoId(fields, row, s);
    }
  }

  /** A row recognised under either of two servers has a key the caller knows. */
  lemma {:induction false} RecognisedIsKnown(msg: GoMsg, fields: seq<FieldDesc>, last: int, i: nat)
    requires Typed(msg, fields) && DistinctNames(fields) && Inserting(msg, fields, |fields|, last, Mysql).Ok?
    requires SerialOk(fields) && i < |fields| && fields[i].pdb.primary && fields[i].name in msg
    requires Recognised(msg, fields, RowOf(msg, fields, last, Filling(fields, 1)), Filling(fields, 1))
    requires Recognised(msg, fields, RowOf(msg, fields, last, Filling(fields, 2)), Filling(fields, 2))
    ensures fields[i].name in KeyFields(fields) && KeyKnown(msg, fields[i], last)
    ensures Missing(msg, fields, fields[i].name) ==>
              && MissingKeys(msg, fields) == {fields[i].name} && IntegerKind(fields[i].kind)
              && (fields[i].pdb.serial || !HasSerial(fields))
  {
    KeyFieldAt(fields, i);
    RecognisedCell(msg, fields, last, i, 1);
    RecognisedCell(msg, fields, last, i, 2);
    if Missing(msg, fields, fields[i].name) {
      CastKeeps(fields[i].kind, 0);
      CastKeeps(fields[i].kind, 1);
      CastKeeps(fields[i].kind, 2);
    }
  }

  /** The key cell a message is completed with when the server generates the given number. */
  ghost function Told(msg: GoMsg, fields: seq<FieldDesc>, i: nat, id: nat): Cell
    requires i < |fields| && fields[i].name in msg
  {
    if ZeroKey(fields[i].kind, msg[fields[i].name]) then
      Val(Int(CastTo(fields[i].kind, if HasSerial(fields) then id else 0)))
    else ToCell(msg[fields[i].name])
  }

  lemma {:induction false} FillingReports(msg: GoMsg, fields: seq<FieldDesc>, last: int, id: nat)
    requires Typed(msg, fields) && DistinctNames(fields) && Inserting(msg, fields, |fields|, last, Mysql).Ok?
    requires SerialOk(fields) && 1 <= id <= 2
    ensures LastInsertId(RowOf(msg, fields, last, Filling(fields, id)), Filling(fields, id))
            == if HasSerial(fields) then id else 0
  {
    var s := Filling(fields, id);
    FillingAdmissible(fields, id);
    if HasSerial(fields) {
      var j :| 0 <= j < |fields| && fields[j].pdb.serial;
      SerialStored(msg, fields, last, s, j);
    } else {
      NoSerialNoId(fields, RowOf(msg, fields, last, s), s);
    }
  }

  lemma {:induction false} HasKeyCell(row: Row, m: GoMsg, fields: seq<FieldDesc>, c: string)
    requires HasKey(row, KeyOf(m, fields)) && c in KeyFields(fields) && c in m
    ensures c in row && row[c] == ToCell(m[c]) != Null
  {
    assert c in KeyOf(m, fields);
  }

  lemma IntCell(v: GoVal, n: int)
    ensures ToCell(WithInt(v, n)) == Val(Int(n))
  {
  }

  /** What recognition says of a key cell. */
  lemma {:induction false} RecognisedHas(msg: GoMsg, fields: seq<FieldDesc>, row: Row, s: Server, i: nat)
    requires DistinctNames(fields) && i < |fields| && fields[i].pdb.primary && fields[i].name in msg
    requires Recognised(msg, fields, row, s)
    ensures fields[i].name in KeyFields(fields)
    ensures var c, v := fields[i].name, msg[fields[i].name];
            c in row && row[c] != Null
            && row[c] == if ZeroKey(fields[i].kind, v) then Val(Int(CastTo(fields[i].kind, LastInsertId(row, s))))
              else ToCell(v)
    ensures Missing(msg, fields, fields[i].name) ==>
            MissingKeys(msg, fields) == {fields[i].name} && IntegerKind(fields[i].kind)
  {
    var c, id := fields[i].name, LastInsertId(row, s);
    KeyFieldAt(fields, i);
    PopulatedAt(msg, fields, id, c);
    HasKeyCell(row, Populated(msg, fields, Some(id)).value, fields, c);
    IntCell(msg[c], CastTo(fields[i].kind, id));
  }

  lemma {:induction false} RecognisedCell(msg: GoMsg, fields: seq<FieldDesc>, last: int, i: nat, id: nat)
    requires Typed(msg, fields) && DistinctNames(fields) && Inserting(msg, fields, |fields|, last, Mysql).Ok?
    requires SerialOk(fields) && i < |fields| && fields[i].pdb.primary && fields[i].name in msg && 1 <= id <= 2
    requires Recognised(msg, fields, RowOf(msg, fields, last, Filling(fields, id)), Filling(fields, id))
    ensures fields[i].name in KeyFields(fields) && Told(msg, fields, i, id) != Null
    ensures fields[i].pdb.serial ==> Told(msg, fields, i, id) == Val(Int(id))
    ensures !fields[i].pdb.serial ==>
              Given(fields[i], last) && Sendable(msg, fields[i], Mysql, false)
                && StoredCell(msg, fields[i], Mysql) == Told(msg, fields, i, id)
    ensures Missing(msg, fields, fields[i].name) ==>
            MissingKeys(msg, fields) == {fields[i].name} && IntegerKind(fields[i].kind)
  {
    var s := Filling(fields, id);
    FillingAdmissible(fields, id);
    FillingReports(msg, fields, last, id);
    RecognisedHas(msg, fields, RowOf(msg, fields, last, s), s, i);
    if fields[i].pdb.serial {
      SerialStored(msg, fields, last, s, i);
    } else {
      PlainStored(msg, fields, last, s, i);
    }
  }

  lemma {:induction false} AllRecognisedAreKnown(msg: GoMsg, fields: seq<FieldDesc>, last: int)
    requires Typed(msg, fields) && DistinctNames(fields) && Inserting(msg, fields, |fields|, last, Mysql).Ok?
    requires SerialOk(fields) && HasKeys(msg, fields)
    requires Recognised(msg, fields, RowOf(msg, fields, last, Filling(fields, 1)), Filling(fields, 1))
    requires Recognised(msg, fields, RowOf(msg, fields, last, Filling(fields, 2)), Filling(fields, 2))
    ensures KeysKnown(msg, fields, last)
  {
    forall i | 0 <= i < |fields| && fields[i].pdb.primary
      ensures fields[i].name in msg && KeyKnown(msg, fields[i], last)
    {
      KeyFieldAt(fields, i);
      RecognisedIsKnown(msg, fields, last, i);
    }
    forall c | c in MissingKeys(msg, fields)
      ensures MissingKeys(msg, fields) == {c} && IntegerKind(KeyFields(fields)[c].kind)
      ensures KeyFields(fields)[c].pdb.serial || !HasSerial(fields)
    {
      var i := KeyFieldIndex(fields, c);
      KeyFieldAt(fields, i);
      RecognisedIsKnown(msg, fields, last, i);
    }
  }

  /** Whatever the server generates, the stored row is recognised. */
  ghost predicate AlwaysRecognised(msg: GoMsg, fields: seq<FieldDesc>, last: int)
    requires Typed(msg, fields) && Inserting(msg, fields, |fields|, last, Mysql).Ok?
  {
    forall s {:trigger Admissible(s, fields)} :: Admissible(s, fields) ==>
      Recognised(msg, fields, RowOf(msg, fields, last, s), s)
  }

  lemma {:induction false} AlwaysIsTwice(msg: GoMsg, fields: seq<FieldDesc>, last: int, id: nat)
    requires Typed(msg, fields) && Inserting(msg, fields, |fields|, last, Mysql).Ok?
             && AlwaysRecognised(msg, fields, last)
    requires DistinctNames(fields) && SerialOk(fields) && 1 <= id <= 2
    ensures Recognised(msg, fields, RowOf(msg, fields, last, Filling(fields, id)), Filling(fields, id))
  {
    FillingAdmissible(fields, id);
  }

  /** The stored row is recognised whatever numbers the server generates exactly when the caller
      knows the key: the serial key field is left at zero, every other key field is stored as it
      is, and no other key field is zero next to a serial one. */
  lemma {:induction false} RecognisedIff(msg: GoMsg, fields: seq<FieldDesc>, last: int)
    requires Typed(msg, fields) && DistinctNames(fields) && Inserting(msg, fields, |fields|, last, Mysql).Ok?
    requires SerialOk(fields) && KeyFields(fields) != map[] && HasKeys(msg, fields)
    ensures KeysKnown(msg, fields, last) <==> AlwaysRecognised(msg, fields, last)
  {
    if AlwaysRecognised(msg, fields, last) {
      AlwaysIsTwice(msg, fields, last, 1);
      AlwaysIsTwice(msg, fields, last, 2);
      AllRecognisedAreKnown(msg, fields, last);
    }
    if KeysKnown(msg, fields, last) {
      forall s {:trigger Admissible(s, fields)} | Admissible(s, fields)
        ensures Recognised(msg, fields, RowOf(msg, fields, last, s), s)
      {
        KnownIsRecognised(msg, fields, last, s);
      }
    }
  }

  // ---------- Inserts that do not report the stored row ----------

  /** A serial key field that is set is not the stored one unless the server generates that number. */
  lemma {:induction false} SetSerialKeyIsLost(msg: GoMsg, fields: seq<FieldDesc>, last: int, i: nat, s: Server)
    requires Typed(msg, fields) && DistinctNames(fields) && Inserting(msg, fields, |fields|, last, Mysql).Ok?
    requires Admissible(s, fields) && i < |fields| && fields[i].pdb.primary && fields[i].pdb.serial
    requires fields[i].name in msg && !ZeroKey(fields[i].kind, msg[fields[i].name])
    requires ToCell(msg[fields[i].name]) != Val(Int(s.id))
    ensures !Recognised(msg, fields, RowOf(msg, fields, last, s), s)
  {
    SerialStored(msg, fields, last, s, i);
    if Recognised(msg, fields, RowOf(msg, fields, last, s), s) {
      RecognisedHas(msg, fields, RowOf(msg, fields, last, s), s, i);
    }
  }

  /** The message `{id: 7}` with a serial key, in a table that generates another number. */
  lemma {:induction false} SevenIsLost(id: FieldDesc, s: Server)
    requires id.kind == Int64Kind && id.card == Singular && id.pdb.primary && id.pdb.serial
    requires Admissible(s, [id]) && s.id != 7
    ensures var msg: GoMsg := map[id.name := Int(7)];
            && Typed(msg, [id]) && Inserting(msg, [id], 1, 0, Mysql).Ok?
            && !Recognised(msg, [id], RowOf(msg, [id], 0, s), s)
  {
    var msg: GoMsg := map[id.name := Int(7)];
    assert Inserting(msg, [id], 0, 0, Mysql) == Ok(Changes([], []));
    SetSerialKeyIsLost(msg, [id], 0, 0, s);
  }

  /** With two zero key fields, or one that is no integer, the row is stored and an error reported. */
  lemma {:induction false} UnpopulatedIsRefused(before: Tables, after: Tables, table: string, selected: string,
                                                msg: GoMsg, msg': GoMsg, fields: seq<FieldDesc>, last: int, s: Server,
                                                r: Single, c: string)
    requires Typed(msg, fields) && InsertOutcome(before, after, Mysql, table, selected, msg, msg', fields, last, s, r)
    requires Inserting(msg, fields, |fields|, last, Mysql).Ok?
             && Accepts(before, table, Inserting(msg, fields, |fields|, last, Mysql).value, Mysql, s)
    requires c in MissingKeys(msg, fields)
             && (MissingKeys(msg, fields) != {c} || !IntegerKind(KeyFields(fields)[c].kind))
    ensures r == Refused && RowOf(msg, fields, last, s) in after[table]
  {
  }

  /** Without a table of the name selected from, the row is stored and an error reported. */
  lemma {:induction false} NoTableIsRefused(before: Tables, after: Tables, table: string, selected: string, msg: GoMsg,
                                            msg': GoMsg, fields: seq<FieldDesc>, last: int, s: Server, r: Single)
    requires Typed(msg, fields) && InsertOutcome(before, after, Mysql, table, selected, msg, msg', fields, last, s, r)
    requires Inserting(msg, fields, |fields|, last, Mysql).Ok?
             && Accepts(before, table, Inserting(msg, fields, |fields|, last, Mysql).value, Mysql, s)
    requires selected !in before
    ensures r == Refused && RowOf(msg, fields, last, s) in after[table]
  {
  }

  /** Without a table name and a schema the insert stores into the message's table and selects from
      one with an empty name. */
  lemma EmptyNameIsSelected(msgName: string)
    ensures BuildDbTableName(NameOr("", msgName), "", Mysql) == msgName && BuildDbTableName("", "", Mysql) == ""
  {
  }
}
