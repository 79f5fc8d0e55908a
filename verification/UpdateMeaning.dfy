/** What the built statements do to a table, and that the three shapes of an update agree. */
module UpdateMeaning {
  import opened Prelude
  import opened Sqldb
  import opened Message
  import opened Sql
  import opened SqlBuilder
  import opened UpdateBuilder

  // ---------- The intended update ----------

  type Key = map<string, Cell>

  /** The key cells of a message. */
  function KeyOf(msg: GoMsg, fields: seq<FieldDesc>): Key {
    map c | c in KeyFields(fields).Keys :: if c in msg then ToCell(msg[c]) else Null
  }

  /** A row with this key; a NULL key cell matches no row. */
  predicate HasKey(r: Row, key: Key) {
    forall c :: c in key ==> c in r && key[c] != Null && r[c] == key[c]
  }

  ghost predicate SameOn(r1: Row, r2: Row, cols: set<string>) {
    forall c :: c in cols ==> c in r1 && c in r2 && r1[c] == r2[c]
  }

  /** No two rows of the table agree on the key columns. */
  ghost predicate KeyUnique(t: Table, cols: set<string>) {
    forall r1, r2 :: r1 in t && r2 in t && SameOn(r1, r2, cols) ==> r1 == r2
  }

  /** The new cells an update writes, by column. */
  function ChangeMap(names: seq<string>, vals: seq<GoVal>): map<string, Cell>
    requires |names| == |vals|
  {
    if names == [] then map[]
    else
      var n := |names| - 1;
      ChangeMap(names[..n], vals[..n])[names[n] := ToCell(vals[n])]
  }

  function UpdatedRow(r: Row, key: Key, ch: map<string, Cell>): Row {
    if HasKey(r, key) then r + ch else r
  }

  /** The table with the row of the given key changed, and every other row as it was. */
  function UpdatedTable(t: Table, key: Key, ch: map<string, Cell>): Table {
    set r | r in t :: UpdatedRow(r, key, ch)
  }

  datatype Outcome = Error | NoRow | Found(before: Row, after: Row)

  ghost predicate IsOutcome(t: Table, key: Key, ch: map<string, Cell>, out: Outcome) {
    match out
    case Error => false
    case NoRow => forall r :: r in t ==> !HasKey(r, key)
    case Found(b, a) => b in t && HasKey(b, key) && a == b + ch
  }

  // ---------- Arguments reach their placeholders ----------

  /** In a statement numbered from 1 over two lists of columns, the i-th placeholder of the text
      takes the i-th argument, for question marks and for numbered placeholders alike. */
  lemma ArgumentsInOrder(xs: seq<string>, ys: seq<string>, style: PlaceholderStyle, args: seq<GoVal>)
    requires |args| == |xs| + |ys|
    ensures var holes := HolesOf(Number(xs, style, 1)) + HolesOf(Number(ys, style, 1 + |xs|));
            Binds(holes, args) && forall i :: 0 <= i < |args| ==> ArgOf(holes, args, i) == args[i]
  {
    var holes := HolesOf(Number(xs, style, 1)) + HolesOf(Number(ys, style, 1 + |xs|));
    forall i | 0 <= i < |holes|
      ensures holes[i] == HoleOf(style, 1 + i)
    {
    }
  }

  function CellsOf(vals: seq<GoVal>): (r: seq<Cell>)
    ensures |r| == |vals| && forall i :: 0 <= i < |r| ==> r[i] == ToCell(vals[i])
  {
    seq(|vals|, i requires 0 <= i < |vals| => ToCell(vals[i]))
  }

  lemma CellsInOrder(xs: seq<string>, ys: seq<string>, style: PlaceholderStyle, a: seq<GoVal>, b: seq<GoVal>)
    requires |a| == |xs| && |b| == |ys|
    ensures var holes := HolesOf(Number(xs, style, 1)) + HolesOf(Number(ys, style, 1 + |xs|));
            && Binds(holes, a + b)
            && Cells(holes, a + b)[..|xs|] == CellsOf(a)
            && Cells(holes, a + b)[|xs|..] == CellsOf(b)
  {
    ArgumentsInOrder(xs, ys, style, a + b);
  }

  /** The key conditions, in whatever order, select the rows with the message's key. */
  lemma ConditionsMeanKey(msg: GoMsg, fields: seq<FieldDesc>, ks: seq<string>, style: PlaceholderStyle, no: nat, r: Row)
    requires KeyOrder(fields, ks)
    ensures Matches(r, Number(ks, style, no), CellsOf(ValuesAt(msg, ks))) <==> HasKey(r, KeyOf(msg, fields))
  {
    var key, cells := KeyOf(msg, fields), CellsOf(ValuesAt(msg, ks));
    forall i | 0 <= i < |ks|
      ensures ks[i] in key && cells[i] == key[ks[i]]
    {
      assert ks[i] in Elems(ks);
    }
    if Matches(r, Number(ks, style, no), cells) {
      forall c | c in key
        ensures c in r && key[c] != Null && r[c] == key[c]
      {
        assert c in Elems(ks);
        var i :| 0 <= i < |ks| && ks[i] == c;
        assert Number(ks, style, no)[i].col == c;
      }
    }
  }

  /** The SET list writes the change map. */
  lemma {:induction false} SetListMeansChanges(r: Row, names: seq<string>, vals: seq<GoVal>, style: PlaceholderStyle,
                                               no: nat)
    requires |names| == |vals|
    ensures Changed(r, Number(names, style, no), CellsOf(vals)) == r + ChangeMap(names, vals)
  {
    if names != [] {
      var n := |names| - 1;
      SetListMeansChanges(r, names[..n], vals[..n], style, no);
      assert Number(names, style, no)[..n] == Number(names[..n], style, no);
      assert CellsOf(vals)[..n] == CellsOf(vals[..n]);
    }
  }

  /** The rows of the message's key. */
  function KeyedRows(t: Table, key: Key): Table {
    set r | r in t && HasKey(r, key)
  }

  lemma SelectedMeans(t: Table, msg: GoMsg, fields: seq<FieldDesc>, ks: seq<string>, style: PlaceholderStyle, no: nat)
    requires KeyOrder(fields, ks)
    ensures Selected(t, Number(ks, style, no), CellsOf(ValuesAt(msg, ks))) == KeyedRows(t, KeyOf(msg, fields))
  {
    forall r
      ensures Matches(r, Number(ks, style, no), CellsOf(ValuesAt(msg, ks))) <==> HasKey(r, KeyOf(msg, fields))
    {
      ConditionsMeanKey(msg, fields, ks, style, no, r);
    }
  }

  // ---------- The plain and native shapes ----------

  /** The rows a RETURNING clause gives back. */
  function ReturnedRows(t: Table, key: Key, m: map<string, Cell>, ret: Returning): set<ResultRow> {
    match ret
    case NoRows => {}
    case NewRow => set r | r in t && HasKey(r, key) :: One(r + m)
    case OldAndNew => set r | r in t && HasKey(r, key) :: Pair(r, r + m)
  }

  lemma RowsMean(t: Table, msg: GoMsg, fields: seq<FieldDesc>, ch: Changes, ks: seq<string>, style: PlaceholderStyle,
                 no: nat, no2: nat)
    requires KeyOrder(fields, ks) && |ch.names| == |ch.vals|
    ensures forall r :: Matches(r, Number(ks, style, no), CellsOf(ValuesAt(msg, ks))) <==> HasKey(r, KeyOf(msg, fields))
    ensures forall r :: Changed(r, Number(ch.names, style, no2), CellsOf(ch.vals)) == r + ChangeMap(ch.names, ch.vals)
  {
    forall r
      ensures Matches(r, Number(ks, style, no), CellsOf(ValuesAt(msg, ks))) <==> HasKey(r, KeyOf(msg, fields))
    {
      ConditionsMeanKey(msg, fields, ks, style, no, r);
    }
    forall r
      ensures Changed(r, Number(ch.names, style, no2), CellsOf(ch.vals)) == r + ChangeMap(ch.names, ch.vals)
    {
      SetListMeansChanges(r, ch.names, ch.vals, style, no2);
    }
  }

  lemma {:induction false} UpdatedMeans(t: Table, sets: seq<Assign>, sc: seq<Cell>, where: seq<Assign>, wc: seq<Cell>,
                                        key: Key, m: map<string, Cell>)
    requires |sets| == |sc| && |where| == |wc|
    requires forall r :: Matches(r, where, wc) <==> HasKey(r, key)
    requires forall r :: Changed(r, sets, sc) == r + m
    ensures Updated(t, sets, sc, where, wc) == UpdatedTable(t, key, m)
  {
    var a, b := Updated(t, sets, sc, where, wc), UpdatedTable(t, key, m);
    forall r | r in t
      ensures (if Matches(r, where, wc) then Changed(r, sets, sc) else r) == UpdatedRow(r, key, m)
    {
    }
    forall x | x in a
      ensures x in b
    {
      var r :| r in t && x == if Matches(r, where, wc) then Changed(r, sets, sc) else r;
      assert x == UpdatedRow(r, key, m);
    }
  }

  lemma {:induction false} ReturnedMeans(t: Table, sets: seq<Assign>, sc: seq<Cell>, where: seq<Assign>, wc: seq<Cell>,
                                         key: Key, m: map<string, Cell>, ret: Returning)
    requires |sets| == |sc| && |where| == |wc|
    requires forall r :: Matches(r, where, wc) <==> HasKey(r, key)
    requires forall r :: Changed(r, sets, sc) == r + m
    ensures Returned(t, sets, sc, where, wc, ret) == ReturnedRows(t, key, m, ret)
  {
  }

  lemma UpdateEval(db: Tables, table: string, ch: Changes, ks: seq<string>, keyVals: seq<GoVal>,
                   style: PlaceholderStyle, ret: Returning)
    requires table in db && |ch.names| == |ch.vals| && |ks| == |keyVals| && ch.names != [] && ks != []
    ensures var sets, where := Number(ch.names, style, 1), Number(ks, style, 1 + |ch.names|);
            var sc, wc := CellsOf(ch.vals), CellsOf(keyVals);
            Eval(db, UpdateStmt(table, ch.names, ks, style, ret), ch.vals + keyVals)
            == Answer(db[table := Updated(db[table], sets, sc, where, wc)],
                      Returned(db[table], sets, sc, where, wc, ret))
  {
    CellsInOrder(ch.names, ks, style, ch.vals, keyVals);
  }

  /** An update statement, for every order of the keys and either placeholder style, changes the
      rows with the message's key and no other, and returns exactly those. */
  lemma {:induction false} UpdateMeans(db: Tables, table: string, msg: GoMsg, fields: seq<FieldDesc>, ch: Changes,
                                       ks: seq<string>, style: PlaceholderStyle, ret: Returning)
    requires table in db && KeyOrder(fields, ks) && KeyFields(fields) != map[]
    requires |ch.names| == |ch.vals| && ch.names != []
    ensures var key, m := KeyOf(msg, fields), ChangeMap(ch.names, ch.vals);
            Eval(db, UpdateStmt(table, ch.names, ks, style, ret), ch.vals + ValuesAt(msg, ks))
            == Answer(db[table := UpdatedTable(db[table], key, m)], ReturnedRows(db[table], key, m, ret))
  {
    var key, m := KeyOf(msg, fields), ChangeMap(ch.names, ch.vals);
    var sets, where := Number(ch.names, style, 1), Number(ks, style, 1 + |ch.names|);
    var sc, wc := CellsOf(ch.vals), CellsOf(ValuesAt(msg, ks));
    KeyOrderNonEmpty(fields, ks);
    UpdateEval(db, table, ch, ks, ValuesAt(msg, ks), style, ret);
    RowsMean(db[table], msg, fields, ch, ks, style, 1 + |ch.names|, 1);
    UpdatedMeans(db[table], sets, sc, where, wc, key, m);
    ReturnedMeans(db[table], sets, sc, where, wc, key, m, ret);
  }

  lemma {:induction false} KeyOrderNonEmpty(fields: seq<FieldDesc>, ks: seq<string>)
    requires KeyOrder(fields, ks) && KeyFields(fields) != map[]
    ensures ks != []
  {
    assert KeyFields(fields).Keys != {};
  }

  // ---------- The common-table-expression shape ----------

  /** A row joins a prior row of the message's key exactly when it has that key itself. */
  lemma JoinMeansKey(o: Row, n: Row, msg: GoMsg, fields: seq<FieldDesc>, js: seq<string>)
    requires KeyOrder(fields, js) && HasKey(o, KeyOf(msg, fields))
    ensures Joined(o, n, js) <==> HasKey(n, KeyOf(msg, fields))
  {
    var key := KeyOf(msg, fields);
    forall i | 0 <= i < |js|
      ensures js[i] in key
    {
      assert js[i] in Elems(js);
    }
    if Joined(o, n, js) {
      forall c | c in key
        ensures c in n && key[c] != Null && n[c] == key[c]
      {
        assert c in Elems(js);
        var i :| 0 <= i < |js| && js[i] == c;
        assert o[js[i]] == n[js[i]];
      }
    }
  }

  lemma {:induction false} JoinTableMeans(t: Table, sets: seq<Assign>, sc: seq<Cell>, msg: GoMsg,
                                          fields: seq<FieldDesc>, js: seq<string>, m: map<string, Cell>)
    requires |sets| == |sc| && KeyOrder(fields, js)
    requires forall r :: Changed(r, sets, sc) == r + m
    ensures UpdatedByJoin(t, sets, sc, KeyedRows(t, KeyOf(msg, fields)), js) == UpdatedTable(t, KeyOf(msg, fields), m)
  {
    var key := KeyOf(msg, fields);
    var prior := KeyedRows(t, key);
    var a, b := UpdatedByJoin(t, sets, sc, prior, js), UpdatedTable(t, key, m);
    forall n | n in t
      ensures (if exists o :: o in prior && Joined(o, n, js) then Changed(n, sets, sc) else n) == UpdatedRow(n, key, m)
    {
      forall o | o in prior
        ensures Joined(o, n, js) <==> HasKey(n, key)
      {
        JoinMeansKey(o, n, msg, fields, js);
      }
      if HasKey(n, key) {
        assert n in prior && Joined(n, n, js);
      }
    }
    forall x | x in a
      ensures x in b
    {
      var n :| n in t && x == if exists o :: o in prior && Joined(o, n, js) then Changed(n, sets, sc) else n;
      assert x == UpdatedRow(n, key, m);
    }
  }

  /** With a unique key the join pairs every changed row with itself. */
  lemma {:induction false} JoinPairsMean(t: Table, sets: seq<Assign>, sc: seq<Cell>, msg: GoMsg, fields: seq<FieldDesc>,
                                         js: seq<string>, m: map<string, Cell>)
    requires |sets| == |sc| && KeyOrder(fields, js) && KeyUnique(t, KeyFields(fields).Keys)
    requires forall r :: Changed(r, sets, sc) == r + m
    ensures JoinedPairs(t, sets, sc, KeyedRows(t, KeyOf(msg, fields)), js)
            == ReturnedRows(t, KeyOf(msg, fields), m, OldAndNew)
  {
    var key := KeyOf(msg, fields);
    var prior := KeyedRows(t, key);
    var a, b := JoinedPairs(t, sets, sc, prior, js), ReturnedRows(t, key, m, OldAndNew);
    forall n, o | n in t && o in prior
      ensures Joined(o, n, js) <==> n == o
    {
      JoinMeansKey(o, n, msg, fields, js);
      if HasKey(n, key) {
        SameKeySameRow(t, n, o, msg, fields);
      }
    }
    forall x | x in b
      ensures x in a
    {
      var r :| r in t && HasKey(r, key) && x == Pair(r, r + m);
      assert r in prior && Joined(r, r, js);
    }
  }

  lemma {:induction false} SameKeySameRow(t: Table, r1: Row, r2: Row, msg: GoMsg, fields: seq<FieldDesc>)
    requires KeyUnique(t, KeyFields(fields).Keys) && r1 in t && r2 in t
    requires HasKey(r1, KeyOf(msg, fields)) && HasKey(r2, KeyOf(msg, fields))
    ensures r1 == r2
  {
    var key := KeyOf(msg, fields);
    forall c | c in KeyFields(fields).Keys
      ensures c in r1 && c in r2 && r1[c] == r2[c]
    {
      assert c in key;
    }
  }

  /** How the statement with a common table expression is evaluated: the rows of the key are selected
      first, and the table is joined with them. */
  lemma {:induction false} CteEvaluates(db: Tables, table: string, msg: GoMsg, fields: seq<FieldDesc>, ch: Changes,
                                        ks: seq<string>, js: seq<string>, style: PlaceholderStyle, partialText: bool)
    requires table in db && KeyOrder(fields, ks) && KeyOrder(fields, js) && KeyFields(fields) != map[]
    requires |ch.names| == |ch.vals| && ch.names != []
    ensures var sets, sc := Number(ch.names, style, 1 + |ks|), CellsOf(ch.vals);
            var prior := KeyedRows(db[table], KeyOf(msg, fields));
            Eval(db, CteStmt(table, ch.names, ks, js, style, partialText), ValuesAt(msg, ks) + ch.vals)
            == Answer(db[table := UpdatedByJoin(db[table], sets, sc, prior, js)],
                      JoinedPairs(db[table], sets, sc, prior, js))
  {
    CellsInOrder(ks, ch.names, style, ValuesAt(msg, ks), ch.vals);
    KeyOrderNonEmpty(fields, ks);
    KeyOrderNonEmpty(fields, js);
    SelectedMeans(db[table], msg, fields, ks, style, 1);
  }

  /** The statement with a common table expression does what the native one does, although it
      numbers its parameters the other way round and walks the key map twice. */
  lemma {:induction false} CteMeans(db: Tables, table: string, msg: GoMsg, fields: seq<FieldDesc>, ch: Changes,
                                    ks: seq<string>, js: seq<string>, style: PlaceholderStyle, partialText: bool)
    requires table in db && KeyOrder(fields, ks) && KeyOrder(fields, js) && KeyFields(fields) != map[]
    requires |ch.names| == |ch.vals| && ch.names != []
    ensures var key, m := KeyOf(msg, fields), ChangeMap(ch.names, ch.vals);
            var ans := Eval(db, CteStmt(table, ch.names, ks, js, style, partialText), ValuesAt(msg, ks) + ch.vals);
            && ans.Answer? && ans.tables == db[table := UpdatedTable(db[table], key, m)]
            && (KeyUnique(db[table], KeyFields(fields).Keys) ==> ans.rows == ReturnedRows(db[table], key, m, OldAndNew))
            && (ans.rows == {} <==> KeyedRows(db[table], key) == {})
  {
    var t, key, m := db[table], KeyOf(msg, fields), ChangeMap(ch.names, ch.vals);
    var sets, sc := Number(ch.names, style, 1 + |ks|), CellsOf(ch.vals);
    CteEvaluates(db, table, msg, fields, ch, ks, js, style, partialText);
    RowsMean(t, msg, fields, ch, ks, style, 1, 1 + |ks|);
    JoinTableMeans(t, sets, sc, msg, fields, js, m);
    if KeyUnique(t, KeyFields(fields).Keys) {
      JoinPairsMean(t, sets, sc, msg, fields, js, m);
    }
    SomePair(t, sets, sc, msg, fields, js);
  }

  lemma SomePair(t: Table, sets: seq<Assign>, sc: seq<Cell>, msg: GoMsg, fields: seq<FieldDesc>, js: seq<string>)
    requires |sets| == |sc| && KeyOrder(fields, js)
    ensures JoinedPairs(t, sets, sc, KeyedRows(t, KeyOf(msg, fields)), js) == {}
            <==> KeyedRows(t, KeyOf(msg, fields)) == {}
  {
    var prior := KeyedRows(t, KeyOf(msg, fields));
    if prior != {} {
      var r :| r in prior;
      JoinMeansKey(r, r, msg, fields, js);
      assert Pair(r, Changed(r, sets, sc)) in JoinedPairs(t, sets, sc, prior, js);
    }
  }

  // ---------- Select and delete ----------

  lemma {:induction false} SelectMeans(db: Tables, table: string, msg: GoMsg, fields: seq<FieldDesc>, ks: seq<string>,
                                       style: PlaceholderStyle)
    requires table in db && KeyOrder(fields, ks) && KeyFields(fields) != map[]
    ensures Eval(db, SelectOne(table, Number(ks, style, 1)), ValuesAt(msg, ks))
         == Answer(db, Ones(KeyedRows(db[table], KeyOf(msg, fields))))
  {
    CellsAlone(ks, style, ValuesAt(msg, ks));
    KeyOrderNonEmpty(fields, ks);
    SelectedMeans(db[table], msg, fields, ks, style, 1);
  }

  lemma {:induction false} DeleteMeans(db: Tables, table: string, msg: GoMsg, fields: seq<FieldDesc>, ks: seq<string>,
                                       style: PlaceholderStyle, ret: Returning)
    requires table in db && KeyOrder(fields, ks) && KeyFields(fields) != map[]
    ensures Eval(db, Delete(table, Number(ks, style, 1), ret), ValuesAt(msg, ks))
         == Answer(db[table := db[table] - KeyedRows(db[table], KeyOf(msg, fields))],
                   if ret == NewRow then Ones(KeyedRows(db[table], KeyOf(msg, fields))) else {})
  {
    CellsAlone(ks, style, ValuesAt(msg, ks));
    KeyOrderNonEmpty(fields, ks);
    SelectedMeans(db[table], msg, fields, ks, style, 1);
  }

  lemma CellsAlone(xs: seq<string>, style: PlaceholderStyle, a: seq<GoVal>)
    requires |a| == |xs|
    ensures Binds(HolesOf(Number(xs, style, 1)), a) && Cells(HolesOf(Number(xs, style, 1)), a) == CellsOf(a)
  {
    CellsInOrder(xs, [], style, a, []);
    var holes := HolesOf(Number(xs, style, 1));
    assert holes + HolesOf(Number([], style, 1 + |xs|)) == holes && a + [] == a;
  }
}
