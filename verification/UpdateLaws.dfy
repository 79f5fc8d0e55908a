/** Laws of updates: what changes, what stays, and how updates compose. */
module UpdateLaws {
  import opened Prelude
  import opened Sqldb
  import opened Message
  import opened Sql
  import opened UpdateBuilder
  import opened UpdateMeaning

  // ---------- The collected changes, field by field ----------

  /** The new cells of an update. */
  ghost function ChangesOf(msg: GoMsg, fields: seq<FieldDesc>, sel: Selector, d: Dialect,
                           reencode: bool): map<string, Cell>
    requires Typed(msg, fields) && Changing(msg, fields, sel, d, reencode).Ok?
  {
    var ch := Changing(msg, fields, sel, d, reencode).value;
    ChangeMap(ch.names, ch.vals)
  }

  /** A field can take part: the message has it and it can be encoded. */
  ghost predicate Sendable(msg: GoMsg, f: FieldDesc, d: Dialect, reencode: bool) {
    f.name in msg && TypedValue(f, msg[f.name]) && ArgFor(f, d, msg[f.name], reencode).Ok?
  }

  /** The cell an update writes for a field. */
  ghost function SentCell(msg: GoMsg, f: FieldDesc, d: Dialect, reencode: bool): Cell
    requires Sendable(msg, f, d, reencode)
  {
    ToCell(ArgFor(f, d, msg[f.name], reencode).value)
  }

  /** The cells are those of the chosen fields among the first n, and nothing else. */
  ghost predicate CellsOfChosen(m: map<string, Cell>, msg: GoMsg, fields: seq<FieldDesc>, n: nat, sel: Selector,
                                d: Dialect, reencode: bool)
    requires n <= |fields|
  {
    && (forall i :: 0 <= i < n && Chosen(fields, fields[i], sel) ==>
          && Sendable(msg, fields[i], d, reencode)
          && fields[i].name in m
          && m[fields[i].name] == SentCell(msg, fields[i], d, reencode))
    && (forall c :: c in m ==> exists i :: 0 <= i < n && Chosen(fields, fields[i], sel) && fields[i].name == c)
  }

  lemma {:induction false} CollectedOkIff(msg: GoMsg, fields: seq<FieldDesc>, n: nat, sel: Selector, d: Dialect,
                                          reencode: bool)
    requires n <= |fields| && Typed(msg, fields)
    ensures Collected(msg, fields, n, sel, d, reencode).Ok? <==>
            forall i :: 0 <= i < n && Chosen(fields, fields[i], sel) ==> Sendable(msg, fields[i], d, reencode)
    decreases n
  {
    if n > 0 {
      CollectedOkIff(msg, fields, n - 1, sel, d, reencode);
    }
  }

  lemma {:induction false} ChangeMapSnoc(names: seq<string>, vals: seq<GoVal>, c: string, v: GoVal)
    requires |names| == |vals|
    ensures ChangeMap(names + [c], vals + [v]) == ChangeMap(names, vals)[c := ToCell(v)]
  {
    assert (names + [c])[..|names|] == names && (vals + [v])[..|names|] == vals;
  }

  /** The cells of the collected names and arguments. */
  ghost function CollectedMap(msg: GoMsg, fields: seq<FieldDesc>, n: nat, sel: Selector, d: Dialect,
                              reencode: bool): map<string, Cell>
    requires n <= |fields| && Typed(msg, fields) && Collected(msg, fields, n, sel, d, reencode).Ok?
  {
    var ch := Collected(msg, fields, n, sel, d, reencode).value;
    ChangeMap(ch.names, ch.vals)
  }

  lemma CollectedStep(msg: GoMsg, fields: seq<FieldDesc>, n: nat, sel: Selector, d: Dialect, reencode: bool)
    requires 0 < n <= |fields| && Typed(msg, fields) && Collected(msg, fields, n, sel, d, reencode).Ok?
    ensures Collected(msg, fields, n - 1, sel, d, reencode).Ok?
    ensures var f := fields[n - 1];
            && (Chosen(fields, f, sel) ==> Sendable(msg, f, d, reencode))
            && CollectedMap(msg, fields, n, sel, d, reencode)
               == var before := CollectedMap(msg, fields, n - 1, sel, d, reencode);
                  if Chosen(fields, f, sel) then before[f.name := SentCell(msg, f, d, reencode)] else before
  {
    var front, f := Collected(msg, fields, n - 1, sel, d, reencode).value, fields[n - 1];
    if Chosen(fields, f, sel) {
      ChangeMapSnoc(front.names, front.vals, f.name, ArgFor(f, d, msg[f.name], reencode).value);
    }
  }

  /** One more field, not among those before it by name, extends the cells. */
  lemma CellsStep(m: map<string, Cell>, msg: GoMsg, fields: seq<FieldDesc>, n: nat, sel: Selector, d: Dialect,
                  reencode: bool)
    requires 0 < n <= |fields| && DistinctNames(fields) && CellsOfChosen(m, msg, fields, n - 1, sel, d, reencode)
    requires Chosen(fields, fields[n - 1], sel) ==> Sendable(msg, fields[n - 1], d, reencode)
    ensures CellsOfChosen(if Chosen(fields, fields[n - 1], sel)
                          then m[fields[n - 1].name := SentCell(msg, fields[n - 1], d, reencode)] else m,
                          msg, fields, n, sel, d, reencode)
  {
  }

  lemma {:induction false} CollectedCells(msg: GoMsg, fields: seq<FieldDesc>, n: nat, sel: Selector, d: Dialect,
                                          reencode: bool)
    requires n <= |fields| && Typed(msg, fields) && DistinctNames(fields)
    requires Collected(msg, fields, n, sel, d, reencode).Ok?
    ensures CellsOfChosen(CollectedMap(msg, fields, n, sel, d, reencode), msg, fields, n, sel, d, reencode)
    decreases n
  {
    if n > 0 {
      CollectedStep(msg, fields, n, sel, d, reencode);
      CollectedCells(msg, fields, n - 1, sel, d, reencode);
      CellsStep(CollectedMap(msg, fields, n - 1, sel, d, reencode), msg, fields, n, sel, d, reencode);
    }
  }

  lemma CellsUnique(m1: map<string, Cell>, m2: map<string, Cell>, msg: GoMsg, fields: seq<FieldDesc>, sel: Selector,
                    d: Dialect, reencode: bool)
    requires CellsOfChosen(m1, msg, fields, |fields|, sel, d, reencode)
             && CellsOfChosen(m2, msg, fields, |fields|, sel, d, reencode)
    ensures m1 == m2
  {
    assert m1.Keys == m2.Keys;
  }

  /** An update that can be built writes exactly the chosen fields, each with its encoded value. */
  lemma ChangesAreChosen(msg: GoMsg, fields: seq<FieldDesc>, sel: Selector, d: Dialect, reencode: bool)
    requires Typed(msg, fields) && DistinctNames(fields)
    ensures Changing(msg, fields, sel, d, reencode).Ok? <==>
            forall i :: 0 <= i < |fields| && Chosen(fields, fields[i], sel) ==> Sendable(msg, fields[i], d, reencode)
    ensures Changing(msg, fields, sel, d, reencode).Ok? ==>
            CellsOfChosen(ChangesOf(msg, fields, sel, d, reencode), msg, fields, |fields|, sel, d, reencode)
  {
    CollectedOkIff(msg, fields, |fields|, sel, d, reencode);
    if Changing(msg, fields, sel, d, reencode).Ok? {
      CollectedCells(msg, fields, |fields|, sel, d, reencode);
    }
  }

  // ---------- Key fields ----------

  /** The key fields are the primary ones. */
  lemma {:induction false} KeyFieldAt(fields: seq<FieldDesc>, i: nat)
    requires DistinctNames(fields) && i < |fields|
    ensures fields[i].name in KeyFields(fields) <==> fields[i].pdb.primary
    ensures fields[i].pdb.primary ==> KeyFields(fields)[fields[i].name] == fields[i]
  {
    var n := |fields| - 1;
    if i < n {
      assert fields[..n][i] == fields[i];
      KeyFieldAt(fields[..n], i);
    } else if fields[n].name in KeyFields(fields[..n]) {
      var k := KeyFieldIndex(fields[..n], fields[n].name);
    }
  }

  lemma {:induction false} KeyFieldIndex(fields: seq<FieldDesc>, c: string) returns (i: nat)
    requires c in KeyFields(fields)
    ensures i < |fields| && fields[i].name == c && fields[i].pdb.primary
  {
    var n := |fields| - 1;
    if fields[n].pdb.primary && fields[n].name == c {
      i := n;
    } else {
      i := KeyFieldIndex(fields[..n], c);
    }
  }

  // ---------- Re-encoding ----------

  /** No chosen field is an empty message to be stored as a default text. */
  ghost predicate NoDefaultedMessage(msg: GoMsg, fields: seq<FieldDesc>, n: nat, sel: Selector)
    requires n <= |fields|
  {
    forall i :: 0 <= i < n && Chosen(fields, fields[i], sel) && fields[i].name in msg ==>
      !DefaultedMessage(fields[i], msg[fields[i].name])
  }

  lemma DefaultedSnoc(msg: GoMsg, fields: seq<FieldDesc>, n: nat, sel: Selector)
    requires n < |fields|
    ensures NoDefaultedMessage(msg, fields, n + 1, sel) <==>
            && NoDefaultedMessage(msg, fields, n, sel)
            && (Chosen(fields, fields[n], sel) && fields[n].name in msg ==>
                !DefaultedMessage(fields[n], msg[fields[n].name]))
  {
  }

  /** Without a defaulted message the form that encodes substitutes again collects the same names
      and arguments, or meets the same error. */
  lemma {:induction false} ReencodingAgrees(msg: GoMsg, fields: seq<FieldDesc>, n: nat, sel: Selector, d: Dialect)
    requires n <= |fields| && Typed(msg, fields) && NoDefaultedMessage(msg, fields, n, sel)
    ensures Collected(msg, fields, n, sel, d, true) == Collected(msg, fields, n, sel, d, false)
    decreases n
  {
    if n > 0 {
      ReencodingAgrees(msg, fields, n - 1, sel, d);
      var f := fields[n - 1];
      if Chosen(fields, f, sel) && f.name in msg {
        ReencodeIsIdentity(f, d, msg[f.name]);
      }
    }
  }

  lemma {:induction false} ReencodingFails(msg: GoMsg, fields: seq<FieldDesc>, n: nat, sel: Selector, d: Dialect)
    requires n <= |fields| && Typed(msg, fields) && !NoDefaultedMessage(msg, fields, n, sel)
    ensures Collected(msg, fields, n, sel, d, true).Err?
    decreases n
  {
    if n > 0 {
      DefaultedSnoc(msg, fields, n - 1, sel);
      if !NoDefaultedMessage(msg, fields, n - 1, sel) {
        ReencodingFails(msg, fields, n - 1, sel, d);
      } else {
        ReencodeIsIdentity(fields[n - 1], d, msg[fields[n - 1].name]);
      }
    }
  }

  /** The statement with a common table expression can be built exactly when the native one can
      and no chosen field is a defaulted message; then both write the same cells. */
  lemma CteBuildableIff(msg: GoMsg, fields: seq<FieldDesc>, sel: Selector, d: Dialect)
    requires Typed(msg, fields)
    ensures Buildable(msg, fields, sel, d, true, true) <==>
            Buildable(msg, fields, sel, d, false, true) && NoDefaultedMessage(msg, fields, |fields|, sel)
    ensures Buildable(msg, fields, sel, d, true, true) ==>
            ChangesOf(msg, fields, sel, d, true) == ChangesOf(msg, fields, sel, d, false)
  {
    if NoDefaultedMessage(msg, fields, |fields|, sel) {
      ReencodingAgrees(msg, fields, |fields|, sel, d);
    } else {
      ReencodingFails(msg, fields, |fields|, sel, d);
    }
  }

  /** A message the native statement can update while the one with a common table expression fails. */
  lemma ReencodingCanFail()
    ensures exists msg: GoMsg, fields, d ::
              && Typed(msg, fields)
              && Buildable(msg, fields, UpTo(0), d, false, true)
              && !Buildable(msg, fields, UpTo(0), d, true, true)
  {
    var plain := Pdb(false, true, false, false, false, "", "", false, false);
    var id := FieldDesc("id", 1, Int64Kind, Singular, plain);
    var body := FieldDesc("body", 2, MessageKind, Singular, plain.(primary := false, defaultValue := "{}"));
    var msg: GoMsg := map["id" := Int(1), "body" := Msg(Nested(0, ""))];
    var fields := [id, body];
    assert KeyFields([id]) == map["id" := id] by {
      assert [id][..0] == [];
      assert KeyFields([]) == map[];
    }
    assert KeyFields(fields) == map["id" := id] by {
      assert fields[..1] == [id];
    }
    var none := Collected(msg, fields, 1, UpTo(0), Postgres, false);
    assert none == Ok(Changes([], [])) by {
      assert Collected(msg, fields, 0, UpTo(0), Postgres, false) == Ok(Changes([], []));
      assert !Chosen(fields, fields[0], UpTo(0));
    }
    assert Chosen(fields, body, UpTo(0)) && ArgFor(body, Postgres, msg["body"], false) == Ok(Str("{}"));
    assert Collected(msg, fields, 2, UpTo(0), Postgres, false) == Ok(Changes([] + ["body"], [] + [Str("{}")]));
    assert DefaultedMessage(fields[1], msg[fields[1].name]);
    CteBuildableIff(msg, fields, UpTo(0), Postgres);
    assert Typed(msg, fields) && Buildable(msg, fields, UpTo(0), Postgres, false, true);
  }

  // ---------- What changes and what stays ----------

  /** A cell map that touches no key column. */
  ghost predicate SparesKeys(m: map<string, Cell>, fields: seq<FieldDesc>) {
    m.Keys !! KeyFields(fields).Keys
  }

  lemma ChangesSpareKeys(msg: GoMsg, fields: seq<FieldDesc>, sel: Selector, d: Dialect, reencode: bool)
    requires Typed(msg, fields) && DistinctNames(fields) && Changing(msg, fields, sel, d, reencode).Ok?
    ensures SparesKeys(ChangesOf(msg, fields, sel, d, reencode), fields)
  {
    ChangesAreChosen(msg, fields, sel, d, reencode);
  }

  /** Another row is untouched; in the row of the key, a cell that changes belongs to an updatable
      field that is no key, is named by a partial update, and does not exceed the last field number. */
  lemma {:induction false} UpdateFrame(r: Row, msg: GoMsg, fields: seq<FieldDesc>, sel: Selector, d: Dialect,
                                       reencode: bool, c: string)
    requires Typed(msg, fields) && DistinctNames(fields) && Changing(msg, fields, sel, d, reencode).Ok?
    ensures var after := UpdatedRow(r, KeyOf(msg, fields), ChangesOf(msg, fields, sel, d, reencode));
            && (!HasKey(r, KeyOf(msg, fields)) ==> after == r)
            && (!(c in r && c in after && after[c] == r[c]) && (c in r || c in after) ==>
                  exists i :: && 0 <= i < |fields| && fields[i].name == c && c !in KeyFields(fields)
                    && fields[i].pdb.NeedInUpdate()
                              && (sel.Named? ==> c in sel.names)
                              && (sel.UpTo? && sel.last > 0 ==> fields[i].number <= sel.last))
  {
    ChangesAreChosen(msg, fields, sel, d, reencode);
    var m := ChangesOf(msg, fields, sel, d, reencode);
    if c in m {
      var i :| 0 <= i < |fields| && Chosen(fields, fields[i], sel) && fields[i].name == c;
    }
  }

  /** Writing cells outside the key columns keeps a row's key. */
  lemma KeyStays(r: Row, m: map<string, Cell>, msg: GoMsg, fields: seq<FieldDesc>)
    requires SparesKeys(m, fields)
    ensures HasKey(r + m, KeyOf(msg, fields)) <==> HasKey(r, KeyOf(msg, fields))
  {
    var key := KeyOf(msg, fields);
    forall c | c in key
      ensures (c in r + m <==> c in r) && (c in r ==> (r + m)[c] == r[c])
    {
      assert c in KeyFields(fields).Keys;
    }
  }

  lemma CellStays(r: Row, key: Key, m: map<string, Cell>, c: string)
    requires c !in m
    ensures c in UpdatedRow(r, key, m) <==> c in r
    ensures c in r ==> UpdatedRow(r, key, m)[c] == r[c]
  {
  }

  /** An update keeps the key unique. */
  lemma {:induction false} UniqueStays(t: Table, msg: GoMsg, fields: seq<FieldDesc>, m: map<string, Cell>)
    requires KeyUnique(t, KeyFields(fields).Keys) && SparesKeys(m, fields)
    ensures KeyUnique(UpdatedTable(t, KeyOf(msg, fields), m), KeyFields(fields).Keys)
  {
    var key, cols := KeyOf(msg, fields), KeyFields(fields).Keys;
    var t' := UpdatedTable(t, key, m);
    forall r1, r2 | r1 in t' && r2 in t' && SameOn(r1, r2, cols)
      ensures r1 == r2
    {
      var o1 :| o1 in t && r1 == UpdatedRow(o1, key, m);
      var o2 :| o2 in t && r2 == UpdatedRow(o2, key, m);
      SameBefore(o1, o2, key, m, cols);
    }
  }

  lemma SameBefore(o1: Row, o2: Row, key: Key, m: map<string, Cell>, cols: set<string>)
    requires m.Keys !! cols && SameOn(UpdatedRow(o1, key, m), UpdatedRow(o2, key, m), cols)
    ensures SameOn(o1, o2, cols)
  {
    forall c | c in cols
      ensures c in o1 && c in o2 && o1[c] == o2[c]
    {
      CellStays(o1, key, m, c);
      CellStays(o2, key, m, c);
      assert c in UpdatedRow(o1, key, m);
    }
  }

  /** The rows of the key after an update are those before it, changed. */
  lemma KeyedAfterUpdate(t: Table, msg: GoMsg, fields: seq<FieldDesc>, m: map<string, Cell>)
    requires SparesKeys(m, fields)
    ensures forall r :: r in KeyedRows(t, KeyOf(msg, fields)) ==>
            r + m in KeyedRows(UpdatedTable(t, KeyOf(msg, fields), m), KeyOf(msg, fields))
    ensures forall x :: x in KeyedRows(UpdatedTable(t, KeyOf(msg, fields), m), KeyOf(msg, fields)) ==>
              exists r :: r in KeyedRows(t, KeyOf(msg, fields)) && x == r + m
  {
    var key := KeyOf(msg, fields);
    var t' := UpdatedTable(t, key, m);
    forall r | r in KeyedRows(t, key)
      ensures r + m in KeyedRows(t', key)
    {
      KeyStays(r, m, msg, fields);
      assert UpdatedRow(r, key, m) in t';
    }
    forall x | x in KeyedRows(t', key)
      ensures exists r :: r in KeyedRows(t, key) && x == r + m
    {
      var r :| r in t && x == UpdatedRow(r, key, m);
      assert HasKey(r, key);
      assert r in KeyedRows(t, key);
    }
  }

  // ---------- Full and partial updates ----------

  /** A partial update that names every updatable field collects what a full update collects. */
  lemma {:induction false} PartialOfAllIsFull(msg: GoMsg, fields: seq<FieldDesc>, n: nat, names: seq<string>,
                                              d: Dialect, reencode: bool)
    requires n <= |fields| && Typed(msg, fields)
    requires forall i :: 0 <= i < |fields| && Wanted(fields[i], UpTo(0)) ==> fields[i].name in names
    ensures Collected(msg, fields, n, Named(names), d, reencode) == Collected(msg, fields, n, UpTo(0), d, reencode)
    decreases n
  {
    if n > 0 {
      PartialOfAllIsFull(msg, fields, n - 1, names, d, reencode);
    }
  }

  /** Updating by some names and then by others writes the cells of both. */
  lemma TwoPartialsAreOne(msg: GoMsg, fields: seq<FieldDesc>, f: seq<string>, g: seq<string>, d: Dialect,
                          reencode: bool)
    requires Typed(msg, fields) && DistinctNames(fields)
    ensures Changing(msg, fields, Named(f + g), d, reencode).Ok? <==>
            Changing(msg, fields, Named(f), d, reencode).Ok? && Changing(msg, fields, Named(g), d, reencode).Ok?
    ensures Changing(msg, fields, Named(f + g), d, reencode).Ok? ==>
            ChangesOf(msg, fields, Named(f), d, reencode) + ChangesOf(msg, fields, Named(g), d, reencode)
            == ChangesOf(msg, fields, Named(f + g), d, reencode)
  {
    ChangesAreChosen(msg, fields, Named(f), d, reencode);
    ChangesAreChosen(msg, fields, Named(g), d, reencode);
    ChangesAreChosen(msg, fields, Named(f + g), d, reencode);
    NamesOfBoth(fields, f, g);
    if Changing(msg, fields, Named(f + g), d, reencode).Ok? {
      var mf, mg := ChangesOf(msg, fields, Named(f), d, reencode), ChangesOf(msg, fields, Named(g), d, reencode);
      CellsOfBoth(mf, mg, msg, fields, f, g, d, reencode);
      CellsUnique(mf + mg, ChangesOf(msg, fields, Named(f + g), d, reencode), msg, fields, Named(f + g), d, reencode);
    }
  }

  lemma NamesOfBoth(fields: seq<FieldDesc>, f: seq<string>, g: seq<string>)
    ensures forall i :: 0 <= i < |fields| ==>
              (Chosen(fields, fields[i], Named(f + g))
               <==> Chosen(fields, fields[i], Named(f)) || Chosen(fields, fields[i], Named(g)))
  {
  }

  lemma CellOfBoth(mf: map<string, Cell>, mg: map<string, Cell>, msg: GoMsg, fields: seq<FieldDesc>, i: nat,
                   f: seq<string>, g: seq<string>, d: Dialect, reencode: bool)
    requires DistinctNames(fields) && i < |fields|
    requires CellsOfChosen(mf, msg, fields, |fields|, Named(f), d, reencode)
             && CellsOfChosen(mg, msg, fields, |fields|, Named(g), d, reencode)
    requires Chosen(fields, fields[i], Named(f)) || Chosen(fields, fields[i], Named(g))
    ensures Sendable(msg, fields[i], d, reencode) && fields[i].name in mf + mg
    ensures (mf + mg)[fields[i].name] == SentCell(msg, fields[i], d, reencode)
  {
    if fields[i].name in mg {
      var j :| 0 <= j < |fields| && Chosen(fields, fields[j], Named(g)) && fields[j].name == fields[i].name;
      assert i == j;
    }
  }

  lemma CellsOfBoth(mf: map<string, Cell>, mg: map<string, Cell>, msg: GoMsg, fields: seq<FieldDesc>, f: seq<string>,
                    g: seq<string>, d: Dialect, reencode: bool)
    requires DistinctNames(fields)
    requires CellsOfChosen(mf, msg, fields, |fields|, Named(f), d, reencode)
             && CellsOfChosen(mg, msg, fields, |fields|, Named(g), d, reencode)
    ensures CellsOfChosen(mf + mg, msg, fields, |fields|, Named(f + g), d, reencode)
  {
    NamesOfBoth(fields, f, g);
    forall i | 0 <= i < |fields| && Chosen(fields, fields[i], Named(f + g))
      ensures Sendable(msg, fields[i], d, reencode) && fields[i].name in mf + mg
      ensures (mf + mg)[fields[i].name] == SentCell(msg, fields[i], d, reencode)
    {
      CellOfBoth(mf, mg, msg, fields, i, f, g, d, reencode);
    }
    forall c | c in mf + mg
      ensures exists i :: 0 <= i < |fields| && Chosen(fields, fields[i], Named(f + g)) && fields[i].name == c
    {
      if c in mf {
        var i :| 0 <= i < |fields| && Chosen(fields, fields[i], Named(f)) && fields[i].name == c;
        assert Chosen(fields, fields[i], Named(f + g));
      } else {
        var i :| 0 <= i < |fields| && Chosen(fields, fields[i], Named(g)) && fields[i].name == c;
        assert Chosen(fields, fields[i], Named(f + g));
      }
    }
  }

  /** Two updates of one key in a row, neither touching the key, are one update. */
  lemma UpdatesCompose(t: Table, msg: GoMsg, fields: seq<FieldDesc>, m1: map<string, Cell>, m2: map<string, Cell>)
    requires SparesKeys(m1, fields)
    ensures UpdatedTable(UpdatedTable(t, KeyOf(msg, fields), m1), KeyOf(msg, fields), m2)
            == UpdatedTable(t, KeyOf(msg, fields), m1 + m2)
  {
    var key := KeyOf(msg, fields);
    forall r
      ensures UpdatedRow(UpdatedRow(r, key, m1), key, m2) == UpdatedRow(r, key, m1 + m2)
    {
      KeyStays(r, m1, msg, fields);
      assert r + (m1 + m2) == r + m1 + m2;
    }
    var a, b := UpdatedTable(UpdatedTable(t, key, m1), key, m2), UpdatedTable(t, key, m1 + m2);
    forall x | x in a
      ensures x in b
    {
      var r :| r in t && x == UpdatedRow(UpdatedRow(r, key, m1), key, m2);
    }
    forall x | x in b
      ensures x in a
    {
      var r :| r in t && x == UpdatedRow(r, key, m1 + m2);
      assert UpdatedRow(r, key, m1) in UpdatedTable(t, key, m1);
    }
  }

  /** Partial updates by f and then by g, from one message, leave the table that one partial
      update by both leaves. */
  lemma PartialTwice(t: Table, msg: GoMsg, fields: seq<FieldDesc>, f: seq<string>, g: seq<string>, d: Dialect)
    requires Typed(msg, fields) && DistinctNames(fields) && Changing(msg, fields, Named(f + g), d, false).Ok?
    ensures Changing(msg, fields, Named(f), d, false).Ok? && Changing(msg, fields, Named(g), d, false).Ok?
    ensures var key := KeyOf(msg, fields);
            UpdatedTable(UpdatedTable(t, key, ChangesOf(msg, fields, Named(f), d, false)), key,
                         ChangesOf(msg, fields, Named(g), d, false))
            == UpdatedTable(t, key, ChangesOf(msg, fields, Named(f + g), d, false))
  {
    TwoPartialsAreOne(msg, fields, f, g, d, false);
    ChangesSpareKeys(msg, fields, Named(f), d, false);
    UpdatesCompose(t, msg, fields, ChangesOf(msg, fields, Named(f), d, false),
                   ChangesOf(msg, fields, Named(g), d, false));
  }
}
