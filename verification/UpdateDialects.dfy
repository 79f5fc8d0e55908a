/** One update on two dialects: the cells it writes and the tables it leaves. */
module UpdateDialects {
  import opened Sqldb
  import opened Text
  import opened Message
  import opened Codec
  import opened Sql
  import opened UpdateBuilder
  import opened UpdateMeaning
  import opened UpdateLaws

  // ---------- Forms of lists ----------

  /** How a dialect stores a list of scalars; a signed array holds unsigned integers as the int64 with
      the same bits. */
  datatype ListForm = PlainArray | SignedArray | JsonArray

  function FormOfList(d: Dialect, kind: Kind): ListForm {
    match d
    case SQLite => JsonArray
    case Mysql => JsonArray
    case Postgres => if UnsignedKind(kind) then SignedArray else PlainArray
    case _ => PlainArray
  }

  predicate NoneBig(es: seq<GoVal>) {
    forall i :: 0 <= i < |es| ==> es[i].Int? ==> es[i].n < TWO63
  }

  /** Two dialects store the value of a field alike: it is no list of scalars, or both have one form
      for it, or a signed array has no number to change. */
  predicate SameForm(f: FieldDesc, v: GoVal, d1: Dialect, d2: Dialect) {
    f.IsList() && f.kind != MessageKind ==>
      var a, b := FormOfList(d1, f.kind), FormOfList(d2, f.kind);
      a == b || (a != JsonArray && b != JsonArray && v.Slice? && NoneBig(v.elems))
  }

  lemma SignedFixed(es: seq<GoVal>)
    ensures SignedAll(es) == es <==> NoneBig(es)
  {
    var signed := SignedAll(es);
    if signed == es {
      forall i | 0 <= i < |es| && es[i].Int?
        ensures es[i].n < TWO63
      {
        assert signed[i] == Int(ToSigned64(es[i].n));
      }
    }
  }

  /** Whether a field can be sent does not depend on the dialect; the cell is the same exactly when
      the two store the value alike. */
  lemma ArgsAgreeIff(f: FieldDesc, v: GoVal, d1: Dialect, d2: Dialect)
    requires TypedValue(f, v)
    ensures ArgFor(f, d1, v, false).Ok? <==> ArgFor(f, d2, v, false).Ok?
    ensures ArgFor(f, d1, v, false).Ok? ==>
              (ToCell(ArgFor(f, d1, v, false).value) == ToCell(ArgFor(f, d2, v, false).value)
               <==> SameForm(f, v, d1, d2))
  {
    if f.IsList() && f.kind != MessageKind {
      SignedFixed(v.elems);
    }
  }

  ghost predicate SameForms(msg: GoMsg, fields: seq<FieldDesc>, sel: Selector, d1: Dialect, d2: Dialect) {
    forall i :: 0 <= i < |fields| && Chosen(fields, fields[i], sel) && fields[i].name in msg ==>
      SameForm(fields[i], msg[fields[i].name], d1, d2)
  }

  lemma SendableAgree(msg: GoMsg, fields: seq<FieldDesc>, i: nat, d1: Dialect, d2: Dialect)
    requires Typed(msg, fields) && i < |fields|
    ensures Sendable(msg, fields[i], d1, false) <==> Sendable(msg, fields[i], d2, false)
    ensures Sendable(msg, fields[i], d1, false) ==>
              (SentCell(msg, fields[i], d1, false) == SentCell(msg, fields[i], d2, false)
               <==> SameForm(fields[i], msg[fields[i].name], d1, d2))
  {
    if fields[i].name in msg {
      ArgsAgreeIff(fields[i], msg[fields[i].name], d1, d2);
    }
  }

  lemma CellAgreesIff(m1: map<string, Cell>, m2: map<string, Cell>, msg: GoMsg, fields: seq<FieldDesc>, i: nat,
                      sel: Selector, d1: Dialect, d2: Dialect)
    requires Typed(msg, fields) && i < |fields| && Chosen(fields, fields[i], sel)
    requires CellsOfChosen(m1, msg, fields, |fields|, sel, d1, false)
             && CellsOfChosen(m2, msg, fields, |fields|, sel, d2, false)
    ensures var c := fields[i].name;
            c in msg && c in m1 && c in m2 && (m1[c] == m2[c] <==> SameForm(fields[i], msg[c], d1, d2))
  {
    SendableAgree(msg, fields, i, d1, d2);
  }

  lemma SameColumns(m1: map<string, Cell>, m2: map<string, Cell>, msg: GoMsg, fields: seq<FieldDesc>, sel: Selector,
                    d1: Dialect, d2: Dialect)
    requires Typed(msg, fields)
    requires CellsOfChosen(m1, msg, fields, |fields|, sel, d1, false)
             && CellsOfChosen(m2, msg, fields, |fields|, sel, d2, false)
    ensures m1.Keys <= m2.Keys
  {
    forall c | c in m1
      ensures c in m2
    {
      var i :| 0 <= i < |fields| && Chosen(fields, fields[i], sel) && fields[i].name == c;
    }
  }

  lemma SameFormsSameCells(m1: map<string, Cell>, m2: map<string, Cell>, msg: GoMsg, fields: seq<FieldDesc>,
                           sel: Selector, d1: Dialect, d2: Dialect)
    requires Typed(msg, fields) && SameForms(msg, fields, sel, d1, d2) && m1.Keys == m2.Keys
    requires CellsOfChosen(m1, msg, fields, |fields|, sel, d1, false)
             && CellsOfChosen(m2, msg, fields, |fields|, sel, d2, false)
    ensures m1 == m2
  {
    forall c | c in m1
      ensures m1[c] == m2[c]
    {
      var i :| 0 <= i < |fields| && Chosen(fields, fields[i], sel) && fields[i].name == c;
      CellAgreesIff(m1, m2, msg, fields, i, sel, d1, d2);
    }
  }

  lemma SameCellsSameForms(m: map<string, Cell>, msg: GoMsg, fields: seq<FieldDesc>, sel: Selector, d1: Dialect,
                           d2: Dialect)
    requires Typed(msg, fields)
    requires CellsOfChosen(m, msg, fields, |fields|, sel, d1, false)
             && CellsOfChosen(m, msg, fields, |fields|, sel, d2, false)
    ensures SameForms(msg, fields, sel, d1, d2)
  {
    forall i | 0 <= i < |fields| && Chosen(fields, fields[i], sel) && fields[i].name in msg
      ensures SameForm(fields[i], msg[fields[i].name], d1, d2)
    {
      CellAgreesIff(m, m, msg, fields, i, sel, d1, d2);
    }
  }

  /** On every dialect an update can be collected or on none; two dialects write the same cells
      exactly when they store every chosen value alike. */
  lemma ChangesAgreeIff(msg: GoMsg, fields: seq<FieldDesc>, sel: Selector, d1: Dialect, d2: Dialect)
    requires Typed(msg, fields) && DistinctNames(fields) && Changing(msg, fields, sel, d1, false).Ok?
    ensures Changing(msg, fields, sel, d2, false).Ok?
    ensures ChangesOf(msg, fields, sel, d1, false).Keys == ChangesOf(msg, fields, sel, d2, false).Keys
    ensures ChangesOf(msg, fields, sel, d1, false) == ChangesOf(msg, fields, sel, d2, false)
       <==> SameForms(msg, fields, sel, d1, d2)
  {
    ChangesAreChosen(msg, fields, sel, d1, false);
    ChangesAreChosen(msg, fields, sel, d2, false);
    forall i | 0 <= i < |fields|
      ensures Sendable(msg, fields[i], d1, false) <==> Sendable(msg, fields[i], d2, false)
    {
      SendableAgree(msg, fields, i, d1, d2);
    }
    var m1, m2 := ChangesOf(msg, fields, sel, d1, false), ChangesOf(msg, fields, sel, d2, false);
    SameColumns(m1, m2, msg, fields, sel, d1, d2);
    SameColumns(m2, m1, msg, fields, sel, d2, d1);
    if SameForms(msg, fields, sel, d1, d2) {
      SameFormsSameCells(m1, m2, msg, fields, sel, d1, d2);
    }
    if m1 == m2 {
      SameCellsSameForms(m1, msg, fields, sel, d1, d2);
    }
  }

  /** Whatever the message, a list of scalars makes the cells of SQLite and PostgreSQL differ: JSON on
      the one and an array on the other. */
  lemma ListCellsDiffer(msg: GoMsg, fields: seq<FieldDesc>, sel: Selector, i: nat)
    requires Typed(msg, fields) && DistinctNames(fields) && Changing(msg, fields, sel, SQLite, false).Ok?
    requires i < |fields| && Chosen(fields, fields[i], sel) && fields[i].IsList() && fields[i].kind != MessageKind
    ensures Changing(msg, fields, sel, Postgres, false).Ok?
    ensures ChangesOf(msg, fields, sel, SQLite, false) != ChangesOf(msg, fields, sel, Postgres, false)
  {
    ChangesAgreeIff(msg, fields, sel, SQLite, Postgres);
    ChangesAreChosen(msg, fields, sel, SQLite, false);
    assert Sendable(msg, fields[i], SQLite, false);
    assert !SameForm(fields[i], msg[fields[i].name], SQLite, Postgres);
  }

  // ---------- Tables ----------

  lemma NothingKeyed(t: Table, key: Key, m: map<string, Cell>)
    requires KeyedRows(t, key) == {}
    ensures UpdatedTable(t, key, m) == t
    ensures forall r :: r in t ==> !HasKey(r, key)
  {
    forall r | r in t
      ensures !HasKey(r, key) && UpdatedRow(r, key, m) == r
    {
      assert r !in KeyedRows(t, key);
    }
    forall r | r in t
      ensures r in UpdatedTable(t, key, m)
    {
      assert UpdatedRow(r, key, m) == r;
    }
  }

  lemma SameCells(r1: Row, r2: Row, m1: map<string, Cell>, m2: map<string, Cell>)
    requires r1 + m1 == r2 + m2 && m1.Keys == m2.Keys
    ensures m1 == m2
  {
    forall c | c in m1
      ensures m1[c] == m2[c]
    {
      assert (r1 + m1)[c] == m1[c] && (r2 + m2)[c] == m2[c];
    }
  }

  lemma KeyedBefore(t: Table, msg: GoMsg, fields: seq<FieldDesc>, m1: map<string, Cell>, m2: map<string, Cell>, r: Row)
    returns (other: Row)
    requires SparesKeys(m1, fields) && r in t && HasKey(r, KeyOf(msg, fields))
    requires UpdatedTable(t, KeyOf(msg, fields), m1) == UpdatedTable(t, KeyOf(msg, fields), m2)
    ensures r + m1 == other + m2
  {
    var key := KeyOf(msg, fields);
    KeyStays(r, m1, msg, fields);
    assert UpdatedRow(r, key, m1) in UpdatedTable(t, key, m1);
    other :| other in t && r + m1 == UpdatedRow(other, key, m2);
  }

  /** Two updates of one key that set the same columns leave the same table exactly when they set the
      same cells or find no row. */
  lemma UpdatesAgreeIff(t: Table, msg: GoMsg, fields: seq<FieldDesc>, m1: map<string, Cell>, m2: map<string, Cell>)
    requires SparesKeys(m1, fields) && SparesKeys(m2, fields) && m1.Keys == m2.Keys
    ensures UpdatedTable(t, KeyOf(msg, fields), m1) == UpdatedTable(t, KeyOf(msg, fields), m2)
       <==> m1 == m2 || KeyedRows(t, KeyOf(msg, fields)) == {}
  {
    var key := KeyOf(msg, fields);
    if KeyedRows(t, key) == {} {
      NothingKeyed(t, key, m1);
      NothingKeyed(t, key, m2);
    } else if UpdatedTable(t, key, m1) == UpdatedTable(t, key, m2) {
      var r :| r in KeyedRows(t, key);
      var other := KeyedBefore(t, msg, fields, m1, m2, r);
      SameCells(r, other, m1, m2);
    }
  }
}
