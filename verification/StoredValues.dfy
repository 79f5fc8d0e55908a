/** What an update or an insert stores, said of the message and of the options of its fields. */
module StoredValues {
  import opened Prelude
  import opened Sqldb
  import opened Text
  import opened Message
  import opened Codec
  import opened Sql
  import opened UpdateBuilder
  import opened UpdateMeaning
  import opened UpdateLaws

  // ---------- One value ----------

  /** Values that the options of a field can replace. */
  predicate Zero(v: GoVal) {
    || v == Str("") || v == Str("0") || v == Int(0) || v == Real(0.0) || v == GoVal.Enum(0, false)
    || (v.Msg? && (v.msg.text == "" || v.msg.text == "0"))
  }

  /** The messages of a list in order, without the nil elements. */
  ghost predicate MessagesOf(es: seq<GoVal>, at: seq<nat>, js: seq<Json>) {
    && |js| == |at| && (forall k, l :: 0 <= k < l < |at| ==> at[k] < at[l])
    && (forall k :: 0 <= k < |at| ==> at[k] < |es| && es[at[k]].Msg? && js[k] == JMsg(es[at[k]].msg))
    && (forall i :: 0 <= i < |es| && es[i].Msg? ==> i in at)
  }

  ghost predicate ListOfMessages(es: seq<GoVal>, js: seq<Json>) {
    exists at :: MessagesOf(es, at, js)
  }

  /** An array with the same elements, of which an unsigned one is the int64 with the same bits. */
  ghost predicate ArrayOfList(kind: Kind, d: Dialect, es: seq<GoVal>, stored: seq<GoVal>) {
    |stored| == |es| && forall i :: 0 <= i < |es| ==>
      stored[i] == if d == Postgres && (kind == Uint32Kind || kind == Uint64Kind) && es[i].Int? && es[i].n >= TWO63
                   then Int(es[i].n - TWO64) else es[i]
  }

  /** The cell of a field that is not replaced: a scalar as it is, a pointer by its target, a message,
      a map and a list of messages as JSON, a list of scalars as JSON on SQLite and MySQL and as an
      array elsewhere. */
  ghost predicate Kept(f: FieldDesc, d: Dialect, v: GoVal, cell: Cell) {
    match f.card
    case Singular =>
      if f.kind == MessageKind then
        cell == Val(JsonText(if v.Msg? then JMsg(v.msg) else JObj(map[])))
      else
        (match v
         case Nil => cell == Null
         case NullString => cell == Null
         case NilPtr => cell == Null
         case Ptr(t) => cell == ToCell(t)
         case _ => cell == Val(v))
    case MapOf(_) =>
      v.MapVal? && cell.Val? && cell.v.JsonText? && cell.v.j.JObj? && Writes(v.m, cell.v.j.members)
    case ListOf =>
      v.Slice? && cell.Val? &&
      if f.kind == MessageKind then
        cell.v.JsonText? && cell.v.j.JArr? && ListOfMessages(v.elems, cell.v.j.elems)
      else if d == SQLite || d == Mysql then
        && cell.v.JsonText? && cell.v.j.JArr? && |cell.v.j.elems| == |v.elems|
        && forall i :: 0 <= i < |v.elems| ==> cell.v.j.elems[i] == JsonOf(v.elems[i])
      else cell.v.Slice? && ArrayOfList(f.kind, d, v.elems, cell.v.elems)
  }

  /** The cell of a field: NULL in place of a zero if the field may be NULL and is a reference or says
      so, the default text in place of any other zero if there is one, and the value otherwise. */
  ghost predicate StoredAs(f: FieldDesc, d: Dialect, v: GoVal, cell: Cell) {
    if Zero(v) && !f.pdb.notNull && (f.pdb.reference != "" || f.pdb.zeroAsNull) then cell == Null
    else if Zero(v) && f.pdb.defaultValue != "" then cell == Val(Str(f.pdb.defaultValue))
    else Kept(f, d, v, cell)
  }

  lemma {:induction false} MessageListMeans(es: seq<GoVal>) returns (at: seq<nat>)
    ensures MessagesOf(es, at, MessageList(es))
  {
    at := [];
    if es != [] {
      var n := |es| - 1;
      at := MessageListMeans(es[..n]);
      if es[n].Msg? {
        MessageKept(es, at, MessageList(es[..n]));
        at := at + [n];
      } else {
        MessageDropped(es, at, MessageList(es[..n]));
      }
    }
  }

  lemma MessageKept(es: seq<GoVal>, at: seq<nat>, js: seq<Json>)
    requires es != [] && es[|es| - 1].Msg? && MessagesOf(es[..|es| - 1], at, js)
    ensures MessagesOf(es, at + [|es| - 1], js + [JMsg(es[|es| - 1].msg)])
  {
    var n := |es| - 1;
    forall i | 0 <= i < |es| && es[i].Msg?
      ensures i in at + [n]
    {
      if i < n {
        assert es[..n][i] == es[i];
        var k :| 0 <= k < |at| && at[k] == i;
        assert (at + [n])[k] == i;
      } else {
        assert (at + [n])[|at|] == i;
      }
    }
  }

  lemma MessageDropped(es: seq<GoVal>, at: seq<nat>, js: seq<Json>)
    requires es != [] && !es[|es| - 1].Msg? && MessagesOf(es[..|es| - 1], at, js)
    ensures MessagesOf(es, at, js)
  {
    forall i | 0 <= i < |es| && es[i].Msg?
      ensures i in at
    {
      assert es[..|es| - 1][i] == es[i];
    }
  }

  lemma ListIsKept(f: FieldDesc, d: Dialect, v: GoVal)
    requires f.IsList() && v.Slice? && Encoded(f, d, v).Ok?
    ensures Kept(f, d, v, ToCell(Encoded(f, d, v).value))
  {
    if f.kind == MessageKind {
      var at := MessageListMeans(v.elems);
    } else if d == SQLite || d == Mysql {
      assert JsonOf(v).JArr?;
    }
  }

  lemma MapIsKept(f: FieldDesc, d: Dialect, v: GoVal)
    requires f.IsMap() && v.MapVal? && KeysOfKind(f.card.key, v.m) && Encoded(f, d, v).Ok?
    ensures Kept(f, d, v, ToCell(Encoded(f, d, v).value))
  {
  }

  /** What is sent for a field is stored as its options say. */
  lemma SentIsStored(f: FieldDesc, d: Dialect, v: GoVal)
    requires TypedValue(f, v) && ArgFor(f, d, v, false).Ok?
    ensures StoredAs(f, d, v, ToCell(ArgFor(f, d, v, false).value))
  {
    match f.card {
      case Singular =>
      case MapOf(_) => MapIsKept(f, d, v);
      case ListOf => ListIsKept(f, d, v);
    }
  }

  predicate Replaced(f: FieldDesc, v: GoVal) {
    Zero(v) && ((!f.pdb.notNull && (f.pdb.reference != "" || f.pdb.zeroAsNull)) || f.pdb.defaultValue != "")
  }

  predicate OnlyMessages(vs: set<GoVal>) {
    forall v :: v in vs ==> v == NilPtr || v.Msg?
  }

  /** The value can be sent: a map or list of messages holds nothing else. */
  predicate Encodable(f: FieldDesc, v: GoVal) {
    f.kind == MessageKind && !Replaced(f, v) ==>
      match v
      case MapVal(m) => OnlyMessages(m.Values)
      case Slice(es) => OnlyMessages(Elems(es))
      case _ => true
  }

  lemma EncodableMeans(f: FieldDesc, d: Dialect, v: GoVal)
    requires TypedValue(f, v)
    ensures ArgFor(f, d, v, false).Ok? <==> Encodable(f, v)
  {
  }

  // ---------- The row of the key ----------

  /** The row has the message's value in every primary column; a NULL key is no row's. */
  ghost predicate KeyIs(r: Row, msg: GoMsg, fields: seq<FieldDesc>) {
    forall i :: 0 <= i < |fields| && fields[i].pdb.primary ==>
      var c := fields[i].name;
      c in r && c in msg && r[c] == ToCell(msg[c]) && r[c] != Null
  }

  lemma {:induction false} HasKeyMeans(r: Row, msg: GoMsg, fields: seq<FieldDesc>)
    requires DistinctNames(fields)
    ensures HasKey(r, KeyOf(msg, fields)) <==> KeyIs(r, msg, fields)
  {
    if KeyIs(r, msg, fields) {
      forall c | c in KeyOf(msg, fields)
        ensures c in r && KeyOf(msg, fields)[c] != Null && r[c] == KeyOf(msg, fields)[c]
      {
        var i := KeyFieldIndex(fields, c);
      }
    }
    if HasKey(r, KeyOf(msg, fields)) {
      forall i | 0 <= i < |fields| && fields[i].pdb.primary
        ensures var c := fields[i].name; c in r && c in msg && r[c] == ToCell(msg[c]) && r[c] != Null
      {
        KeyFieldAt(fields, i);
        assert fields[i].name in KeyOf(msg, fields);
      }
    }
  }

  // ---------- Updates ----------

  /** The update sets the field: it is stored and updatable, is no key, and is asked for. */
  predicate Sets(f: FieldDesc, sel: Selector) {
    && !f.pdb.primary && !f.pdb.notDB && !f.pdb.noUpdate
    && match sel
       case UpTo(last) => last <= 0 || f.number <= last
       case Named(names) => f.name in names
  }

  predicate SameCell(c: string, r: Row, r': Row) {
    if c in r then c in r' && r'[c] == r[c] else c !in r'
  }

  predicate SetsColumn(f: FieldDesc, sel: Selector, c: string) {
    Sets(f, sel) && f.name == c
  }

  /** The columns of the fields that are set have the message's values, the others are as before. */
  ghost predicate RowUpdated(r: Row, r': Row, msg: GoMsg, fields: seq<FieldDesc>, sel: Selector, d: Dialect) {
    && (forall i :: 0 <= i < |fields| && Sets(fields[i], sel) ==>
          var c := fields[i].name;
          c in msg && c in r' && StoredAs(fields[i], d, msg[c], r'[c]))
    && (forall c :: (exists i :: 0 <= i < |fields| && SetsColumn(fields[i], sel, c)) || SameCell(c, r, r'))
  }

  ghost predicate RowAfter(r: Row, r': Row, msg: GoMsg, fields: seq<FieldDesc>, sel: Selector, d: Dialect) {
    if KeyIs(r, msg, fields) then RowUpdated(r, r', msg, fields, sel, d) else r' == r
  }

  /** Each row of the key is updated, every other row stays, and there is no other row. */
  ghost predicate TableUpdated(t: Table, t': Table, msg: GoMsg, fields: seq<FieldDesc>, sel: Selector, d: Dialect) {
    && (forall r :: r in t ==> exists r' :: r' in t' && RowAfter(r, r', msg, fields, sel, d))
    && (forall r' :: r' in t' ==> exists r :: r in t && RowAfter(r, r', msg, fields, sel, d))
  }

  lemma ChosenMeans(fields: seq<FieldDesc>, i: nat, sel: Selector)
    requires DistinctNames(fields) && i < |fields|
    ensures Chosen(fields, fields[i], sel) <==> Sets(fields[i], sel)
  {
    KeyFieldAt(fields, i);
  }

  lemma ChangedRow(r: Row, m: map<string, Cell>, msg: GoMsg, fields: seq<FieldDesc>, sel: Selector, d: Dialect)
    requires DistinctNames(fields) && CellsOfChosen(m, msg, fields, |fields|, sel, d, false)
    ensures RowUpdated(r, r + m, msg, fields, sel, d)
  {
    forall i | 0 <= i < |fields| && Sets(fields[i], sel)
      ensures var c := fields[i].name;
              c in msg && c in r + m && StoredAs(fields[i], d, msg[c], (r + m)[c])
    {
      ChosenMeans(fields, i, sel);
      SentIsStored(fields[i], d, msg[fields[i].name]);
    }
    forall c | !SameCell(c, r, r + m)
      ensures exists i :: 0 <= i < |fields| && SetsColumn(fields[i], sel, c)
    {
      var i :| 0 <= i < |fields| && Chosen(fields, fields[i], sel) && fields[i].name == c;
      ChosenMeans(fields, i, sel);
      assert SetsColumn(fields[i], sel, c);
    }
  }

  /** The row an update makes of a row. */
  lemma UpdatedRowMeans(r: Row, msg: GoMsg, fields: seq<FieldDesc>, sel: Selector, d: Dialect)
    requires Typed(msg, fields) && DistinctNames(fields) && Changing(msg, fields, sel, d, false).Ok?
    ensures RowAfter(r, UpdatedRow(r, KeyOf(msg, fields), ChangesOf(msg, fields, sel, d, false)), msg, fields, sel, d)
    ensures HasKey(r, KeyOf(msg, fields)) ==>
              RowUpdated(r, r + ChangesOf(msg, fields, sel, d, false), msg, fields, sel, d)
  {
    HasKeyMeans(r, msg, fields);
    ChangesAreChosen(msg, fields, sel, d, false);
    ChangedRow(r, ChangesOf(msg, fields, sel, d, false), msg, fields, sel, d);
  }

  /** The table after an update, said of the message. */
  lemma UpdatedTableMeans(t: Table, msg: GoMsg, fields: seq<FieldDesc>, sel: Selector, d: Dialect)
    requires Typed(msg, fields) && DistinctNames(fields) && Changing(msg, fields, sel, d, false).Ok?
    ensures TableUpdated(t, UpdatedTable(t, KeyOf(msg, fields), ChangesOf(msg, fields, sel, d, false)), msg, fields,
                         sel, d)
  {
    var key, m := KeyOf(msg, fields), ChangesOf(msg, fields, sel, d, false);
    forall r | r in t
      ensures UpdatedRow(r, key, m) in UpdatedTable(t, key, m)
      ensures RowAfter(r, UpdatedRow(r, key, m), msg, fields, sel, d)
    {
      UpdatedRowMeans(r, msg, fields, sel, d);
    }
  }

  /** The update can be made: the table exists, the message has every field of its key, of which there
      is one, and there is a field to set; each can be sent. */
  ghost predicate CanUpdate(before: Tables, table: string, msg: GoMsg, fields: seq<FieldDesc>, sel: Selector) {
    && table in before
    && (exists i :: 0 <= i < |fields| && fields[i].pdb.primary)
    && (forall i :: 0 <= i < |fields| && fields[i].pdb.primary ==> fields[i].name in msg)
    && (exists i :: 0 <= i < |fields| && Sets(fields[i], sel))
    && (forall i :: 0 <= i < |fields| && Sets(fields[i], sel) ==>
          fields[i].name in msg && Encodable(fields[i], msg[fields[i].name]))
  }

  lemma {:induction false} HasKeysMeans(msg: GoMsg, fields: seq<FieldDesc>)
    requires DistinctNames(fields)
    ensures KeyFields(fields) != map[] <==> exists i :: 0 <= i < |fields| && fields[i].pdb.primary
    ensures HasKeys(msg, fields) <==>
            forall i :: 0 <= i < |fields| && fields[i].pdb.primary ==> fields[i].name in msg
  {
    forall i | 0 <= i < |fields|
      ensures fields[i].name in KeyFields(fields) <==> fields[i].pdb.primary
    {
      KeyFieldAt(fields, i);
    }
    forall c | c in KeyFields(fields)
      ensures exists i :: 0 <= i < |fields| && fields[i].pdb.primary && fields[i].name == c
    {
      var i := KeyFieldIndex(fields, c);
    }
  }

  lemma {:induction false} SomethingCollected(msg: GoMsg, fields: seq<FieldDesc>, n: nat, sel: Selector, d: Dialect)
    requires n <= |fields| && Typed(msg, fields) && Collected(msg, fields, n, sel, d, false).Ok?
    ensures Collected(msg, fields, n, sel, d, false).value.names != []
       <==> exists i :: 0 <= i < n && Chosen(fields, fields[i], sel)
    decreases n
  {
    if n > 0 {
      SomethingCollected(msg, fields, n - 1, sel, d);
      assert Chosen(fields, fields[n - 1], sel) || !Chosen(fields, fields[n - 1], sel);
    }
  }

  lemma BuildableMeans(msg: GoMsg, fields: seq<FieldDesc>, sel: Selector, d: Dialect, tables: Tables, table: string)
    requires Typed(msg, fields) && DistinctNames(fields)
    ensures table in tables && Buildable(msg, fields, sel, d, false, true)
            <==> CanUpdate(tables, table, msg, fields, sel)
  {
    HasKeysMeans(msg, fields);
    ChangesAreChosen(msg, fields, sel, d, false);
    forall i | 0 <= i < |fields|
      ensures Chosen(fields, fields[i], sel) <==> Sets(fields[i], sel)
      ensures Sendable(msg, fields[i], d, false)
         <==> fields[i].name in msg && Encodable(fields[i], msg[fields[i].name])
    {
      ChosenMeans(fields, i, sel);
      if fields[i].name in msg {
        EncodableMeans(fields[i], d, msg[fields[i].name]);
      }
    }
    if Changing(msg, fields, sel, d, false).Ok? {
      SomethingCollected(msg, fields, |fields|, sel, d);
    }
  }

  /** One table is updated, said of the message, and the others stay. */
  ghost predicate UpdateSays(before: Tables, after: Tables, table: string, msg: GoMsg, fields: seq<FieldDesc>,
                             sel: Selector, d: Dialect)
  {
    && table in before && table in after && after == before[table := after[table]]
    && TableUpdated(before[table], after[table], msg, fields, sel, d)
  }
}
