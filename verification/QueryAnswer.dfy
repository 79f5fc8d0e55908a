/** The text of a built query, read as SQL, is answered with the rows the request asks for. */
module QueryAnswer {
  import opened Prelude
  import opened Sqldb
  import opened Text
  import opened Message
  import opened Sql
  import opened SqlBuilder
  import opened SqlCheck
  import opened Codec
  import opened UpdateBuilder
  import opened SqlRead
  import opened Operand
  import opened Where2
  import opened QuerySql
  import opened TableQuery
  import opened ConditionText
  import opened QueryMeaning
  import opened QueryText

  // ---------- The conditions on columns ----------

  function ColumnPart(ws: seq<string>, vs: seq<string>, pieces: seq<Piece>, style: PlaceholderStyle, no: nat): seq<Cond>
    requires |vs| == |pieces|
  {
    WhereConds(ws, style, no) + Where2Conds(vs, pieces, style, no + |ws|)
  }

  lemma CondsSplit(p: Permission, style: PlaceholderStyle, ws: seq<string>, vs: seq<string>, pieces: seq<Piece>)
    requires |vs| == |pieces|
    ensures var cs := ColumnPart(ws, vs, pieces, style, 1 + |GrantArgs(p)|);
            CondsFor(p, style, ws, vs, pieces) == Grants(p.text, |p.vals|) + cs && |cs| == |ws| + |vs|
  {
  }

  lemma PartAt(ws: seq<string>, vs: seq<string>, pieces: seq<Piece>, style: PlaceholderStyle, no: nat, i: nat)
    requires |vs| == |pieces| && i < |ws| + |vs|
    ensures ColumnPart(ws, vs, pieces, style, no)[i] == ColumnCond(ws, vs, pieces, style, no, i)
  {
  }

  lemma MapForm(d: Dialect, op: Op, value: string)
    requires MapCondition(d, op, value).Ok?
    ensures Proper(MapCondition(d, op, value).value.shape)
    ensures LiteSubquery(MapCondition(d, op, value).value.shape) <==> d == SQLite
  {
  }

  lemma ArrayForm(shape: Shape, arg: ArrayArgument, value: string)
    requires ArrayCondition(shape, arg, value).Ok?
    ensures ArrayCondition(shape, arg, value).value.shape == shape
  {
  }

  lemma PgForm(kind: Kind, op: Op, value: string, rt: Runtime)
    requires PgListCondition(kind, op, value, rt).Ok?
    ensures Proper(PgListCondition(kind, op, value, rt).value.shape)
    ensures !LiteSubquery(PgListCondition(kind, op, value, rt).value.shape)
  {
    if kind != MessageKind && (op == Overlap || op == ContainsAll) {
      ArrayForm(if op == Overlap then PgOverlap else PgContainsAll, ArrayArg(kind, value, rt), value);
    }
  }

  lemma LiteForm(kind: Kind, op: Op, value: string, rt: Runtime)
    requires LiteListCondition(kind, op, value, rt).Ok?
    ensures Proper(LiteListCondition(kind, op, value, rt).value.shape)
    ensures LiteSubquery(LiteListCondition(kind, op, value, rt).value.shape) <==> !LenOp(op)
  {
  }

  lemma MyForm(kind: Kind, op: Op, value: string, rt: Runtime)
    requires MyListCondition(kind, op, value, rt).Ok?
    ensures Proper(MyListCondition(kind, op, value, rt).value.shape)
    ensures !LiteSubquery(MyListCondition(kind, op, value, rt).value.shape)
  {
  }

  /** The condition of an operator is one the reader knows, and has a subquery exactly on SQLite for a
      map or an element of a list. */
  lemma PieceForm(d: Dialect, f: FieldDesc, op: Op, value: string, rt: Runtime)
    requires Where2Condition(d, f, op, value, rt).Ok?
    ensures var s := Where2Condition(d, f, op, value, rt).value.shape;
            Proper(s) && (LiteSubquery(s) <==> d == SQLite && (f.IsMap() || (f.IsList() && !LenOp(op))))
  {
    if f.IsMap() {
      MapForm(d, op, value);
    } else if f.IsList() {
      match d {
        case Postgres => PgForm(f.kind, op, value, rt);
        case SQLite => LiteForm(f.kind, op, value, rt);
        case Mysql => MyForm(f.kind, op, value, rt);
        case _ =>
      }
    }
  }

  lemma NamePlain(req: Request, fields: seq<FieldDesc>, u: Unicode, names: set<string>, n: string)
    requires n in names && AllResolve(fields, names, u) && n !in RESERVED
    ensures PlainColumn(n)
  {
    assert Resolves(fields, n, u);
    SegmentPlain(n, u);
  }

  lemma WalkedPlain(req: Request, msgName: string, fields: seq<FieldDesc>, u: Unicode, ws: seq<string>, vs: seq<string>)
    requires ValidRequest(req, msgName, fields, u) && NoReserved(req)
    requires WalkOf(req.where.Keys, ws) && WalkOf(req.where2.Keys, vs)
    ensures (forall i :: 0 <= i < |ws| ==> PlainColumn(ws[i])) && forall j :: 0 <= j < |vs| ==> PlainColumn(vs[j])
  {
    forall i | 0 <= i < |ws|
      ensures PlainColumn(ws[i])
    {
      assert ws[i] in Elems(ws);
      NamePlain(req, fields, u, req.where.Keys, ws[i]);
    }
    forall j | 0 <= j < |vs|
      ensures PlainColumn(vs[j])
    {
      assert vs[j] in Elems(vs);
      NamePlain(req, fields, u, req.where2.Keys, vs[j]);
    }
  }

  lemma OperatorForm(req: Request, fields: seq<FieldDesc>, d: Dialect, rt: Runtime, vs: seq<string>, pieces: seq<Piece>,
                     j: nat)
    requires ArePieces(pieces, req, fields, d, rt, vs) && j < |vs|
    ensures Proper(pieces[j].shape)
  {
    var n := vs[j];
    assert PieceOf(req, fields, d, rt, vs[j]) == Ok(pieces[j]);
    PieceForm(d, FieldOf(fields, n).value, req.where2Operator[n], req.where2[n], rt);
  }

  lemma CondPlain(req: Request, fields: seq<FieldDesc>, d: Dialect, rt: Runtime, ws: seq<string>, vs: seq<string>,
                  pieces: seq<Piece>, no: nat, i: nat)
    requires (forall k :: 0 <= k < |ws| ==> PlainColumn(ws[k])) && forall j :: 0 <= j < |vs| ==> PlainColumn(vs[j])
    requires ArePieces(pieces, req, fields, d, rt, vs) && i < |ws| + |vs|
    ensures PlainCond(ColumnCond(ws, vs, pieces, PlaceholderOf(d), no, i))
  {
    if i >= |ws| {
      OperatorForm(req, fields, d, rt, vs, pieces, i - |ws|);
    }
  }

  /** The text of a built query is read as the request's table and bounds, the permission, and one
      condition for each field. */
  lemma QueryRead(b: BuiltQuery, req: Request, p: Permission, msgName: string, fields: seq<FieldDesc>, d: Dialect,
                  u: Unicode, rt: Runtime, ws: seq<string>, vs: seq<string>, pieces: seq<Piece>)
    returns (st: Statement)
    requires IsBuilt(b, req, p, fields, d, rt, ws, vs, pieces) && ValidRequest(req, msgName, fields, u)
    requires NoReserved(req)
    ensures ReadStatement(req.resultColumns, p.text, b.sql) == Some(st)
    ensures st.table == BuildDbTableName(req.tableName, req.schemeName, d) && st.granted == (p.text != "")
    ensures st.limit == AtLeast0(req.limit) && st.offset == AtLeast0(req.offset)
    ensures AreRead(st.conds, ColumnPart(ws, vs, pieces, PlaceholderOf(d), 1 + |GrantArgs(p)|))
  {
    var style, no := PlaceholderOf(d), 1 + |GrantArgs(p)|;
    var cs := ColumnPart(ws, vs, pieces, style, no);
    CondsSplit(p, style, ws, vs, pieces);
    WalkedPlain(req, msgName, fields, u, ws, vs);
    forall i | 0 <= i < |cs|
      ensures PlainCond(cs[i])
    {
      PartAt(ws, vs, pieces, style, no, i);
      CondPlain(req, fields, d, rt, ws, vs, pieces, no, i);
    }
    var es := OneByOne(cs);
    TextsRead(es, cs);
    TablePlain(req, msgName, fields, u, d);
    StatementRead(b.query, p.text, |p.vals|, cs, es);
    st := Statement(b.query.table, p.text != "", es, AtLeast0(req.limit), AtLeast0(req.offset));
  }

  lemma TextsRead(es: seq<Expr>, cs: seq<Cond>)
    requires AreRead(es, cs)
    ensures ReadAll(CondTexts(cs), es)
  {
    forall i | 0 <= i < |es|
      ensures ReadsAs(CondTexts(cs)[i], es[i])
    {
      assert cs[i].OnColumn? && IsRead(es[i], cs[i]);
    }
  }

  // ---------- What a row must be ----------

  /** A statement read from the text of a query of these fields. */
  ghost predicate OfQuery(st: Statement, p: Permission, style: PlaceholderStyle, ws: seq<string>, vs: seq<string>,
                          pieces: seq<Piece>)
  {
    && |vs| == |pieces| && st.granted == (p.text != "")
    && AreRead(st.conds, ColumnPart(ws, vs, pieces, style, 1 + |GrantArgs(p)|))
  }

  lemma ReadAt(es: seq<Expr>, cs: seq<Cond>, i: nat)
    requires AreRead(es, cs) && i < |cs|
    ensures |es| == |cs| && cs[i].OnColumn? && IsRead(es[i], cs[i])
  {
  }

  lemma CondIsRead(st: Statement, p: Permission, style: PlaceholderStyle, ws: seq<string>, vs: seq<string>,
                   pieces: seq<Piece>, i: nat)
    requires OfQuery(st, p, style, ws, vs, pieces) && i < |ws| + |vs|
    ensures |st.conds| == |ws| + |vs| && IsRead(st.conds[i], ColumnCond(ws, vs, pieces, style, 1 + |GrantArgs(p)|, i))
  {
    PartAt(ws, vs, pieces, style, 1 + |GrantArgs(p)|, i);
    ReadAt(st.conds, ColumnPart(ws, vs, pieces, style, 1 + |GrantArgs(p)|), i);
  }

  lemma ReadBinds(st: Statement, p: Permission, style: PlaceholderStyle, ws: seq<string>, vs: seq<string>,
                  pieces: seq<Piece>, args: seq<GoVal>)
    requires OfQuery(st, p, style, ws, vs, pieces) && |args| == |GrantArgs(p)| + |ws| + |vs|
    ensures |st.conds| == |ws| + |vs| && TextBinds(st, |GrantArgs(p)|, args)
    ensures forall i :: 0 <= i < |st.conds| ==> TextArg(st, |GrantArgs(p)|, args, i) == args[|GrantArgs(p)| + i]
  {
    forall i | 0 <= i < |st.conds|
      ensures HolesIn(st.conds[i]) == [HoleOf(style, 1 + |GrantArgs(p)| + i)]
    {
      CondIsRead(st, p, style, ws, vs, pieces, i);
    }
  }

  lemma {:induction false} SaysOfRow(sv: DbServer, rt: Runtime, e: Expr, c: Cond, r: Row, arg: GoVal)
    requires c.OnColumn? && IsRead(e, c)
    ensures Truth(sv, rt, e, Scope(r, arg, map[])) <==> Holds(sv, rt, c.shape, sv.column(r, c.col), arg)
  {
    assert SaysShape(e, c.shape, c.col);
  }

  lemma {:induction false} CondSays(sv: DbServer, rt: Runtime, st: Statement, p: Permission, style: PlaceholderStyle,
                                    ws: seq<string>, vs: seq<string>, pieces: seq<Piece>, r: Row, i: nat, arg: GoVal)
    requires OfQuery(st, p, style, ws, vs, pieces) && i < |ws| + |vs|
    ensures |st.conds| == |ws| + |vs|
    ensures var c := ColumnCond(ws, vs, pieces, style, 1 + |GrantArgs(p)|, i);
            Truth(sv, rt, st.conds[i], Scope(r, arg, map[])) <==> Holds(sv, rt, c.shape, sv.column(r, c.col), arg)
  {
    CondIsRead(st, p, style, ws, vs, pieces, i);
    SaysOfRow(sv, rt, st.conds[i], ColumnCond(ws, vs, pieces, style, 1 + |GrantArgs(p)|, i), r, arg);
  }

  lemma SaysAtIs(sv: DbServer, rt: Runtime, p: Permission, style: PlaceholderStyle, ws: seq<string>, vs: seq<string>,
                 pieces: seq<Piece>, args: seq<GoVal>, r: Row, i: nat)
    requires |vs| == |pieces| && |args| == |GrantArgs(p)| + |ws| + |vs| && i < |ws| + |vs|
    ensures var c := ColumnCond(ws, vs, pieces, style, 1 + |GrantArgs(p)|, i);
            SaysAt(sv, rt, p, style, ws, vs, pieces, args, r, i)
            <==> Holds(sv, rt, c.shape, sv.column(r, c.col), args[|GrantArgs(p)| + i])
  {
  }

  lemma {:induction false} AllSay(sv: DbServer, rt: Runtime, st: Statement, p: Permission, style: PlaceholderStyle,
                                  ws: seq<string>, vs: seq<string>, pieces: seq<Piece>, args: seq<GoVal>, r: Row)
    requires OfQuery(st, p, style, ws, vs, pieces) && |args| == |GrantArgs(p)| + |ws| + |vs|
    ensures TextBinds(st, |GrantArgs(p)|, args) && |st.conds| == |ws| + |vs|
    ensures (forall i :: 0 <= i < |st.conds| ==>
               Truth(sv, rt, st.conds[i], Scope(r, TextArg(st, |GrantArgs(p)|, args, i), map[])))
            <==> ColumnsSay(sv, rt, p, style, ws, vs, pieces, args, r)
  {
    ReadBinds(st, p, style, ws, vs, pieces, args);
    forall i | 0 <= i < |st.conds|
      ensures Truth(sv, rt, st.conds[i], Scope(r, TextArg(st, |GrantArgs(p)|, args, i), map[]))
              <==> SaysAt(sv, rt, p, style, ws, vs, pieces, args, r, i)
    {
      CondSays(sv, rt, st, p, style, ws, vs, pieces, r, i, args[|GrantArgs(p)| + i]);
      SaysAtIs(sv, rt, p, style, ws, vs, pieces, args, r, i);
    }
  }

  /** A row satisfies the text exactly when it satisfies the conditions that were written. */
  lemma TextIsQuery(sv: DbServer, rt: Runtime, st: Statement, b: BuiltQuery, req: Request, p: Permission,
                    fields: seq<FieldDesc>, d: Dialect, ws: seq<string>, vs: seq<string>, pieces: seq<Piece>, r: Row)
    requires IsBuilt(b, req, p, fields, d, rt, ws, vs, pieces) && OfQuery(st, p, PlaceholderOf(d), ws, vs, pieces)
    ensures TextSatisfies(sv, rt, st, p, b.vals, r) <==> Satisfies(sv, rt, b.query.conds, b.vals, r)
  {
    QueryBinds(p, PlaceholderOf(d), ws, vs, pieces, b.vals);
    assert b.vals[..|GrantArgs(p)|] == GrantArgs(p);
    EveryCondition(sv, rt, p, PlaceholderOf(d), ws, vs, pieces, b.vals, r);
    AllSay(sv, rt, st, p, PlaceholderOf(d), ws, vs, pieces, b.vals, r);
  }

  // ---------- What SQLite refuses ----------

  /** On SQLite no condition looks into a list or a map of a field that is named like a column of
      json_each. */
  ghost predicate NoneShadowed(req: Request, fields: seq<FieldDesc>, d: Dialect) {
    d == SQLite ==> forall n :: n in req.where2 && n in req.where2Operator && FieldOf(fields, n).Some? ==>
      var f := FieldOf(fields, n).value;
      f.IsMap() || (f.IsList() && !LenOp(req.where2Operator[n])) ==> Lower(n) !in EACH_COLUMNS
  }

  lemma FieldShadowed(req: Request, fields: seq<FieldDesc>, d: Dialect, rt: Runtime, n: string, piece: Piece)
    requires PieceOf(req, fields, d, rt, n) == Ok(piece)
    ensures n in req.where2 && n in req.where2Operator && FieldOf(fields, n).Some?
    ensures var f := FieldOf(fields, n).value;
            RefusedOn(piece.shape, n) <==>
            d == SQLite && (f.IsMap() || (f.IsList() && !LenOp(req.where2Operator[n]))) && Lower(n) in EACH_COLUMNS
  {
    PieceForm(d, FieldOf(fields, n).value, req.where2Operator[n], req.where2[n], rt);
  }

  lemma UnderstoodAt(st: Statement, req: Request, p: Permission, fields: seq<FieldDesc>, d: Dialect, rt: Runtime,
                     ws: seq<string>, vs: seq<string>, pieces: seq<Piece>, i: nat)
    requires OfQuery(st, p, PlaceholderOf(d), ws, vs, pieces) && i < |ws| + |vs|
    ensures |st.conds| == |ws| + |vs|
    ensures Understood(st.conds[i]) <==> i < |ws| || !RefusedOn(pieces[i - |ws|].shape, vs[i - |ws|])
  {
    CondIsRead(st, p, PlaceholderOf(d), ws, vs, pieces, i);
  }

  lemma UnderstoodIff(st: Statement, req: Request, p: Permission, fields: seq<FieldDesc>, d: Dialect, rt: Runtime,
                      ws: seq<string>, vs: seq<string>, pieces: seq<Piece>)
    requires OfQuery(st, p, PlaceholderOf(d), ws, vs, pieces)
    requires WalkOf(req.where2.Keys, vs) && ArePieces(pieces, req, fields, d, rt, vs)
    ensures (forall i :: 0 <= i < |st.conds| ==> Understood(st.conds[i])) <==> NoneShadowed(req, fields, d)
  {
    forall i | 0 <= i < |st.conds|
      ensures Understood(st.conds[i]) <==> i < |ws| || !RefusedOn(pieces[i - |ws|].shape, vs[i - |ws|])
    {
      UnderstoodAt(st, req, p, fields, d, rt, ws, vs, pieces, i);
    }
    forall j | 0 <= j < |vs|
      ensures PieceOf(req, fields, d, rt, vs[j]) == Ok(pieces[j])
    {
    }
    if forall i :: 0 <= i < |st.conds| ==> Understood(st.conds[i]) {
      forall n | n in req.where2
        ensures exists j :: 0 <= j < |vs| && vs[j] == n
      {
        assert n in Elems(vs);
      }
      forall j | 0 <= j < |vs|
        ensures !RefusedOn(pieces[j].shape, vs[j])
      {
        assert Understood(st.conds[|ws| + j]);
      }
      forall j | 0 <= j < |vs|
        ensures var f := FieldOf(fields, vs[j]).value;
                d == SQLite && (f.IsMap() || (f.IsList() && !LenOp(req.where2Operator[vs[j]]))) ==>
                  Lower(vs[j]) !in EACH_COLUMNS
      {
        FieldShadowed(req, fields, d, rt, vs[j], pieces[j]);
      }
    } else {
      var i :| 0 <= i < |st.conds| && !Understood(st.conds[i]);
      FieldShadowed(req, fields, d, rt, vs[i - |ws|], pieces[i - |ws|]);
    }
  }

  lemma ValueIsShadowed(req: Request, fields: seq<FieldDesc>, n: string)
    requires n in req.where2 && n in req.where2Operator && FieldOf(fields, n).Some? && n == "value"
    requires FieldOf(fields, n).value.IsList() && req.where2Operator[n] == Op.Contains
    ensures !NoneShadowed(req, fields, SQLite)
  {
    LowerFixes(n);
  }

  /** CONTAINS on a list field `value` is refused on SQLite, whatever the table holds. */
  lemma ShadowedIsRefused(b: BuiltQuery, req: Request, p: Permission, msgName: string, fields: seq<FieldDesc>,
                          u: Unicode, rt: Runtime, ws: seq<string>, vs: seq<string>, pieces: seq<Piece>, sv: DbServer,
                          t: Table, rows: seq<Row>, n: string)
    requires IsBuilt(b, req, p, fields, SQLite, rt, ws, vs, pieces) && ValidRequest(req, msgName, fields, u)
    requires NoReserved(req) && n in req.where2 && n in req.where2Operator && FieldOf(fields, n).Some?
    requires FieldOf(fields, n).value.IsList() && req.where2Operator[n] == Op.Contains && n == "value"
    ensures ReadStatement(req.resultColumns, p.text, b.sql).Some?
    ensures !TextAnswer(sv, rt, ReadStatement(req.resultColumns, p.text, b.sql).value, SQLite, p, b.vals, t, rows)
  {
    var st := QueryRead(b, req, p, msgName, fields, SQLite, u, rt, ws, vs, pieces);
    UnderstoodIff(st, req, p, fields, SQLite, rt, ws, vs, pieces);
    ValueIsShadowed(req, fields, n);
  }

  // ---------- The answer ----------

  lemma ChosenIsWanted(b: BuiltQuery, req: Request, p: Permission, fields: seq<FieldDesc>, d: Dialect, rt: Runtime,
                       ws: seq<string>, vs: seq<string>, pieces: seq<Piece>, sv: DbServer, t: Table, st: Statement)
    requires IsBuilt(b, req, p, fields, d, rt, ws, vs, pieces) && OfQuery(st, p, PlaceholderOf(d), ws, vs, pieces)
    requires Prints(rt) && forall r :: r in t ==> Clean(sv, rt, req, fields, d, r)
    ensures (set r | r in t && TextSatisfies(sv, rt, st, p, b.vals, r))
         == QueryMeaning.Wanted(sv, rt, req, p, fields, d, t)
  {
    forall r | r in t
      ensures TextSatisfies(sv, rt, st, p, b.vals, r) <==> Requested(sv, rt, req, p, fields, d, r)
    {
      TextIsQuery(sv, rt, st, b, req, p, fields, d, ws, vs, pieces, r);
      QueryMeans(b, req, p, fields, d, rt, ws, vs, pieces, sv, r);
    }
  }

  /** Read as SQL, the text of a built query is answered exactly when no field is shadowed and an
      offset has the limit it needs, with the rows the request asks for: all of them without bounds,
      and otherwise the stretch the bounds leave. */
  lemma TextAnswers(b: BuiltQuery, req: Request, p: Permission, msgName: string, fields: seq<FieldDesc>, d: Dialect,
                    u: Unicode, rt: Runtime, ws: seq<string>, vs: seq<string>, pieces: seq<Piece>, sv: DbServer,
                    t: Table, rows: seq<Row>)
    requires IsBuilt(b, req, p, fields, d, rt, ws, vs, pieces) && ValidRequest(req, msgName, fields, u)
    requires NoReserved(req) && Prints(rt) && forall r :: r in t ==> Clean(sv, rt, req, fields, d, r)
    ensures ReadStatement(req.resultColumns, p.text, b.sql).Some?
    ensures var st := ReadStatement(req.resultColumns, p.text, b.sql).value;
            && st.table == BuildDbTableName(req.tableName, req.schemeName, d)
            && (TextAnswer(sv, rt, st, d, p, b.vals, t, rows) <==>
                && NoneShadowed(req, fields, d) && (req.offset > 0 && req.limit <= 0 ==> d != Mysql && d != SQLite)
                && Lists(rows, QueryMeaning.Wanted(sv, rt, req, p, fields, d, t), req.limit, req.offset))
  {
    var st := QueryRead(b, req, p, msgName, fields, d, u, rt, ws, vs, pieces);
    UnderstoodIff(st, req, p, fields, d, rt, ws, vs, pieces);
    ReadBinds(st, p, PlaceholderOf(d), ws, vs, pieces, b.vals);
    ChosenIsWanted(b, req, p, fields, d, rt, ws, vs, pieces, sv, t, st);
    ListsSame(rows, QueryMeaning.Wanted(sv, rt, req, p, fields, d, t), req.limit, req.offset);
  }

  /** A bound that is not positive does not count. */
  lemma ListsSame(rows: seq<Row>, chosen: Table, limit: int, offset: int)
    ensures Lists(rows, chosen, limit, offset) <==> Lists(rows, chosen, AtLeast0(limit), AtLeast0(offset))
  {
    forall full: seq<Row>
      ensures Window(full, limit, offset) == Window(full, AtLeast0(limit), AtLeast0(offset))
    {
    }
  }
}
