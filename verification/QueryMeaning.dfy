/** A built table query returns what the request asks for. */
module QueryMeaning {
  import opened Prelude
  import opened Sqldb
  import opened Message
  import opened Sql
  import opened SqlBuilder
  import opened Codec
  import opened UpdateBuilder
  import opened Operand
  import opened Where2
  import opened Where2Meaning
  import opened Where2Right
  import opened MapMeaning
  import opened QuerySql
  import opened TableQuery
  import ListCodec
  import QueryCap

  // ---------- The request's own meaning ----------

  /** The column of a list field stores this list. */
  ghost predicate StoresList(d: Dialect, f: FieldDesc, cell: Cell, vs: seq<GoVal>) {
    && ListCodec.ListOfKind(f.kind, vs)
    && cell == Val(if d == Postgres then Slice(ListCodec.StoredPg(f.kind, vs))
                   else JsonText(JArr(ListCodec.JsonsOf(vs))))
  }

  /** The column of a map field stores this map. */
  ghost predicate StoresMap(f: FieldDesc, cell: Cell, m: map<string, Json>) {
    MembersOf(f.kind, m) && cell == Val(JsonText(JObj(m)))
  }

  predicate DescribedList(d: Dialect, f: FieldDesc) {
    f.IsList() && Described(d, f.kind)
  }

  predicate DescribedMap(d: Dialect, f: FieldDesc) {
    f.IsMap() && (d == SQLite || d == Postgres || d == Mysql) && PlainKind(f.kind)
  }

  ghost predicate MapAsked(rt: Runtime, d: Dialect, f: FieldDesc, op: Op, value: string, m: map<string, Json>) {
    if d == SQLite then AsksOfMap(op, f.kind, m, value, rt.jsonDoc(value), rt)
    else AsksOfObject(op, f.kind, m, value, rt.jsonDoc(value))
  }

  ghost predicate MapClean(rt: Runtime, d: Dialect, f: FieldDesc, op: Op, value: string) {
    if d == SQLite then MapRight(f.kind, op, rt.jsonDoc(value), rt)
    else ObjectRequest(d, op, value, rt.jsonDoc(value))
  }

  /** Maps and messages are compared with the JSON in the value text itself. */
  predicate GivenAsText(f: FieldDesc, op: Op) {
    f.IsMap() || (f.kind == MessageKind && !LenOp(op))
  }

  /** The server's own operator for a list or a map. */
  function ServerOperator(d: Dialect, f: FieldDesc, op: Op): Option<Shape> {
    match op
    case HasKey =>
      if !f.IsMap() then None
      else
        (match d
         case Postgres => Some(PgHasKey)
         case Mysql => Some(MyHasKey)
         case SQLite => Some(LiteHasKey)
         case _ => None)
    case Contains =>
      (match d
       case Postgres =>
         Some(if f.IsMap() || f.kind == MessageKind then PgJsonContains else PgElement(PgTypeOf(f.kind)))
       case Mysql =>
         Some(if f.IsMap() then MyContains else if f.kind == MessageKind then MyMessageElement else MyElement)
       case SQLite => Some(if f.IsMap() then LiteMapContains else LiteElement)
       case _ => None)
    case Overlap =>
      (match d
       case Postgres => Some(PgOverlap)
       case Mysql => Some(MyOverlaps)
       case SQLite => Some(LiteOverlap)
       case _ => None)
    case ContainsAll =>
      (match d
       case Postgres => Some(if f.kind == MessageKind then PgJsonContains else PgContainsAll)
       case Mysql => Some(MyContains)
       case SQLite => Some(LiteContainsAll)
       case _ => None)
    case _ =>
      (match d
       case Postgres => Some(Length(if f.kind == MessageKind then JsonbArrayLength else Cardinality, op))
       case Mysql => Some(Length(JsonLength, op))
       case SQLite => Some(Length(JsonArrayLength, op))
       case _ => None)
  }

  /** What the request asks of a column with an operator: of a scalar the server's comparison, of a
      list or a map what the operator asks of the stored value. Lists and maps that are not
      described are left to the server. */
  ghost predicate OperatorAsks(sv: DbServer, rt: Runtime, d: Dialect, f: FieldDesc, op: Op, value: string, cell: Cell) {
    if DescribedList(d, f) then
      exists vs :: StoresList(d, f, cell, vs)
        && AsksOfList(d, op, f.kind, ListCodec.JsonsOf(vs), value, rt.jsonDoc(value), rt)
    else if DescribedMap(d, f) then
      exists m :: StoresMap(f, cell, m) && MapAsked(rt, d, f, op, value, m)
    else if f.IsList() || f.IsMap() then
      var s, p := ServerOperator(d, f, op), Where2Condition(d, f, op, value, rt);
      && s.Some? && p.Ok?
      && Holds(sv, rt, s.value, cell, if GivenAsText(f, op) then Str(value) else p.value.arg)
    else sv.holds(Compare(op), cell, Str(value))
  }

  /** The cell stores a value of the field, and the request is right for the dialect. */
  ghost predicate OperatorClean(rt: Runtime, d: Dialect, f: FieldDesc, op: Op, value: string, cell: Cell) {
    && (DescribedList(d, f) ==>
          && ArrayFor(d, op, rt.jsonDoc(value)) && Right(d, f.kind, op, value, rt.jsonDoc(value), rt)
          && exists vs :: StoresList(d, f, cell, vs))
    && (DescribedMap(d, f) ==> MapClean(rt, d, f, op, value) && exists m :: StoresMap(f, cell, m))
  }

  ghost predicate MeetsOperator(sv: DbServer, rt: Runtime, req: Request, fields: seq<FieldDesc>, d: Dialect, n: string,
                                r: Row)
  {
    && n in req.where2 && n in req.where2Operator && FieldOf(fields, n).Some?
    && OperatorAsks(sv, rt, d, FieldOf(fields, n).value, req.where2Operator[n], req.where2[n], sv.column(r, n))
  }

  /** A row that the permission allows and that is as every condition of the request asks. */
  ghost predicate Requested(sv: DbServer, rt: Runtime, req: Request, p: Permission, fields: seq<FieldDesc>, d: Dialect,
                            r: Row)
  {
    && (p.text != "" ==> sv.allows(p.text, r, p.vals))
    && (forall n :: n in req.where ==> sv.holds(Compare(Eq), sv.column(r, n), Str(req.where[n])))
    && (forall n :: n in req.where2 ==> MeetsOperator(sv, rt, req, fields, d, n, r))
  }

  ghost predicate FieldClean(sv: DbServer, rt: Runtime, req: Request, fields: seq<FieldDesc>, d: Dialect, n: string,
                             r: Row)
  {
    n in req.where2 && n in req.where2Operator && FieldOf(fields, n).Some? ==>
      OperatorClean(rt, d, FieldOf(fields, n).value, req.where2Operator[n], req.where2[n], sv.column(r, n))
  }

  /** The row stores values of the fields that the operators are about, and the operators are given
      values that the dialect handles rightly. */
  ghost predicate Clean(sv: DbServer, rt: Runtime, req: Request, fields: seq<FieldDesc>, d: Dialect, r: Row) {
    forall n :: n in req.where2 ==> FieldClean(sv, rt, req, fields, d, n, r)
  }

  // ---------- One operator ----------

  lemma LiteStored(sv: DbServer, rt: Runtime, f: FieldDesc, op: Op, value: string, cell: Cell, vs: seq<GoVal>)
    requires DescribedList(SQLite, f) && StoresList(SQLite, f, cell, vs) && LiteListCondition(f.kind, op, value, rt).Ok?
    requires ArrayFor(SQLite, op, rt.jsonDoc(value))
    ensures var p := LiteListCondition(f.kind, op, value, rt).value;
            Holds(sv, rt, p.shape, cell, p.arg) <==> ListHolds(SQLite, f.kind, p, vs, rt.jsonDoc(value), rt)
  {
  }

  lemma MyColumnScalars(kind: Kind, vs: seq<GoVal>)
    requires Described(Mysql, kind) && ListCodec.ListOfKind(kind, vs)
    ensures MyScalars(ListCodec.JsonsOf(vs))
  {
    ListIsColumn(kind, vs);
  }

  lemma MyDocumentScalars(kind: Kind, doc: Option<Json>)
    requires ArrayFor(Mysql, Overlap, doc)
    ensures MyScalars(doc.value.elems)
  {
  }

  lemma MyStored(sv: DbServer, rt: Runtime, f: FieldDesc, op: Op, value: string, cell: Cell, vs: seq<GoVal>)
    requires DescribedList(Mysql, f) && StoresList(Mysql, f, cell, vs) && MyListCondition(f.kind, op, value, rt).Ok?
    requires ArrayFor(Mysql, op, rt.jsonDoc(value))
    ensures var p := MyListCondition(f.kind, op, value, rt).value;
            Holds(sv, rt, p.shape, cell, p.arg) <==> ListHolds(Mysql, f.kind, p, vs, rt.jsonDoc(value), rt)
  {
    MyColumnScalars(f.kind, vs);
    if op == Overlap || op == ContainsAll {
      MyDocumentScalars(f.kind, rt.jsonDoc(value));
    }
  }

  lemma PgStored(sv: DbServer, rt: Runtime, f: FieldDesc, op: Op, value: string, cell: Cell, vs: seq<GoVal>)
    requires DescribedList(Postgres, f) && StoresList(Postgres, f, cell, vs)
             && PgListCondition(f.kind, op, value, rt).Ok?
    requires ArrayFor(Postgres, op, rt.jsonDoc(value))
    ensures var p := PgListCondition(f.kind, op, value, rt).value;
            Holds(sv, rt, p.shape, cell, p.arg) <==> ListHolds(Postgres, f.kind, p, vs, rt.jsonDoc(value), rt)
  {
  }

  /** What a condition says of a cell is what it says of the list the cell stores. */
  lemma StoredHolds(sv: DbServer, rt: Runtime, d: Dialect, f: FieldDesc, op: Op, value: string, cell: Cell,
                    vs: seq<GoVal>)
    requires DescribedList(d, f) && StoresList(d, f, cell, vs) && Where2Condition(d, f, op, value, rt).Ok?
    requires ArrayFor(d, op, rt.jsonDoc(value))
    ensures var p := Where2Condition(d, f, op, value, rt).value;
            Holds(sv, rt, p.shape, cell, p.arg) <==> ListHolds(d, f.kind, p, vs, rt.jsonDoc(value), rt)
  {
    match d {
      case SQLite => LiteStored(sv, rt, f, op, value, cell, vs);
      case Mysql => MyStored(sv, rt, f, op, value, cell, vs);
      case Postgres => PgStored(sv, rt, f, op, value, cell, vs);
    }
  }

  lemma ListAsks(sv: DbServer, rt: Runtime, d: Dialect, f: FieldDesc, op: Op, value: string, cell: Cell)
    requires DescribedList(d, f) && OperatorClean(rt, d, f, op, value, cell) && Where2Condition(d, f, op, value, rt).Ok?
             && Prints(rt)
    ensures var p := Where2Condition(d, f, op, value, rt).value;
            Holds(sv, rt, p.shape, cell, p.arg) <==> OperatorAsks(sv, rt, d, f, op, value, cell)
  {
    forall vs | StoresList(d, f, cell, vs)
      ensures var p := Where2Condition(d, f, op, value, rt).value;
              Holds(sv, rt, p.shape, cell, p.arg)
              <==> AsksOfList(d, op, f.kind, ListCodec.JsonsOf(vs), value, rt.jsonDoc(value), rt)
    {
      StoredHolds(sv, rt, d, f, op, value, cell, vs);
      ListConditionMeans(d, f, op, value, vs, rt);
    }
  }

  lemma ObjectStored(sv: DbServer, rt: Runtime, d: Dialect, f: FieldDesc, op: Op, value: string, cell: Cell,
                     m: map<string, Json>)
    requires DescribedMap(d, f) && d != SQLite && StoresMap(f, cell, m) && MapClean(rt, d, f, op, value)
    requires MapCondition(d, op, value).Ok?
    ensures var p := MapCondition(d, op, value).value;
            Holds(sv, rt, p.shape, cell, p.arg) <==> AsksOfObject(op, f.kind, m, value, rt.jsonDoc(value))
  {
    ObjectConditionMeans(d, f.kind, op, value, m, rt.jsonDoc(value));
  }

  lemma MapAsks(sv: DbServer, rt: Runtime, d: Dialect, f: FieldDesc, op: Op, value: string, cell: Cell)
    requires DescribedMap(d, f) && OperatorClean(rt, d, f, op, value, cell) && Where2Condition(d, f, op, value, rt).Ok?
             && Prints(rt)
    ensures var p := Where2Condition(d, f, op, value, rt).value;
            Holds(sv, rt, p.shape, cell, p.arg) <==> OperatorAsks(sv, rt, d, f, op, value, cell)
  {
    forall m | StoresMap(f, cell, m)
      ensures var p := Where2Condition(d, f, op, value, rt).value;
              Holds(sv, rt, p.shape, cell, p.arg) <==> MapAsked(rt, d, f, op, value, m)
    {
      if d == SQLite {
        MapConditionMeans(f, op, value, m, rt);
      } else {
        ObjectStored(sv, rt, d, f, op, value, cell, m);
      }
    }
  }

  /** Other lists and maps are left to the operator the server has for them. */
  lemma ServerAsked(d: Dialect, f: FieldDesc, op: Op, value: string, rt: Runtime)
    requires (f.IsList() || f.IsMap()) && Where2Condition(d, f, op, value, rt).Ok?
    ensures var p := Where2Condition(d, f, op, value, rt).value;
            ServerOperator(d, f, op) == Some(p.shape) && (GivenAsText(f, op) ==> p.arg == Str(value))
  {
  }

  lemma ServerAsks(sv: DbServer, rt: Runtime, d: Dialect, f: FieldDesc, op: Op, value: string, cell: Cell)
    requires !DescribedList(d, f) && !DescribedMap(d, f) && Where2Condition(d, f, op, value, rt).Ok?
    ensures var p := Where2Condition(d, f, op, value, rt).value;
            Holds(sv, rt, p.shape, cell, p.arg) <==> OperatorAsks(sv, rt, d, f, op, value, cell)
  {
    if f.IsList() || f.IsMap() {
      ServerAsked(d, f, op, value, rt);
    }
  }

  /** The condition emitted for an operator holds of a cell exactly when the request asks for the
      cell. */
  lemma OperatorMeans(sv: DbServer, rt: Runtime, d: Dialect, f: FieldDesc, op: Op, value: string, cell: Cell)
    requires Where2Condition(d, f, op, value, rt).Ok? && OperatorClean(rt, d, f, op, value, cell) && Prints(rt)
    ensures var p := Where2Condition(d, f, op, value, rt).value;
            Holds(sv, rt, p.shape, cell, p.arg) <==> OperatorAsks(sv, rt, d, f, op, value, cell)
  {
    if DescribedList(d, f) {
      ListAsks(sv, rt, d, f, op, value, cell);
    } else if DescribedMap(d, f) {
      MapAsks(sv, rt, d, f, op, value, cell);
    } else {
      ServerAsks(sv, rt, d, f, op, value, cell);
    }
  }

  // ---------- The emitted conditions ----------

  /** A row that the permission allows and of which every emitted condition holds with its own
      argument. */
  ghost predicate Emitted(sv: DbServer, rt: Runtime, req: Request, p: Permission, fields: seq<FieldDesc>, d: Dialect,
                          r: Row)
  {
    && (p.text != "" ==> sv.allows(p.text, r, p.vals))
    && (forall n :: n in req.where ==> Holds(sv, rt, Compare(Eq), sv.column(r, n), Str(req.where[n])))
    && (forall n :: n in req.where2 ==> PieceHolds(sv, rt, req, fields, d, n, r))
  }

  ghost predicate PieceHolds(sv: DbServer, rt: Runtime, req: Request, fields: seq<FieldDesc>, d: Dialect, n: string,
                             r: Row)
  {
    var piece := PieceOf(req, fields, d, rt, n);
    piece.Ok? && Holds(sv, rt, piece.value.shape, sv.column(r, n), piece.value.arg)
  }

  // ---------- Placeholders and arguments ----------

  /** The i-th of the conditions on columns. */
  function ColumnCond(ws: seq<string>, vs: seq<string>, pieces: seq<Piece>, style: PlaceholderStyle, no: nat,
                      i: nat): Cond
    requires |vs| == |pieces| && i < |ws| + |vs|
  {
    if i < |ws| then OnColumn(ws[i], Compare(Eq), HoleOf(style, no + i))
    else OnColumn(vs[i - |ws|], pieces[i - |ws|].shape, HoleOf(style, no + i))
  }

  lemma CondsAt(p: Permission, style: PlaceholderStyle, ws: seq<string>, vs: seq<string>, pieces: seq<Piece>)
    requires |vs| == |pieces|
    ensures var conds, g := CondsFor(p, style, ws, vs, pieces), |GrantConds(p)|;
            && |conds| == g + |ws| + |vs|
            && (g == 1 ==> conds[0] == Granted(p.text, |p.vals|))
            && forall k :: g <= k < |conds| ==> conds[k] == ColumnCond(ws, vs, pieces, style, 1 + |GrantArgs(p)|, k - g)
  {
    var no := 1 + |GrantArgs(p)|;
    var a, b, c := GrantConds(p), WhereConds(ws, style, no), Where2Conds(vs, pieces, style, no + |ws|);
    var conds := CondsFor(p, style, ws, vs, pieces);
    assert conds == a + b + c;
    forall k | |a| <= k < |conds|
      ensures conds[k] == ColumnCond(ws, vs, pieces, style, no, k - |a|)
    {
      if k - |a| < |ws| {
        assert conds[k] == b[k - |a|];
      } else {
        assert conds[k] == c[k - |a| - |ws|];
      }
    }
  }

  /** Conditions of which all but the first k are on columns. */
  ghost predicate ColumnsFrom(conds: seq<Cond>, k: nat) {
    forall i :: k <= i < |conds| ==> conds[i].OnColumn?
  }

  lemma {:induction false} BeforeColumns(conds: seq<Cond>, k: nat, i: nat)
    requires k + i <= |conds| && ColumnsFrom(conds, k)
    ensures Before(conds, k + i) == Before(conds, k) + i
    decreases i
  {
    if i > 0 {
      BeforeColumns(conds, k, i - 1);
      assert conds[k + i - 1].OnColumn?;
    }
  }

  /** The placeholder of the i-th condition on a column stands behind the permission's placeholders
      and i more. */
  lemma PositionOf(p: Permission, style: PlaceholderStyle, ws: seq<string>, vs: seq<string>, pieces: seq<Piece>, i: nat)
    requires |vs| == |pieces| && i <= |ws| + |vs|
    ensures |GrantConds(p)| + i <= |CondsFor(p, style, ws, vs, pieces)|
    ensures Before(CondsFor(p, style, ws, vs, pieces), |GrantConds(p)| + i) == |GrantArgs(p)| + i
  {
    var conds, g := CondsFor(p, style, ws, vs, pieces), |GrantConds(p)|;
    CondsAt(p, style, ws, vs, pieces);
    BeforeColumns(conds, g, i);
    if g == 1 {
      assert Before(conds, 1) == Before(conds, 0) + Arity(conds[0]);
    }
  }

  /** The i-th condition on a column, and where it stands. */
  lemma CondAt(p: Permission, style: PlaceholderStyle, ws: seq<string>, vs: seq<string>, pieces: seq<Piece>, i: nat)
    requires |vs| == |pieces| && i < |ws| + |vs|
    ensures var conds, k := CondsFor(p, style, ws, vs, pieces), |GrantConds(p)| + i;
            && k < |conds| && conds[k] == ColumnCond(ws, vs, pieces, style, 1 + |GrantArgs(p)|, i)
            && Before(conds, k) == |GrantArgs(p)| + i
  {
    CondsAt(p, style, ws, vs, pieces);
    PositionOf(p, style, ws, vs, pieces, i);
  }

  /** There is one argument for each placeholder, and no number is out of range. */
  lemma QueryBinds(p: Permission, style: PlaceholderStyle, ws: seq<string>, vs: seq<string>, pieces: seq<Piece>,
                   args: seq<GoVal>)
    requires |vs| == |pieces| && |args| == |GrantArgs(p)| + |ws| + |vs|
    ensures BindsQuery(CondsFor(p, style, ws, vs, pieces), args)
  {
    var conds, g := CondsFor(p, style, ws, vs, pieces), |GrantConds(p)|;
    CondsAt(p, style, ws, vs, pieces);
    PositionOf(p, style, ws, vs, pieces, |ws| + |vs|);
    forall i | 0 <= i < |conds| && conds[i].OnColumn? && conds[i].hole.Numbered?
      ensures 1 <= conds[i].hole.n <= |args|
    {
      assert i >= g;
    }
  }

  /** What the i-th condition on a column says of a row, with the i-th argument behind the permission's. */
  ghost predicate SaysAt(sv: DbServer, rt: Runtime, p: Permission, style: PlaceholderStyle, ws: seq<string>,
                         vs: seq<string>, pieces: seq<Piece>, args: seq<GoVal>, r: Row, i: nat)
    requires |vs| == |pieces| && |args| == |GrantArgs(p)| + |ws| + |vs| && i < |ws| + |vs|
  {
    var c := ColumnCond(ws, vs, pieces, style, 1 + |GrantArgs(p)|, i);
    Holds(sv, rt, c.shape, sv.column(r, c.col), args[|GrantArgs(p)| + i])
  }

  /** The i-th condition on a column takes the i-th argument behind the permission's, numbered or not. */
  lemma ColumnHolds(sv: DbServer, rt: Runtime, p: Permission, style: PlaceholderStyle, ws: seq<string>, vs: seq<string>,
                    pieces: seq<Piece>, args: seq<GoVal>, r: Row, i: nat)
    requires |vs| == |pieces| && |args| == |GrantArgs(p)| + |ws| + |vs| && i < |ws| + |vs|
    requires BindsQuery(CondsFor(p, style, ws, vs, pieces), args)
    requires |GrantConds(p)| + i < |CondsFor(p, style, ws, vs, pieces)|
    ensures CondHolds(sv, rt, CondsFor(p, style, ws, vs, pieces), |GrantConds(p)| + i, args, r)
       <==> SaysAt(sv, rt, p, style, ws, vs, pieces, args, r, i)
  {
    CondAt(p, style, ws, vs, pieces, i);
  }

  /** The permission takes the arguments given with it. */
  lemma GrantHolds(sv: DbServer, rt: Runtime, p: Permission, style: PlaceholderStyle, ws: seq<string>, vs: seq<string>,
                   pieces: seq<Piece>, args: seq<GoVal>, r: Row)
    requires |vs| == |pieces| && p.text != "" && p.vals <= args
    requires BindsQuery(CondsFor(p, style, ws, vs, pieces), args) && 0 < |CondsFor(p, style, ws, vs, pieces)|
    ensures CondHolds(sv, rt, CondsFor(p, style, ws, vs, pieces), 0, args, r) <==> sv.allows(p.text, r, p.vals)
  {
    CondsAt(p, style, ws, vs, pieces);
    assert args[0..0 + |p.vals|] == p.vals;
  }

  // ---------- The whole condition ----------

  /** What the column conditions and arguments say of a row, position by position. */
  ghost predicate MeetsAll(sv: DbServer, rt: Runtime, req: Request, ws: seq<string>, vs: seq<string>,
                           pieces: seq<Piece>, r: Row)
    requires |vs| == |pieces|
  {
    && (forall i :: 0 <= i < |ws| ==>
        ws[i] in req.where && Holds(sv, rt, Compare(Eq), sv.column(r, ws[i]), Str(req.where[ws[i]])))
    && (forall i :: 0 <= i < |vs| ==> Holds(sv, rt, pieces[i].shape, sv.column(r, vs[i]), pieces[i].arg))
  }

  lemma EveryField(sv: DbServer, rt: Runtime, req: Request, p: Permission, fields: seq<FieldDesc>, d: Dialect, r: Row,
                   ws: seq<string>, vs: seq<string>, pieces: seq<Piece>)
    requires WalkOf(req.where.Keys, ws) && WalkOf(req.where2.Keys, vs) && ArePieces(pieces, req, fields, d, rt, vs)
    ensures Emitted(sv, rt, req, p, fields, d, r) <==>
            (p.text != "" ==> sv.allows(p.text, r, p.vals)) && MeetsAll(sv, rt, req, ws, vs, pieces, r)
  {
    forall i | 0 <= i < |ws|
      ensures ws[i] in req.where
    {
      assert ws[i] in Elems(ws);
    }
    forall i | 0 <= i < |vs|
      ensures vs[i] in req.where2
      ensures PieceHolds(sv, rt, req, fields, d, vs[i], r)
              <==> Holds(sv, rt, pieces[i].shape, sv.column(r, vs[i]), pieces[i].arg)
    {
      assert vs[i] in Elems(vs);
      assert PieceOf(req, fields, d, rt, vs[i]) == Ok(pieces[i]);
    }
    forall n | n in req.where
      ensures exists i :: 0 <= i < |ws| && ws[i] == n
    {
      assert n in Elems(ws);
    }
    forall n | n in req.where2
      ensures exists i :: 0 <= i < |vs| && vs[i] == n
    {
      assert n in Elems(vs);
    }
  }

  /** Every condition on a column holds of the row with its argument. */
  ghost predicate ColumnsSay(sv: DbServer, rt: Runtime, p: Permission, style: PlaceholderStyle, ws: seq<string>,
                             vs: seq<string>, pieces: seq<Piece>, args: seq<GoVal>, r: Row)
    requires |vs| == |pieces| && |args| == |GrantArgs(p)| + |ws| + |vs|
  {
    forall i :: 0 <= i < |ws| + |vs| ==> SaysAt(sv, rt, p, style, ws, vs, pieces, args, r, i)
  }

  lemma EveryCondition(sv: DbServer, rt: Runtime, p: Permission, style: PlaceholderStyle, ws: seq<string>,
                       vs: seq<string>, pieces: seq<Piece>, args: seq<GoVal>, r: Row)
    requires |vs| == |pieces| && |args| == |GrantArgs(p)| + |ws| + |vs| && GrantArgs(p) <= args
    requires BindsQuery(CondsFor(p, style, ws, vs, pieces), args)
    ensures Satisfies(sv, rt, CondsFor(p, style, ws, vs, pieces), args, r) <==>
            && (p.text != "" ==> sv.allows(p.text, r, p.vals))
            && ColumnsSay(sv, rt, p, style, ws, vs, pieces, args, r)
  {
    var conds, g := CondsFor(p, style, ws, vs, pieces), |GrantConds(p)|;
    CondsSize(p, style, ws, vs, pieces);
    if p.text != "" {
      GrantHolds(sv, rt, p, style, ws, vs, pieces, args, r);
    }
    forall i | 0 <= i < |ws| + |vs|
      ensures CondHolds(sv, rt, conds, g + i, args, r) <==> SaysAt(sv, rt, p, style, ws, vs, pieces, args, r, i)
    {
      ColumnHolds(sv, rt, p, style, ws, vs, pieces, args, r, i);
    }
    var says := (i: nat) => i < |ws| + |vs| && SaysAt(sv, rt, p, style, ws, vs, pieces, args, r, i);
    Shift(conds, g, says, sv, rt, args, r);
  }

  lemma CondsSize(p: Permission, style: PlaceholderStyle, ws: seq<string>, vs: seq<string>, pieces: seq<Piece>)
    requires |vs| == |pieces|
    ensures |CondsFor(p, style, ws, vs, pieces)| == |GrantConds(p)| + |ws| + |vs|
  {
    CondsAt(p, style, ws, vs, pieces);
  }

  /** All conditions hold when the first g do and the others say so. */
  lemma Shift(conds: seq<Cond>, g: nat, says: nat -> bool, sv: DbServer, rt: Runtime, args: seq<GoVal>, r: Row)
    requires BindsQuery(conds, args) && g <= |conds| && g <= 1
    requires forall i {:trigger says(i)} :: 0 <= i < |conds| - g ==>
             (CondHolds(sv, rt, conds, g + i, args, r) <==> says(i))
    ensures Satisfies(sv, rt, conds, args, r) <==>
            (g == 1 ==> CondHolds(sv, rt, conds, 0, args, r)) && forall i :: 0 <= i < |conds| - g ==> says(i)
  {
    if (g == 1 ==> CondHolds(sv, rt, conds, 0, args, r)) && forall i :: 0 <= i < |conds| - g ==> says(i) {
      forall k | 0 <= k < |conds|
        ensures CondHolds(sv, rt, conds, k, args, r)
      {
        if k >= g {
          assert says(k - g);
        }
      }
    }
  }

  lemma SaysOfField(sv: DbServer, rt: Runtime, req: Request, p: Permission, style: PlaceholderStyle, ws: seq<string>,
                    vs: seq<string>, pieces: seq<Piece>, args: seq<GoVal>, r: Row, i: nat)
    requires |vs| == |pieces| && i < |ws| && ws[i] in req.where
    requires args == GrantArgs(p) + WhereArgs(req.where, ws) + PieceArgs(pieces)
    ensures SaysAt(sv, rt, p, style, ws, vs, pieces, args, r, i)
            <==> Holds(sv, rt, Compare(Eq), sv.column(r, ws[i]), Str(req.where[ws[i]]))
  {
    assert args[|GrantArgs(p)| + i] == WhereArgs(req.where, ws)[i];
  }

  lemma SaysOfOperator(sv: DbServer, rt: Runtime, req: Request, p: Permission, style: PlaceholderStyle, ws: seq<string>,
                       vs: seq<string>, pieces: seq<Piece>, args: seq<GoVal>, r: Row, i: nat)
    requires |vs| == |pieces| && |ws| <= i < |ws| + |vs|
    requires args == GrantArgs(p) + WhereArgs(req.where, ws) + PieceArgs(pieces)
    ensures var j := i - |ws|;
            SaysAt(sv, rt, p, style, ws, vs, pieces, args, r, i)
            <==> Holds(sv, rt, pieces[j].shape, sv.column(r, vs[j]), pieces[j].arg)
  {
    assert args[|GrantArgs(p)| + i] == PieceArgs(pieces)[i - |ws|];
  }

  lemma ColumnsMeetAll(sv: DbServer, rt: Runtime, req: Request, p: Permission, style: PlaceholderStyle, ws: seq<string>,
                       vs: seq<string>, pieces: seq<Piece>, args: seq<GoVal>, r: Row)
    requires |vs| == |pieces| && forall i :: 0 <= i < |ws| ==> ws[i] in req.where
    requires args == GrantArgs(p) + WhereArgs(req.where, ws) + PieceArgs(pieces)
    ensures ColumnsSay(sv, rt, p, style, ws, vs, pieces, args, r) <==> MeetsAll(sv, rt, req, ws, vs, pieces, r)
  {
    forall i | 0 <= i < |ws|
      ensures SaysAt(sv, rt, p, style, ws, vs, pieces, args, r, i)
              <==> Holds(sv, rt, Compare(Eq), sv.column(r, ws[i]), Str(req.where[ws[i]]))
    {
      SaysOfField(sv, rt, req, p, style, ws, vs, pieces, args, r, i);
    }
    forall i | |ws| <= i < |ws| + |vs|
      ensures SaysAt(sv, rt, p, style, ws, vs, pieces, args, r, i)
         <==> Holds(sv, rt, pieces[i - |ws|].shape, sv.column(r, vs[i - |ws|]), pieces[i - |ws|].arg)
    {
      SaysOfOperator(sv, rt, req, p, style, ws, vs, pieces, args, r, i);
    }
    if ColumnsSay(sv, rt, p, style, ws, vs, pieces, args, r) {
      forall j | 0 <= j < |vs|
        ensures Holds(sv, rt, pieces[j].shape, sv.column(r, vs[j]), pieces[j].arg)
      {
        assert SaysAt(sv, rt, p, style, ws, vs, pieces, args, r, |ws| + j);
      }
    }
  }

  /** The built statement binds its arguments, and a row satisfies it exactly when every emitted
      condition holds of it, whatever orders the maps were walked in. */
  lemma EmittedMeans(b: BuiltQuery, req: Request, p: Permission, fields: seq<FieldDesc>, d: Dialect, rt: Runtime,
                   ws: seq<string>, vs: seq<string>, pieces: seq<Piece>, sv: DbServer, r: Row)
    requires IsBuilt(b, req, p, fields, d, rt, ws, vs, pieces)
    ensures BindsQuery(b.query.conds, b.vals)
    ensures Satisfies(sv, rt, b.query.conds, b.vals, r) <==> Emitted(sv, rt, req, p, fields, d, r)
  {
    forall i | 0 <= i < |ws|
      ensures ws[i] in req.where
    {
      assert ws[i] in Elems(ws);
    }
    QueryBinds(p, PlaceholderOf(d), ws, vs, pieces, b.vals);
    EveryCondition(sv, rt, p, PlaceholderOf(d), ws, vs, pieces, b.vals, r);
    ColumnsMeetAll(sv, rt, req, p, PlaceholderOf(d), ws, vs, pieces, b.vals, r);
    EveryField(sv, rt, req, p, fields, d, r, ws, vs, pieces);
  }

  lemma FieldMeans(sv: DbServer, rt: Runtime, req: Request, fields: seq<FieldDesc>, d: Dialect, n: string, r: Row)
    requires PieceOf(req, fields, d, rt, n).Ok? && FieldClean(sv, rt, req, fields, d, n, r) && Prints(rt)
    ensures PieceHolds(sv, rt, req, fields, d, n, r) <==> MeetsOperator(sv, rt, req, fields, d, n, r)
  {
    OperatorMeans(sv, rt, d, FieldOf(fields, n).value, req.where2Operator[n], req.where2[n], sv.column(r, n));
  }

  lemma AskedIsEmitted(sv: DbServer, rt: Runtime, req: Request, p: Permission, fields: seq<FieldDesc>, d: Dialect,
                       r: Row)
    requires AllPieces(req, fields, d, rt, req.where2.Keys) && Clean(sv, rt, req, fields, d, r) && Prints(rt)
    ensures Emitted(sv, rt, req, p, fields, d, r) <==> Requested(sv, rt, req, p, fields, d, r)
  {
    forall n | n in req.where2
      ensures PieceHolds(sv, rt, req, fields, d, n, r) <==> MeetsOperator(sv, rt, req, fields, d, n, r)
    {
      assert PieceOf(req, fields, d, rt, n).Ok?;
      FieldMeans(sv, rt, req, fields, d, n, r);
    }
  }

  /** The built statement binds its arguments, and a row satisfies it exactly when the request asks
      for the row: the permission, the equalities and what every operator asks. */
  lemma QueryMeans(b: BuiltQuery, req: Request, p: Permission, fields: seq<FieldDesc>, d: Dialect, rt: Runtime,
                   ws: seq<string>, vs: seq<string>, pieces: seq<Piece>, sv: DbServer, r: Row)
    requires IsBuilt(b, req, p, fields, d, rt, ws, vs, pieces) && Prints(rt) && Clean(sv, rt, req, fields, d, r)
    ensures BindsQuery(b.query.conds, b.vals)
    ensures Satisfies(sv, rt, b.query.conds, b.vals, r) <==> Requested(sv, rt, req, p, fields, d, r)
  {
    EmittedMeans(b, req, p, fields, d, rt, ws, vs, pieces, sv, r);
    PiecesAreAll(pieces, req, fields, d, rt, vs);
    AskedIsEmitted(sv, rt, req, p, fields, d, r);
  }

  /** The rows of a table that the request asks for. */
  ghost function Wanted(sv: DbServer, rt: Runtime, req: Request, p: Permission, fields: seq<FieldDesc>, d: Dialect,
                        t: Table): Table
  {
    set r | r in t && Requested(sv, rt, req, p, fields, d, r)
  }

  lemma ListsAll(rows: seq<Row>, chosen: Table, limit: int, offset: int)
    requires Lists(rows, chosen, limit, offset)
    ensures limit <= 0 && offset <= 0 ==> Distinct(rows) && Elems(rows) == chosen
    ensures limit > 0 ==> |rows| <= limit
    ensures Elems(rows) <= chosen
  {
    var full: seq<Row> :| Distinct(full) && Elems(full) == chosen && rows == Window(full, limit, offset);
    forall x | x in rows
      ensures x in full
    {
    }
  }

  /** The server answers with rows the request asks for: every one of them once without bounds, and
      otherwise the stretch that the offset and the limit leave. On MySQL and SQLite an offset
      needs a limit. */
  lemma AnswerMeans(b: BuiltQuery, req: Request, p: Permission, fields: seq<FieldDesc>, d: Dialect, rt: Runtime,
                    ws: seq<string>, vs: seq<string>, pieces: seq<Piece>, sv: DbServer, t: Table, rows: seq<Row>)
    requires IsBuilt(b, req, p, fields, d, rt, ws, vs, pieces) && Prints(rt)
    requires forall r :: r in t ==> Clean(sv, rt, req, fields, d, r)
    ensures MayAnswer(sv, rt, b.query, d, b.vals, t, rows) <==>
            && (req.offset > 0 && req.limit <= 0 ==> d != Mysql && d != SQLite)
            && Lists(rows, Wanted(sv, rt, req, p, fields, d, t), req.limit, req.offset)
    ensures MayAnswer(sv, rt, b.query, d, b.vals, t, rows) ==>
            && Elems(rows) <= Wanted(sv, rt, req, p, fields, d, t)
            && (req.limit <= 0 && req.offset <= 0 ==>
                Distinct(rows) && Elems(rows) == Wanted(sv, rt, req, p, fields, d, t))
            && (req.limit > 0 ==> |rows| <= req.limit)
  {
    QueryBinds(p, PlaceholderOf(d), ws, vs, pieces, b.vals);
    forall r | r in t
      ensures Satisfies(sv, rt, b.query.conds, b.vals, r) <==> Requested(sv, rt, req, p, fields, d, r)
    {
      QueryMeans(b, req, p, fields, d, rt, ws, vs, pieces, sv, r);
    }
    var chosen := Wanted(sv, rt, req, p, fields, d, t);
    assert (set r | r in t && Satisfies(sv, rt, b.query.conds, b.vals, r)) == chosen;
    if Lists(rows, chosen, req.limit, req.offset) {
      ListsAll(rows, chosen, req.limit, req.offset);
    }
  }

  /** WHERE is written exactly when the request has a condition. */
  lemma WhereIff(b: BuiltQuery, req: Request, p: Permission, fields: seq<FieldDesc>, d: Dialect, rt: Runtime,
                 ws: seq<string>, vs: seq<string>, pieces: seq<Piece>)
    requires IsBuilt(b, req, p, fields, d, rt, ws, vs, pieces)
    ensures b.query.conds != [] <==> p.text != "" || req.where != map[] || req.where2 != map[]
  {
    CondsAt(p, PlaceholderOf(d), ws, vs, pieces);
    QueryCap.WalkSize(req.where.Keys, ws);
    QueryCap.WalkSize(req.where2.Keys, vs);
  }
}
