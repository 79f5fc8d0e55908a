/** The table query builder (crud/tablequery.go): validation, the statement, and what it returns. */
module TableQuery {
  import opened Prelude
  import opened Sqldb
  import opened Text
  import opened Message
  import opened Sql
  import opened SqlBuilder
  import opened SqlCheck
  import opened Codec
  import opened UpdateBuilder
  import opened Where2
  import opened QuerySql
  import opened QueryCap

  // ---------- Validation ----------

  /** An unqualified identifier. */
  ghost predicate Segment(name: string, u: Unicode) {
    Trim(name) != "*" && '.' !in name && Identifier(name, u)
  }

  method ValidateIdentifierSegment(name: string, u: Unicode) returns (ok: bool)
    ensures ok <==> Segment(name, u)
  {
    if Trim(name) == "*" {
      return false;
    }
    if '.' in name {
      return false;
    }
    ok := ValidateIdentifier(name, u);
  }

  /** The first field, from i on, whose name is the given one up to case. */
  function FoldedFrom(fields: seq<FieldDesc>, name: string, i: nat): Option<FieldDesc>
    requires i <= |fields|
    decreases |fields| - i
  {
    if i == |fields| then None
    else if Lower(fields[i].name) == Lower(name) then Some(fields[i])
    else FoldedFrom(fields, name, i + 1)
  }

  /** The field of exactly this name. */
  function ExactFrom(fields: seq<FieldDesc>, name: string, i: nat): Option<FieldDesc>
    requires i <= |fields|
    decreases |fields| - i
  {
    if i == |fields| then None
    else if fields[i].name == name then Some(fields[i])
    else ExactFrom(fields, name, i + 1)
  }

  function FieldOf(fields: seq<FieldDesc>, name: string): Option<FieldDesc> {
    var exact := ExactFrom(fields, name, 0);
    if exact.Some? then exact else FoldedFrom(fields, name, 0)
  }

  /** A request name finds a field exactly when some field has it up to case. */
  lemma FieldFound(fields: seq<FieldDesc>, name: string)
    ensures FieldOf(fields, name).Some? <==> exists i :: 0 <= i < |fields| && Lower(fields[i].name) == Lower(name)
    ensures FieldOf(fields, name).Some? ==>
            FieldOf(fields, name).value in fields && Lower(FieldOf(fields, name).value.name) == Lower(name)
  {
    FoldedFinds(fields, name, 0);
    ExactFinds(fields, name, 0);
  }

  lemma {:induction false} FoldedFinds(fields: seq<FieldDesc>, name: string, i: nat)
    requires i <= |fields|
    ensures FoldedFrom(fields, name, i).Some? <==> exists j :: i <= j < |fields| && Lower(fields[j].name) == Lower(name)
    ensures FoldedFrom(fields, name, i).Some? ==>
              FoldedFrom(fields, name, i).value in fields
                && Lower(FoldedFrom(fields, name, i).value.name) == Lower(name)
    decreases |fields| - i
  {
    if i < |fields| {
      FoldedFinds(fields, name, i + 1);
    }
  }

  lemma {:induction false} ExactFinds(fields: seq<FieldDesc>, name: string, i: nat)
    requires i <= |fields|
    ensures ExactFrom(fields, name, i).Some? ==>
              ExactFrom(fields, name, i).value in fields && ExactFrom(fields, name, i).value.name == name
    decreases |fields| - i
  {
    if i < |fields| {
      ExactFinds(fields, name, i + 1);
    }
  }

  method GetTableQueryFieldDescFold(fields: seq<FieldDesc>, fieldName: string) returns (r: Option<FieldDesc>)
    ensures r == FoldedFrom(fields, fieldName, 0)
  {
    for i := 0 to |fields|
      invariant FoldedFrom(fields, fieldName, 0) == FoldedFrom(fields, fieldName, i)
    {
      if Lower(fields[i].name) == Lower(fieldName) {
        return Some(fields[i]);
      }
    }
    r := None;
  }

  /** A name that may stand in a condition. */
  ghost predicate Resolves(fields: seq<FieldDesc>, name: string, u: Unicode) {
    Segment(name, u) && FieldOf(fields, name).Some?
  }

  method GetTableQueryFieldDesc(fields: seq<FieldDesc>, fieldName: string, u: Unicode) returns (r: Option<FieldDesc>)
    ensures r == if Resolves(fields, fieldName, u) then FieldOf(fields, fieldName) else None
  {
    var ok := ValidateIdentifierSegment(fieldName, u);
    if !ok {
      return None;
    }
    r := ExactFrom(fields, fieldName, 0);
    if r.None? {
      r := GetTableQueryFieldDescFold(fields, fieldName);
    }
  }

  ghost predicate AllResolve(fields: seq<FieldDesc>, names: set<string>, u: Unicode) {
    forall n {:trigger Resolves(fields, n, u)} :: n in names ==> Resolves(fields, n, u)
  }

  /** Checks the names of one map, in any order. */
  method ValidateNames(fields: seq<FieldDesc>, names: set<string>, u: Unicode) returns (ok: bool)
    ensures ok <==> AllResolve(fields, names, u)
  {
    var remaining := names;
    while remaining != {}
      invariant remaining <= names
      invariant forall n :: n in names && n !in remaining ==> Resolves(fields, n, u)
      decreases remaining
    {
      var fieldName :| fieldName in remaining;
      remaining := remaining - {fieldName};
      var field := GetTableQueryFieldDesc(fields, fieldName, u);
      if field.None? {
        return false;
      }
    }
    ok := true;
  }

  ghost predicate ColumnOk(column: string, u: Unicode) {
    Trim(column) != "*" && Acceptable(column, u)
  }

  /** The verdict on each column. */
  ghost function Verdicts(columns: seq<string>, u: Unicode): (r: seq<bool>)
    ensures |r| == |columns|
  {
    seq(|columns|, i requires 0 <= i < |columns| => ColumnOk(columns[i], u))
  }

  ghost predicate ColumnsOk(columns: seq<string>, u: Unicode) {
    (|columns| == 1 && Trim(columns[0]) == "*") || false !in Verdicts(columns, u)
  }

  ghost predicate AreVerdicts(verdicts: seq<bool>, columns: seq<string>, u: Unicode) {
    && |verdicts| == |columns|
    && forall i {:trigger ColumnOk(columns[i], u)} :: 0 <= i < |columns| ==> verdicts[i] == ColumnOk(columns[i], u)
  }

  method ValidateColumn(columns: seq<string>, i: nat, u: Unicode, ghost verdicts: seq<bool>) returns (ok: bool)
    requires i < |columns| && AreVerdicts(verdicts, columns, u)
    ensures i < |verdicts| && ok == verdicts[i]
  {
    assert verdicts[i] == ColumnOk(columns[i], u);
    if Trim(columns[i]) == "*" {
      return false;
    }
    var fault;
    ok, fault := ValidateExpression(columns[i], u);
  }

  method ValidateEach(columns: seq<string>, u: Unicode, ghost verdicts: seq<bool>) returns (ok: bool)
    requires AreVerdicts(verdicts, columns, u)
    ensures ok <==> false !in verdicts
  {
    for i := 0 to |columns|
      invariant false !in verdicts[..i]
    {
      ok := ValidateColumn(columns, i, u, verdicts);
      if !ok {
        return;
      }
    }
    ok := true;
  }

  method ValidateResultColumns(columns: seq<string>, u: Unicode) returns (ok: bool)
    ensures ok <==> ColumnsOk(columns, u)
  {
    if |columns| == 0 {
      return true;
    }
    if |columns| == 1 && Trim(columns[0]) == "*" {
      return true;
    }
    ok := ValidateEach(columns, u, Verdicts(columns, u));
  }

  /** What validateTableQueryIdentifiers demands. */
  ghost predicate ValidRequest(req: Request, msgName: string, fields: seq<FieldDesc>, u: Unicode) {
    && (req.schemeName != "" ==> Segment(req.schemeName, u))
    && Lower(req.tableName) == Lower(msgName) && Segment(req.tableName, u)
    && ColumnsOk(req.resultColumns, u)
    && AllResolve(fields, req.where.Keys, u) && AllResolve(fields, req.where2.Keys, u)
      && AllResolve(fields, req.where2Operator.Keys, u)
  }

  method ValidateTableQueryIdentifiers(req: Request, msgName: string, fields: seq<FieldDesc>, u: Unicode)
    returns (ok: bool)
    ensures ok <==> ValidRequest(req, msgName, fields, u)
  {
    if |req.schemeName| > 0 {
      ok := ValidateIdentifierSegment(req.schemeName, u);
      if !ok {
        return;
      }
    }
    if Lower(req.tableName) != Lower(msgName) {
      return false;
    }
    ok := ValidateIdentifierSegment(req.tableName, u);
    if !ok {
      return;
    }
    ok := ValidateResultColumns(req.resultColumns, u);
    if !ok {
      return;
    }
    ok := ValidateNames(fields, req.where.Keys, u);
    if !ok {
      return;
    }
    ok := ValidateNames(fields, req.where2.Keys, u);
    if !ok {
      return;
    }
    ok := ValidateNames(fields, req.where2Operator.Keys, u);
  }

  // ---------- Operator conditions ----------

  /** The condition of one Where2 field. */
  ghost function PieceOf(req: Request, fields: seq<FieldDesc>, d: Dialect, rt: Runtime,
                         name: string): Result<Piece, QueryError>
  {
    if name !in req.where2 || name !in req.where2Operator then Err(NoOperator(name))
    else
      var f := FieldOf(fields, name);
      if f.None? then Err(NotFound(name))
      else Where2Condition(d, f.value, req.where2Operator[name], req.where2[name], rt)
  }

  ghost predicate AllPieces(req: Request, fields: seq<FieldDesc>, d: Dialect, rt: Runtime, names: set<string>) {
    forall n {:trigger PieceOf(req, fields, d, rt, n)} :: n in names ==> PieceOf(req, fields, d, rt, n).Ok?
  }

  /** The operator conditions can be written: as many operators as fields, one for each field,
      and every condition is supported and its value readable. */
  ghost predicate Where2Ok(req: Request, fields: seq<FieldDesc>, d: Dialect, rt: Runtime) {
    req.where2 != map[] ==> |req.where2| == |req.where2Operator| && AllPieces(req, fields, d, rt, req.where2.Keys)
  }

  /** Equal sizes and one operator for each field leave no operator without a field. */
  lemma SameNames(req: Request, fields: seq<FieldDesc>, d: Dialect, rt: Runtime)
    requires Where2Ok(req, fields, d, rt) && req.where2 != map[]
    ensures req.where2.Keys == req.where2Operator.Keys
  {
    forall n | n in req.where2.Keys
      ensures n in req.where2Operator.Keys
    {
      assert PieceOf(req, fields, d, rt, n).Ok?;
    }
    SubsetOfSameSize(req.where2.Keys, req.where2Operator.Keys);
  }

  /** The conditions of the given fields, in order. */
  ghost predicate ArePieces(pieces: seq<Piece>, req: Request, fields: seq<FieldDesc>, d: Dialect, rt: Runtime,
                            vs: seq<string>)
  {
    && |pieces| == |vs|
    && forall i {:trigger PieceOf(req, fields, d, rt, vs[i])} :: 0 <= i < |vs| ==>
      PieceOf(req, fields, d, rt, vs[i]) == Ok(pieces[i])
  }

  lemma OnePieceMore(pieces: seq<Piece>, req: Request, fields: seq<FieldDesc>, d: Dialect, rt: Runtime, vs: seq<string>,
                     name: string, piece: Piece)
    requires ArePieces(pieces, req, fields, d, rt, vs) && PieceOf(req, fields, d, rt, name) == Ok(piece)
    ensures ArePieces(pieces + [piece], req, fields, d, rt, vs + [name])
  {
    var ps, ns := pieces + [piece], vs + [name];
    forall i | 0 <= i < |ns|
      ensures PieceOf(req, fields, d, rt, ns[i]) == Ok(ps[i])
    {
      if i < |vs| {
        assert PieceOf(req, fields, d, rt, vs[i]) == Ok(pieces[i]);
      }
    }
  }

  lemma PiecesAreAll(pieces: seq<Piece>, req: Request, fields: seq<FieldDesc>, d: Dialect, rt: Runtime, vs: seq<string>)
    requires ArePieces(pieces, req, fields, d, rt, vs)
    ensures AllPieces(req, fields, d, rt, Elems(vs))
  {
    forall n | n in Elems(vs)
      ensures PieceOf(req, fields, d, rt, n).Ok?
    {
      var i :| 0 <= i < |vs| && vs[i] == n;
      assert PieceOf(req, fields, d, rt, vs[i]) == Ok(pieces[i]);
    }
  }

  // ---------- The builder ----------

  datatype BuiltQuery = BuiltQuery(sql: string, query: Query, vals: seq<GoVal>)

  function WhereArgs(where: map<string, string>, ws: seq<string>): (r: seq<GoVal>)
    ensures |r| == |ws| && forall i :: 0 <= i < |ws| && ws[i] in where ==> r[i] == Str(where[ws[i]])
  {
    seq(|ws|, i requires 0 <= i < |ws| => if ws[i] in where then Str(where[ws[i]]) else Nil)
  }

  function PieceArgs(pieces: seq<Piece>): (r: seq<GoVal>)
    ensures |r| == |pieces| && forall i :: 0 <= i < |r| ==> r[i] == pieces[i].arg
  {
    seq(|pieces|, i requires 0 <= i < |pieces| => pieces[i].arg)
  }

  /** The statement built: the permission first, then the equality fields in the order ws and the
      operator fields in the order vs, each with its argument. */
  ghost predicate IsBuilt(b: BuiltQuery, req: Request, p: Permission, fields: seq<FieldDesc>, d: Dialect, rt: Runtime,
                          ws: seq<string>, vs: seq<string>, pieces: seq<Piece>)
  {
    && WalkOf(req.where.Keys, ws) && WalkOf(req.where2.Keys, vs) && ArePieces(pieces, req, fields, d, rt, vs)
    && b.query == QueryFor(req, p, BuildDbTableName(req.tableName, req.schemeName, d), PlaceholderOf(d), ws, vs, pieces)
    && b.vals == GrantArgs(p) + WhereArgs(req.where, ws) + PieceArgs(pieces)
    && b.sql == RenderQuery(b.query)
  }

  /** The text so far, once WHERE was written. */
  function Written(head: string, conds: seq<Cond>): string {
    head + (WHERE + CondsText(conds))
  }

  lemma WrittenSnoc(head: string, conds: seq<Cond>, c: Cond)
    ensures Written(head, conds + [c]) == Written(head, conds) + ((if conds != [] then AND else "") + CondText(c))
  {
    CondsSnoc(conds, c);
    Regroup(head, WHERE, CondsText(conds), if conds != [] then AND else "", CondText(c));
  }

  lemma Regroup(a: string, b: string, c: string, d: string, e: string)
    ensures a + (b + (c + d + e)) == a + (b + c) + (d + e)
  {
  }

  /** Appends a condition, after AND unless it is the first. */
  method AppendCondition(sb: string, firstPlaceholder: bool, text: string, ghost head: string, ghost conds: seq<Cond>,
                         ghost c: Cond)
    returns (sb': string)
    requires sb == Written(head, conds) && firstPlaceholder == (conds == []) && text == CondText(c)
    ensures sb' == Written(head, conds + [c])
  {
    WrittenSnoc(head, conds, c);
    var sep := "";
    if !firstPlaceholder {
      sep := AND;
    }
    sb' := sb + (sep + text);
  }

  /** The loop over the equality fields: what is written for the names ws, and the running number,
      which matters only when placeholders are numbered. */
  ghost predicate WhereState(req: Request, style: PlaceholderStyle, head: string, pre: seq<Cond>, no: nat,
                             sb: string, first: bool, next: nat, vals: seq<GoVal>, ws: seq<string>)
  {
    && vals == WhereArgs(req.where, ws)
    && sb == Written(head, pre + WhereConds(ws, style, no))
    && first == (|pre| + |ws| == 0)
    && (style == Dollar ==> next == no + |ws|)
  }

  lemma WhereCondsSnoc(pre: seq<Cond>, ws: seq<string>, c: string, style: PlaceholderStyle, no: nat)
    ensures pre + WhereConds(ws + [c], style, no) == pre + WhereConds(ws, style, no)
            + [OnColumn(c, Compare(Eq), HoleOf(style, no + |ws|))]
  {
  }

  method WriteWhereField(req: Request, style: PlaceholderStyle, ghost head: string, ghost pre: seq<Cond>, ghost no: nat,
                         sb: string, first: bool, sqlParaNo: nat, vals: seq<GoVal>, ghost ws: seq<string>,
                         fieldName: string)
    returns (sb': string, next: nat, vals': seq<GoVal>)
    requires WhereState(req, style, head, pre, no, sb, first, sqlParaNo, vals, ws) && fieldName in req.where
    ensures WhereState(req, style, head, pre, no, sb', false, next, vals', ws + [fieldName])
  {
    ghost var c := OnColumn(fieldName, Compare(Eq), HoleOf(style, no + |ws|));
    WhereCondsSnoc(pre, ws, fieldName, style, no);
    var hole;
    hole, next := WriteHole(style, sqlParaNo);
    sb' := AppendCondition(sb, first, fieldName + EQUAL + hole, head, pre + WhereConds(ws, style, no), c);
    vals' := vals + [Str(req.where[fieldName])];
  }

  method WriteWhere(sb: string, req: Request, style: PlaceholderStyle, firstPlaceholder: bool, sqlParaNo: nat,
                    ghost head: string, ghost pre: seq<Cond>, ghost no: nat)
    returns (sb': string, first': bool, next: nat, vals: seq<GoVal>, ws: seq<string>)
    requires WhereState(req, style, head, pre, no, sb, firstPlaceholder, sqlParaNo, [], [])
    ensures WalkOf(req.where.Keys, ws)
    ensures WhereState(req, style, head, pre, no, sb', first', next, vals, ws)
  {
    sb', first', next, vals, ws := sb, firstPlaceholder, sqlParaNo, [], [];
    var remaining := req.where.Keys;
    while remaining != {}
      invariant Walked(req.where.Keys, remaining, ws)
      invariant WhereState(req, style, head, pre, no, sb', first', next, vals, ws)
      decreases remaining
    {
      var fieldName :| fieldName in remaining;
      WalkOn(req.where.Keys, remaining, ws, fieldName);
      remaining := remaining - {fieldName};
      sb', next, vals := WriteWhereField(req, style, head, pre, no, sb', first', next, vals, ws, fieldName);
      first' := false;
      ws := ws + [fieldName];
    }
  }

  /** The WHERE clause so far: nothing yet, or WHERE and the conditions. */
  ghost predicate ClauseSoFar(sb: string, head: string, conds: seq<Cond>, first: bool) {
    ClauseIs(sb, head, conds) && first == (conds == [])
  }

  ghost predicate ClauseIs(sb: string, head: string, conds: seq<Cond>) {
    sb == WithConditions(head, conds)
  }

  lemma NoConditions(head: string)
    ensures Written(head, []) == head + WHERE
  {
  }

  /** Writes the permission clause and the equality fields. */
  method WriteFirstConditions(req: Request, p: Permission, style: PlaceholderStyle, head: string)
    returns (sb: string, first: bool, next: nat, vals: seq<GoVal>, ws: seq<string>)
    ensures WalkOf(req.where.Keys, ws) && vals == GrantArgs(p) + WhereArgs(req.where, ws)
    ensures ClauseSoFar(sb, head, FirstConds(p, style, ws), first)
    ensures style == Dollar ==> next == 1 + |GrantArgs(p)| + |ws|
  {
    sb, first, next, vals, ws := head, true, 1, [], [];
    NoConditions(head);
    if |req.where| > 0 || |p.text| > 0 {
      sb := sb + WHERE;
      if |p.text| > 0 {
        WrittenSnoc(head, [], Granted(p.text, |p.vals|));
        sb := sb + (" ( " + p.text + " ) ");
        first := false;
        if |p.vals| > 0 {
          vals := vals + p.vals;
          next := next + |p.vals|;
        }
      }
      assert vals == GrantArgs(p);
      var more;
      sb, first, next, more, ws := WriteWhereAfter(sb, req, p, style, first, next, head);
      vals := vals + more;
    }
  }

  method WriteWhereAfter(sb: string, req: Request, p: Permission, style: PlaceholderStyle, first: bool, sqlParaNo: nat,
                         ghost head: string)
    returns (sb': string, first': bool, next: nat, vals: seq<GoVal>, ws: seq<string>)
    requires sb == Written(head, GrantConds(p)) && first == (GrantConds(p) == [])
    requires style == Dollar ==> sqlParaNo == 1 + |GrantArgs(p)|
    requires req.where != map[] || p.text != ""
    ensures WalkOf(req.where.Keys, ws) && vals == WhereArgs(req.where, ws)
    ensures ClauseSoFar(sb', head, FirstConds(p, style, ws), first')
    ensures style == Dollar ==> next == 1 + |GrantArgs(p)| + |ws|
  {
    ghost var pre, no := GrantConds(p), 1 + |GrantArgs(p)|;
    assert pre + WhereConds([], style, no) == pre;
    sb', first', next, vals, ws := WriteWhere(sb, req, style, first, sqlParaNo, head, pre, no);
    WalkSize(req.where.Keys, ws);
    assert |pre + WhereConds(ws, style, no)| == |pre| + |ws| > 0;
  }

  /** The loop over the operator fields: what is written for the fields vs with the conditions pieces. */
  ghost predicate Where2State(style: PlaceholderStyle, head: string, pre: seq<Cond>, no: nat, sb: string, first: bool,
                              next: nat, vals: seq<GoVal>, vs: seq<string>, pieces: seq<Piece>)
  {
    && |pieces| == |vs| && vals == PieceArgs(pieces)
    && sb == Written(head, AndThen(pre, vs, pieces, style, no))
    && first == (|pre| + |vs| == 0)
    && (style == Dollar ==> next == no + |vs|)
  }

  lemma AndThenSnoc(pre: seq<Cond>, vs: seq<string>, pieces: seq<Piece>, style: PlaceholderStyle, no: nat, name: string,
                    piece: Piece)
    requires |vs| == |pieces|
    ensures AndThen(pre, vs + [name], pieces + [piece], style, no)
         == AndThen(pre, vs, pieces, style, no) + [OnColumn(name, piece.shape, HoleOf(style, no + |vs|))]
    ensures PieceArgs(pieces + [piece]) == PieceArgs(pieces) + [piece.arg]
  {
  }

  /** Looks up the operator of a field and the condition it becomes. */
  method Where2Piece(req: Request, fields: seq<FieldDesc>, d: Dialect, u: Unicode, rt: Runtime, name: string)
    returns (r: Result<Piece, QueryError>)
    requires name in req.where2 && Resolves(fields, name, u)
    ensures r == PieceOf(req, fields, d, rt, name)
  {
    if name !in req.where2Operator {
      return Err(NoOperator(name));
    }
    var field := GetTableQueryFieldDesc(fields, name, u);
    r := BuildWhere2ConditionForColumn(d, field.value, req.where2Operator[name], req.where2[name], rt);
  }

  /** Appends an operator condition with its placeholder. */
  method WriteOperator(name: string, piece: Piece, style: PlaceholderStyle, ghost head: string, ghost pre: seq<Cond>,
                       ghost no: nat, sb: string, first: bool, sqlParaNo: nat, vals: seq<GoVal>, ghost vs: seq<string>,
                       ghost pieces: seq<Piece>)
    returns (sb': string, next: nat, vals': seq<GoVal>)
    requires Where2State(style, head, pre, no, sb, first, sqlParaNo, vals, vs, pieces)
    ensures Where2State(style, head, pre, no, sb', false, next, vals', vs + [name], pieces + [piece])
  {
    AndThenSnoc(pre, vs, pieces, style, no, name, piece);
    assert HoleOf(style, sqlParaNo) == HoleOf(style, no + |vs|);
    var cond := ShapeText(piece.shape, name, HoleText(HoleOf(style, sqlParaNo)));
    sb' := AppendCondition(sb, first, cond, head, AndThen(pre, vs, pieces, style, no),
                           OnColumn(name, piece.shape, HoleOf(style, no + |vs|)));
    next := sqlParaNo + 1;
    vals' := vals + [piece.arg];
  }

  method WriteWhere2(sb: string, req: Request, fields: seq<FieldDesc>, d: Dialect, u: Unicode, rt: Runtime,
                     firstPlaceholder: bool, sqlParaNo: nat, ghost head: string, ghost pre: seq<Cond>, ghost no: nat)
    returns (err: Option<QueryError>, sb': string, next: nat, vals: seq<GoVal>, vs: seq<string>, pieces: seq<Piece>)
    requires AllResolve(fields, req.where2.Keys, u)
    requires Where2State(PlaceholderOf(d), head, pre, no, sb, firstPlaceholder, sqlParaNo, [], [], [])
    ensures err.None? <==> AllPieces(req, fields, d, rt, req.where2.Keys)
    ensures err.None? ==> WalkOf(req.where2.Keys, vs) && ArePieces(pieces, req, fields, d, rt, vs)
    ensures err.None? ==> Where2State(PlaceholderOf(d), head, pre, no, sb', |pre| + |vs| == 0, next, vals, vs, pieces)
  {
    var first := firstPlaceholder;
    err, sb', next, vals, vs, pieces := None, sb, sqlParaNo, [], [], [];
    var remaining := req.where2.Keys;
    while remaining != {}
      invariant err.None? && Walked(req.where2.Keys, remaining, vs) && ArePieces(pieces, req, fields, d, rt, vs)
      invariant Where2State(PlaceholderOf(d), head, pre, no, sb', first, next, vals, vs, pieces)
      decreases remaining
    {
      var name :| name in remaining;
      WalkOn(req.where2.Keys, remaining, vs, name);
      remaining := remaining - {name};
      var piece := Where2Piece(req, fields, d, u, rt, name);
      if piece.Err? {
        err := Some(piece.error);
        return;
      }
      sb', next, vals := WriteOperator(name, piece.value, PlaceholderOf(d), head, pre, no, sb', first, next, vals, vs,
                                       pieces);
      OnePieceMore(pieces, req, fields, d, rt, vs, name, piece.value);
      first := false;
      vs, pieces := vs + [name], pieces + [piece.value];
    }
    PiecesAreAll(pieces, req, fields, d, rt, vs);
  }

  /** Writes the bounds. */
  method WriteBounds(sb: string, limit: int, offset: int) returns (sb': string)
    ensures sb' == sb + BoundsText(limit, offset)
  {
    sb' := sb;
    if limit > 0 {
      sb' := sb' + (" LIMIT " + Itoa(limit));
    }
    if offset > 0 {
      sb' := sb' + (" OFFSET " + Itoa(offset));
    }
  }

  /** Checks the sizes and writes the operator fields after the conditions pre. */
  method WriteOperators(sb: string, req: Request, fields: seq<FieldDesc>, d: Dialect, u: Unicode, rt: Runtime,
                        first: bool, sqlParaNo: nat, ghost head: string, ghost pre: seq<Cond>, ghost no: nat)
    returns (err: Option<QueryError>, sb': string, vals: seq<GoVal>, vs: seq<string>, pieces: seq<Piece>)
    requires AllResolve(fields, req.where2.Keys, u) && ClauseSoFar(sb, head, pre, first)
    requires PlaceholderOf(d) == Dollar ==> sqlParaNo == no
    ensures err.None? <==> Where2Ok(req, fields, d, rt)
    ensures err.None? ==>
            WalkOf(req.where2.Keys, vs) && ArePieces(pieces, req, fields, d, rt, vs) && vals == PieceArgs(pieces)
    ensures err.None? ==> ClauseIs(sb', head, AndThen(pre, vs, pieces, PlaceholderOf(d), no))
  {
    err, sb', vals, vs, pieces := None, sb, [], [], [];
    assert AndThen(pre, [], [], PlaceholderOf(d), no) == pre;
    if |req.where2| > 0 {
      if |req.where2| != |req.where2Operator| {
        err := Some(SizesDiffer);
        return;
      }
      if first {
        NoConditions(head);
        sb' := sb' + WHERE;
      }
      var next;
      err, sb', next, vals, vs, pieces := WriteWhere2(sb', req, fields, d, u, rt, first, sqlParaNo, head, pre, no);
      if err.None? {
        WalkSize(req.where2.Keys, vs);
      }
    }
  }

  /** TableQueryBuildSql. The statement is built exactly when the request is valid and its operator
      conditions can be written; no text is longer than the predicted capacity. */
  method TableQueryBuildSql(req: Request, p: Permission, msgName: string, fields: seq<FieldDesc>, d: Dialect,
                            u: Unicode, rt: Runtime)
    returns (r: Result<BuiltQuery, QueryError>, capacity: int, ghost ws: seq<string>, ghost vs: seq<string>,
             ghost pieces: seq<Piece>)
    requires |p.vals| + |req.where| + |req.where2| < TWO31 && req.limit < TWO31 && req.offset < TWO63
    ensures r.Ok? <==> ValidRequest(req, msgName, fields, u) && Where2Ok(req, fields, d, rt)
    ensures r.Ok? ==> IsBuilt(r.value, req, p, fields, d, rt, ws, vs, pieces)
    ensures r.Ok? ==> |r.value.sql| <= capacity
  {
    capacity, ws, vs, pieces := 0, [], [], [];
    var valid := ValidateTableQueryIdentifiers(req, msgName, fields, u);
    if !valid {
      return Err(Invalid(req.tableName)), capacity, ws, vs, pieces;
    }
    var dbtable, style := BuildDbTableName(req.tableName, req.schemeName, d), PlaceholderOf(d);
    capacity := TableQueryBuildSQLCap(req, p, dbtable, style);
    r, ws, vs, pieces := WriteQuery(req, p, dbtable, fields, d, u, rt);
    if r.Ok? {
      assert IsQueryFor(r.value.query, req, p, dbtable, style, ws, vs, pieces);
    }
  }

  method WriteQuery(req: Request, p: Permission, dbtable: string, fields: seq<FieldDesc>, d: Dialect, u: Unicode,
                    rt: Runtime)
    returns (r: Result<BuiltQuery, QueryError>, ghost ws: seq<string>, ghost vs: seq<string>, ghost pieces: seq<Piece>)
    requires dbtable == BuildDbTableName(req.tableName, req.schemeName, d)
    requires AllResolve(fields, req.where2.Keys, u)
    ensures r.Ok? <==> Where2Ok(req, fields, d, rt)
    ensures r.Ok? ==> IsBuilt(r.value, req, p, fields, d, rt, ws, vs, pieces)
  {
    var style := PlaceholderOf(d);
    var head := HeadText(req.resultColumns, dbtable);
    var sb, first, next, vals, order := WriteFirstConditions(req, p, style, head);
    ws, vs, pieces := order, [], [];
    var no := 1 + |GrantArgs(p)| + |order|;
    var err, sb2, vals2, order2, pieces2 := WriteOperators(sb, req, fields, d, u, rt, first, next, head,
                                                           FirstConds(p, style, order), no);
    if err.Some? {
      return Err(err.value), ws, vs, pieces;
    }
    vs, pieces := order2, pieces2;
    var built := Finish(sb2, req, p, dbtable, style, order, order2, pieces2, vals + vals2, head, no);
    r := Ok(built);
  }

  /** Adds the bounds. */
  method Finish(sb: string, req: Request, p: Permission, dbtable: string, style: PlaceholderStyle, ws: seq<string>,
                vs: seq<string>, pieces: seq<Piece>, vals: seq<GoVal>, ghost head: string, ghost no: nat)
    returns (b: BuiltQuery)
    requires |vs| == |pieces| && head == HeadText(req.resultColumns, dbtable) && no == 1 + |GrantArgs(p)| + |ws|
    requires ClauseIs(sb, head, AndThen(FirstConds(p, style, ws), vs, pieces, style, no))
    ensures b.query == QueryFor(req, p, dbtable, style, ws, vs, pieces) && b.vals == vals
            && b.sql == RenderQuery(b.query)
  {
    var sql := WriteBounds(sb, req.limit, req.offset);
    Rendered(sb, req, p, dbtable, style, ws, vs, pieces, head, no);
    b := BuiltQuery(sql, QueryFor(req, p, dbtable, style, ws, vs, pieces), vals);
  }

  lemma Rendered(sb: string, req: Request, p: Permission, dbtable: string, style: PlaceholderStyle, ws: seq<string>,
                 vs: seq<string>, pieces: seq<Piece>, head: string, no: nat)
    requires |vs| == |pieces| && head == HeadText(req.resultColumns, dbtable) && no == 1 + |GrantArgs(p)| + |ws|
    requires ClauseIs(sb, head, AndThen(FirstConds(p, style, ws), vs, pieces, style, no))
    ensures sb + BoundsText(req.limit, req.offset) == RenderQuery(QueryFor(req, p, dbtable, style, ws, vs, pieces))
  {
    CondsForIs(p, style, ws, vs, pieces, no);
    RenderIs(QueryFor(req, p, dbtable, style, ws, vs, pieces), sb, head, CondsFor(p, style, ws, vs, pieces));
  }

  lemma RenderIs(q: Query, sb: string, head: string, conds: seq<Cond>)
    requires ClauseIs(sb, head, conds) && q.conds == conds && head == HeadText(q.columns, q.table)
    ensures sb + BoundsText(q.limit, q.offset) == RenderQuery(q)
  {
  }
}
