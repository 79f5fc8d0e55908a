/** The statement a table query becomes: its text and its meaning. */
module QuerySql {
  import opened Prelude
  import opened Sqldb
  import opened Text
  import opened Message
  import opened Sql
  import opened SqlBuilder
  import opened Codec
  import opened Where2
  import opened Where2Meaning
  import opened MapMeaning

  /** The request fields the builder reads. */
  datatype Request = Request(schemeName: string, tableName: string, resultColumns: seq<string>,
                             where: map<string, string>, where2: map<string, string>, where2Operator: map<string, Op>,
                             limit: int, offset: int)

  /** The permission clause: its text and the arguments of its own placeholders. */
  datatype Permission = Permission(text: string, vals: seq<GoVal>)

  datatype Cond = Granted(text: string, arity: nat) | OnColumn(col: string, shape: Shape, hole: Hole)

  datatype Query = Query(columns: seq<string>, table: string, conds: seq<Cond>, limit: int, offset: int)

  // ---------- Text ----------

  function CondText(c: Cond): string {
    match c
    case Granted(text, _) => " ( " + text + " ) "
    case OnColumn(col, shape, hole) => ShapeText(shape, col, HoleText(hole))
  }

  function CondTexts(conds: seq<Cond>): seq<string> {
    Map(CondText, conds)
  }

  function CondsText(conds: seq<Cond>): string {
    Join(CondTexts(conds), AND)
  }

  lemma CondsSnoc(conds: seq<Cond>, c: Cond)
    ensures CondsText(conds + [c]) == CondsText(conds) + (if conds != [] then AND else "") + CondText(c)
  {
    MapSplit(CondText, conds, [c]);
    assert CondTexts([c]) == [CondText(c)];
    JoinSnoc(CondTexts(conds), CondText(c), AND);
  }

  function ColumnsText(columns: seq<string>): string {
    if columns == [] then " * " else Join(columns, COMMA)
  }

  function BoundsText(limit: int, offset: int): string {
    (if limit > 0 then " LIMIT " + Itoa(limit) else "") + (if offset > 0 then " OFFSET " + Itoa(offset) else "")
  }

  function HeadText(columns: seq<string>, table: string): string {
    " SELECT " + ColumnsText(columns) + " FROM " + table
  }

  /** WHERE stands in the text once if there is a condition, and not at all otherwise. */
  function WithConditions(head: string, conds: seq<Cond>): string {
    if conds == [] then head else head + (WHERE + CondsText(conds))
  }

  function RenderQuery(q: Query): string {
    WithConditions(HeadText(q.columns, q.table), q.conds) + BoundsText(q.limit, q.offset)
  }

  // ---------- The statement of a request ----------

  function GrantConds(p: Permission): seq<Cond> {
    if p.text == "" then [] else [Granted(p.text, |p.vals|)]
  }

  function GrantArgs(p: Permission): seq<GoVal> {
    if p.text == "" then [] else p.vals
  }

  function WhereConds(ws: seq<string>, style: PlaceholderStyle, no: nat): (r: seq<Cond>)
    ensures |r| == |ws| && forall i :: 0 <= i < |r| ==> r[i] == OnColumn(ws[i], Compare(Eq), HoleOf(style, no + i))
  {
    seq(|ws|, i requires 0 <= i < |ws| => OnColumn(ws[i], Compare(Eq), HoleOf(style, no + i)))
  }

  function Where2Conds(vs: seq<string>, pieces: seq<Piece>, style: PlaceholderStyle, no: nat): (r: seq<Cond>)
    requires |vs| == |pieces|
    ensures |r| == |vs| && forall i :: 0 <= i < |r| ==> r[i] == OnColumn(vs[i], pieces[i].shape, HoleOf(style, no + i))
  {
    seq(|vs|, i requires 0 <= i < |vs| => OnColumn(vs[i], pieces[i].shape, HoleOf(style, no + i)))
  }

  /** The permission and the equality fields in the order ws. */
  function FirstConds(p: Permission, style: PlaceholderStyle, ws: seq<string>): seq<Cond> {
    GrantConds(p) + WhereConds(ws, style, 1 + |GrantArgs(p)|)
  }

  function AndThen(pre: seq<Cond>, vs: seq<string>, pieces: seq<Piece>, style: PlaceholderStyle, no: nat): seq<Cond>
    requires |vs| == |pieces|
  {
    pre + Where2Conds(vs, pieces, style, no)
  }

  /** All conditions, with the operator fields in the order vs. */
  function CondsFor(p: Permission, style: PlaceholderStyle, ws: seq<string>, vs: seq<string>,
                    pieces: seq<Piece>): seq<Cond>
    requires |vs| == |pieces|
  {
    AndThen(FirstConds(p, style, ws), vs, pieces, style, 1 + |GrantArgs(p)| + |ws|)
  }

  function QueryFor(req: Request, p: Permission, dbtable: string, style: PlaceholderStyle,
                    ws: seq<string>, vs: seq<string>, pieces: seq<Piece>): Query
    requires |vs| == |pieces|
  {
    Query(req.resultColumns, dbtable, CondsFor(p, style, ws, vs, pieces), req.limit, req.offset)
  }

  // ---------- Meaning ----------

  /** What a database server contributes: how it resolves a column name, what its operators say
      of a cell and an argument, what json_each makes of a cell that holds no JSON text, and what it
      makes of the permission text. */
  datatype DbServer = DbServer(column: (Row, string) -> Cell,
                               holds: (Shape, Cell, GoVal) -> bool,
                               json: Cell -> Json,
                               allows: (string, Row, seq<GoVal>) -> bool)

  predicate LiteShape(s: Shape) {
    match s
    case LiteHasKey => true
    case LiteMapContains => true
    case LiteElement => true
    case LiteOverlap => true
    case LiteContainsAll => true
    case Length(fn, _) => fn == JsonArrayLength
    case _ => false
  }

  /** An array operator of PostgreSQL on an array of booleans, integers or texts. */
  predicate PgDescribed(s: Shape, col: seq<GoVal>) {
    && (match s
        case PgElement(_) => true
        case PgOverlap => true
        case PgContainsAll => true
        case Length(fn, _) => fn == Cardinality
        case _ => false)
    && forall i :: 0 <= i < |col| ==> col[i].Bool? || col[i].Int? || col[i].Str?
  }

  /** A JSON function of MySQL on arrays of integers or strings. */
  predicate MyDescribed(s: Shape, es: seq<Json>, arg: GoVal, doc: Json) {
    && (match s
        case MyElement => arg.Int? || arg.Str?
        case MyOverlaps => doc.JArr? && MyScalars(doc.elems)
        case MyContains => doc.JArr? && MyScalars(doc.elems)
        case Length(fn, _) => fn == JsonLength
        case _ => false)
    && MyScalars(es)
  }

  function ArgDoc(arg: GoVal, rt: Runtime): Json {
    DocOf(if arg.Str? then rt.jsonDoc(arg.s) else None)
  }

  predicate HoldsJson(cell: Cell) {
    cell.Val? && cell.v.JsonText?
  }

  function CellDoc(sv: DbServer, cell: Cell): Json {
    if HoldsJson(cell) then cell.v.j else sv.json(cell)
  }

  /** A condition of a cell: the conditions on lists and maps have the meaning of their operators, the
      others are the server's. */
  predicate Holds(sv: DbServer, rt: Runtime, s: Shape, cell: Cell, arg: GoVal) {
    if LiteShape(s) && (HoldsJson(cell) || !s.Length?) then LiteHolds(s, CellDoc(sv, cell), arg, ArgDoc(arg, rt), rt)
    else if cell.Val? && cell.v.Slice? && PgDescribed(s, cell.v.elems) then PgHolds(s, cell.v.elems, arg)
    else if cell.Val? && cell.v.JsonText? && cell.v.j.JArr? && MyDescribed(s, cell.v.j.elems, arg, ArgDoc(arg, rt)) then
      MyHolds(s, cell.v.j.elems, arg, ArgDoc(arg, rt))
    else if HoldsJson(cell) && cell.v.j.JObj? && ObjectDescribed(s, cell.v.j.members, arg, ArgDoc(arg, rt)) then
      ObjectHolds(s, cell.v.j.members, arg, ArgDoc(arg, rt))
    else sv.holds(s, cell, arg)
  }

  function Arity(c: Cond): nat {
    if c.Granted? then c.arity else 1
  }

  /** The number of placeholders in front of condition i. */
  function Before(conds: seq<Cond>, i: nat): nat
    requires i <= |conds|
  {
    if i == 0 then 0 else Before(conds, i - 1) + Arity(conds[i - 1])
  }

  /** The server accepts the arguments: one for each placeholder, and no number out of range. */
  predicate BindsQuery(conds: seq<Cond>, args: seq<GoVal>) {
    && Before(conds, |conds|) == |args|
    && forall i :: 0 <= i < |conds| && conds[i].OnColumn? && conds[i].hole.Numbered? ==> 1 <= conds[i].hole.n <= |args|
  }

  lemma {:induction false} BeforeMonotone(conds: seq<Cond>, i: nat, j: nat)
    requires i <= j <= |conds|
    ensures Before(conds, i) <= Before(conds, j)
    decreases j
  {
    if i < j {
      BeforeMonotone(conds, i, j - 1);
    }
  }

  /** Condition i holds of a row: a question mark takes the argument at its position, a numbered
      placeholder the one of its number; the permission text takes those at its position. */
  ghost predicate CondHolds(sv: DbServer, rt: Runtime, conds: seq<Cond>, i: nat, args: seq<GoVal>, r: Row)
    requires BindsQuery(conds, args) && i < |conds|
  {
    BeforeMonotone(conds, i + 1, |conds|);
    var at := Before(conds, i);
    match conds[i]
    case Granted(text, k) => sv.allows(text, r, args[at..at + k])
    case OnColumn(col, shape, hole) =>
      Holds(sv, rt, shape, sv.column(r, col), if hole.Mark? then args[at] else args[hole.n - 1])
  }

  ghost predicate Satisfies(sv: DbServer, rt: Runtime, conds: seq<Cond>, args: seq<GoVal>, r: Row) {
    BindsQuery(conds, args) && forall i :: 0 <= i < |conds| ==> CondHolds(sv, rt, conds, i, args, r)
  }

  /** The stretch of rows that OFFSET and LIMIT leave; neither counts when it is not positive. */
  function Window<T>(rows: seq<T>, limit: int, offset: int): seq<T> {
    var rest := if offset <= 0 then rows else if offset <= |rows| then rows[offset..] else [];
    if 0 < limit < |rest| then rest[..limit] else rest
  }

  /** MySQL and SQLite have no OFFSET without LIMIT. */
  predicate Wellformed(q: Query, d: Dialect) {
    q.offset > 0 && q.limit <= 0 ==> d != Mysql && d != SQLite
  }

  /** The chosen rows in some order, windowed. */
  ghost predicate Lists(rows: seq<Row>, chosen: set<Row>, limit: int, offset: int) {
    exists full: seq<Row> :: Distinct(full) && Elems(full) == chosen && rows == Window(full, limit, offset)
  }

  /** The rows a server may answer with: the satisfying rows of the table, windowed. */
  ghost predicate MayAnswer(sv: DbServer, rt: Runtime, q: Query, d: Dialect, args: seq<GoVal>, t: Table, rows: seq<Row>)
  {
    && Wellformed(q, d) && BindsQuery(q.conds, args)
    && Lists(rows, (set r | r in t && Satisfies(sv, rt, q.conds, args, r)), q.limit, q.offset)
  }
}
