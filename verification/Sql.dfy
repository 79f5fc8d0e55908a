/** The SQL statements the update, select and delete builders emit: their text (with the
    constants of protosql/sqlconst.go) and their meaning over tables of rows. */
module Sql {
  import opened Text
  import opened Message

  // ---------- Statements ----------

  /** A placeholder: a question mark, or a dollar sign and a number. */
  datatype Hole = Mark | Numbered(n: nat)

  datatype Assign = Assign(col: string, hole: Hole)

  datatype Returning = NoRows | NewRow | OldAndNew

  datatype Stmt =
    | Update(table: string, sets: seq<Assign>, where: seq<Assign>, ret: Returning)
    | CteUpdate(table: string, oldWhere: seq<Assign>, sets: seq<Assign>, join: seq<string>, partialText: bool)
    | SelectOne(table: string, where: seq<Assign>)
    | Delete(table: string, where: seq<Assign>, ret: Returning)

  // ---------- Text ----------

  const COMMA := " , "
  const AND := " AND "
  const EQUAL := " = "
  const WHERE := " WHERE "
  const SET := " SET "
  const UPDATE := " UPDATE "
  const SEMICOLON := " ; "

  function HoleText(h: Hole): string {
    match h
    case Mark => "?"
    case Numbered(n) => "$" + Itoa(n)
  }

  function AssignText(a: Assign): string {
    a.col + EQUAL + HoleText(a.hole)
  }

  function AssignsText(xs: seq<Assign>, sep: string): string {
    if xs == [] then ""
    else
      AssignsText(xs[..|xs| - 1], sep) + (if |xs| > 1 then sep else "") + AssignText(xs[|xs| - 1])
  }

  function JoinText(cols: seq<string>, partialText: bool): string {
    if cols == [] then ""
    else
      var c := cols[|cols| - 1];
      JoinText(cols[..|cols| - 1], partialText) + (if |cols| > 1 then AND else "")
      + " new." + c + (if partialText then EQUAL + "old." else "=old.") + c
  }

  function ReturningText(r: Returning): string {
    match r
    case NoRows => SEMICOLON
    case NewRow => " RETURNING * " + SEMICOLON
    case OldAndNew => " RETURNING OLD.*,NEW.* ;"
  }

  function Render(s: Stmt): string {
    match s
    case Update(t, sets, where, ret) =>
      UPDATE + t + SET + AssignsText(sets, COMMA) + WHERE + AssignsText(where, AND) + ReturningText(ret)
    case CteUpdate(t, oldWhere, sets, join, partialText) =>
      "with old as (select * from " + t + WHERE + AssignsText(oldWhere, AND)
      + (if partialText then " ) " + UPDATE + t + " new " + SET else " ) UPDATE " + t + " new set ")
      + AssignsText(sets, COMMA)
      + (if partialText then " FROM " + " old " + WHERE else " from old where ")
      + JoinText(join, partialText) + " RETURNING old.*,new.* ;"
    case SelectOne(t, where) =>
      " SELECT " + " * " + " FROM " + t + WHERE + AssignsText(where, AND) + " LIMIT " + " 1 "
    case Delete(t, where, ret) =>
      "DELETE FROM " + t + WHERE + AssignsText(where, AND) + ReturningText(ret)
  }

  // ---------- Arguments ----------

  datatype Cell = Null | Val(v: GoVal)

  /** What a column receives from a driver argument. */
  function ToCell(v: GoVal): Cell
    decreases v
  {
    match v
    case Nil => Null
    case NullString => Null
    case NilPtr => Null
    case Ptr(t) => ToCell(t)
    case _ => Val(v)
  }

  /** The placeholders in the order they stand in the text. */
  function Holes(s: Stmt): seq<Hole> {
    match s
    case Update(_, sets, where, _) => HolesOf(sets) + HolesOf(where)
    case CteUpdate(_, oldWhere, sets, _, _) => HolesOf(oldWhere) + HolesOf(sets)
    case SelectOne(_, where) => HolesOf(where)
    case Delete(_, where, _) => HolesOf(where)
  }

  function HolesOf(xs: seq<Assign>): (r: seq<Hole>)
    ensures |r| == |xs| && forall i :: 0 <= i < |xs| ==> r[i] == xs[i].hole
  {
    seq(|xs|, i requires 0 <= i < |xs| => xs[i].hole)
  }

  /** The server accepts the arguments: one for each placeholder, and no number out of range. */
  predicate Binds(holes: seq<Hole>, args: seq<GoVal>) {
    |holes| == |args| && forall i :: 0 <= i < |holes| ==> holes[i].Numbered? ==> 1 <= holes[i].n <= |args|
  }

  /** All placeholders are numbered, or none is. */
  predicate Styled(holes: seq<Hole>, numbered: bool) {
    forall i :: 0 <= i < |holes| ==> (holes[i].Numbered? <==> numbered)
  }

  /** The argument of the i-th placeholder: question marks are filled by position, numbered ones by number. */
  function ArgOf(holes: seq<Hole>, args: seq<GoVal>, i: nat): GoVal
    requires Binds(holes, args) && i < |holes|
  {
    if holes[i].Mark? then args[i] else args[holes[i].n - 1]
  }

  function Cells(holes: seq<Hole>, args: seq<GoVal>): (r: seq<Cell>)
    requires Binds(holes, args)
    ensures |r| == |holes| && forall i :: 0 <= i < |r| ==> r[i] == ToCell(ArgOf(holes, args, i))
  {
    seq(|holes|, i requires 0 <= i < |holes| => ToCell(ArgOf(holes, args, i)))
  }

  // ---------- Meaning ----------

  type Row = map<string, Cell>

  type Table = set<Row>

  type Tables = map<string, Table>

  datatype ResultRow = One(row: Row) | Pair(before: Row, after: Row)

  datatype Answer = Failed | Answer(tables: Tables, rows: set<ResultRow>)

  /** SQL equality with every condition: a NULL on either side never matches. */
  predicate Matches(r: Row, where: seq<Assign>, cells: seq<Cell>)
    requires |where| == |cells|
  {
    forall i :: 0 <= i < |where| ==>
      where[i].col in r && cells[i] != Null && r[where[i].col] == cells[i]
  }

  function Changed(r: Row, sets: seq<Assign>, cells: seq<Cell>): Row
    requires |sets| == |cells|
  {
    if sets == [] then r
    else
      var n := |sets| - 1;
      Changed(r, sets[..n], cells[..n])[sets[n].col := cells[n]]
  }

  predicate Joined(o: Row, n: Row, cols: seq<string>) {
    forall i :: 0 <= i < |cols| ==> cols[i] in o && cols[i] in n && o[cols[i]] != Null && o[cols[i]] == n[cols[i]]
  }

  /** The table after an update of the matching rows. */
  function Updated(t: Table, sets: seq<Assign>, sc: seq<Cell>, where: seq<Assign>, wc: seq<Cell>): Table
    requires |sets| == |sc| && |where| == |wc|
  {
    set r | r in t :: if Matches(r, where, wc) then Changed(r, sets, sc) else r
  }

  function Returned(t: Table, sets: seq<Assign>, sc: seq<Cell>, where: seq<Assign>, wc: seq<Cell>,
                    ret: Returning): set<ResultRow>
    requires |sets| == |sc| && |where| == |wc|
  {
    match ret
    case NoRows => {}
    case NewRow => set r | r in t && Matches(r, where, wc) :: One(Changed(r, sets, sc))
    case OldAndNew => set r | r in t && Matches(r, where, wc) :: Pair(r, Changed(r, sets, sc))
  }

  function Selected(t: Table, where: seq<Assign>, wc: seq<Cell>): Table
    requires |where| == |wc|
  {
    set r | r in t && Matches(r, where, wc)
  }

  /** The table after an update of the rows that join a prior row. */
  function UpdatedByJoin(t: Table, sets: seq<Assign>, sc: seq<Cell>, prior: Table, join: seq<string>): Table
    requires |sets| == |sc|
  {
    set n | n in t :: if exists o :: o in prior && Joined(o, n, join) then Changed(n, sets, sc) else n
  }

  function JoinedPairs(t: Table, sets: seq<Assign>, sc: seq<Cell>, prior: Table, join: seq<string>): set<ResultRow>
    requires |sets| == |sc|
  {
    set n, o | n in t && o in prior && Joined(o, n, join) :: Pair(o, Changed(n, sets, sc))
  }

  function Ones(t: Table): set<ResultRow> {
    set r | r in t :: One(r)
  }

  /** Executes a statement. An empty SET list or an empty condition is a syntax error. */
  function Eval(db: Tables, s: Stmt, args: seq<GoVal>): Answer {
    if s.table !in db || !Binds(Holes(s), args) then Failed
    else
      var t := db[s.table];
      var cells := Cells(Holes(s), args);
      match s
      case Update(_, sets, where, ret) =>
        if sets == [] || where == [] then Failed
        else
          var sc, wc := cells[..|sets|], cells[|sets|..];
          Answer(db[s.table := Updated(t, sets, sc, where, wc)], Returned(t, sets, sc, where, wc, ret))
      case CteUpdate(_, oldWhere, sets, join, _) =>
        if sets == [] || oldWhere == [] || join == [] then Failed
        else
          var oc, sc := cells[..|oldWhere|], cells[|oldWhere|..];
          var prior := Selected(t, oldWhere, oc);
          Answer(db[s.table := UpdatedByJoin(t, sets, sc, prior, join)], JoinedPairs(t, sets, sc, prior, join))
      case SelectOne(_, where) =>
        if where == [] then Failed
        else Answer(db, Ones(Selected(t, where, cells)))
      case Delete(_, where, ret) =>
        if where == [] then Failed
        else
          var gone := Selected(t, where, cells);
          Answer(db[s.table := t - gone], if ret == NewRow then Ones(gone) else {})
  }
}
