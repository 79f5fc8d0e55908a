/** What the text of a table query says: the whole statement is read as SQL, and its answer is what
    the request asks for. */
module QueryText {
  import opened Prelude
  import opened Sqldb
  import opened Text
  import opened Message
  import opened Sql
  import opened SqlCheck
  import opened Codec
  import opened SqlWords
  import opened SqlRead
  import opened QuerySql
  import opened TableQuery
  import opened ConditionText

  // ---------- Reading ----------

  /** A statement as it was read; 0 for a bound that is not there. */
  datatype Statement = Statement(table: string, granted: bool, conds: seq<Expr>, limit: nat, offset: nat)

  datatype Clause = Clause(granted: bool, conds: seq<Expr>)

  /** The conditions between which AND stands. */
  function Parts(e: Expr): seq<Expr> {
    match e
    case And(first, second) => [first] + Parts(second)
    case _ => [e]
  }

  /** What follows the texts with commas between them. */
  function StripList(texts: seq<string>, s: string): Option<string> {
    if texts == [] then None
    else
      match Strip(texts[0], s)
      case None => None
      case Some(t) =>
        if |texts| == 1 then Some(t)
        else
          match Strip(" , ", t)
          case None => None
          case Some(u) => StripList(texts[1..], u)
  }

  /** The table of a SELECT of these columns, or of a star. */
  function ReadHead(columns: seq<string>, s: string): Option<Taken> {
    match Strip(" SELECT ", s)
    case None => None
    case Some(t) =>
      match if columns == [] then Strip(" * ", t) else StripList(columns, t)
      case None => None
      case Some(u) =>
        match Strip(" FROM ", u)
        case None => None
        case Some(v) => TakeName(v)
  }

  /** The permission's own text in parentheses. */
  function StripGrant(granted: string, s: string): Option<string> {
    match Strip(" ( ", s)
    case None => None
    case Some(t) =>
      match Strip(granted, t)
      case None => None
      case Some(u) => Strip(" ) ", u)
  }

  function ReadConds(granted: bool, s: string): Option<Read<Clause>> {
    match ReadExpr(s)
    case None => None
    case Some(e) => Some(Read(Clause(granted, Parts(e.it)), e.rest))
  }

  /** The WHERE clause, with the permission first if there is one. */
  function ReadWhere(granted: string, s: string): Option<Read<Clause>> {
    match Strip(" WHERE ", s)
    case None => Some(Read(Clause(false, []), s))
    case Some(t) =>
      if granted == "" then ReadConds(false, t)
      else
        match StripGrant(granted, t)
        case None => None
        case Some(u) =>
          match Strip(" AND ", u)
          case None => Some(Read(Clause(true, []), u))
          case Some(v) => ReadConds(true, v)
  }

  /** The number behind a word, or 0 without the word. */
  function ReadBound(word: string, s: string): Option<Read<nat>> {
    match Strip(word, s)
    case None => Some(Read(0, s))
    case Some(t) =>
      match TakeName(t)
      case None => None
      case Some(w) => if AllDigits(w.name) then Some(Read(NatValue(w.name), w.rest)) else None
  }

  function ReadBounds(s: string): Option<(nat, nat)> {
    match ReadBound(" LIMIT ", s)
    case None => None
    case Some(limit) =>
      match ReadBound(" OFFSET ", limit.rest)
      case None => None
      case Some(offset) => if offset.rest == "" then Some((limit.it, offset.it)) else None
  }

  /** A statement that selects these columns under this permission. */
  function ReadStatement(columns: seq<string>, granted: string, s: string): Option<Statement> {
    match ReadHead(columns, s)
    case None => None
    case Some(table) =>
      match ReadWhere(granted, table.rest)
      case None => None
      case Some(where) =>
        match ReadBounds(where.rest)
        case None => None
        case Some(bounds) => Some(Statement(table.name, where.it.granted, where.it.conds, bounds.0, bounds.1))
  }

  // ---------- What is read is what was written ----------

  lemma {:induction false} ListRead(texts: seq<string>, rest: string)
    requires texts != []
    ensures StripList(texts, Join(texts, COMMA) + rest) == Some(rest)
    decreases |texts|
  {
    if |texts| == 1 {
      assert texts == [texts[0]];
      JoinOne(texts[0], COMMA);
      StripOf(texts[0], rest);
    } else {
      var more := Join(texts[1..], COMMA) + rest;
      JoinFront(texts, COMMA);
      Regroup3(texts[0], COMMA, Join(texts[1..], COMMA), rest);
      StripOf(texts[0], COMMA + more);
      StripOf(" , ", more);
      ListRead(texts[1..], rest);
    }
  }

  lemma HeadRead(columns: seq<string>, table: string, rest: string)
    requires PlainName(table) && EndsName(rest)
    ensures ReadHead(columns, HeadText(columns, table) + rest) == Some(Taken(table, rest))
  {
    var list := ColumnsText(columns);
    var tail := " FROM " + (table + rest);
    Regroup4(" SELECT ", list, " FROM ", table, rest);
    StripOf(" SELECT ", list + tail);
    if columns == [] {
      StripOf(" * ", tail);
    } else {
      ListRead(columns, tail);
    }
    StripOf(" FROM ", table + rest);
    TakeNameOf(table, rest);
  }

  lemma NumberRead(word: string, n: nat, rest: string)
    requires EndsName(rest)
    ensures ReadBound(word, word + Itoa(n) + rest) == Some(Read(n, rest))
  {
    DigitsPlain(n);
    Split(word + Itoa(n), word, Itoa(n), rest);
    StripOf(word, Itoa(n) + rest);
    TakeNameOf(Itoa(n), rest);
  }

  function AtLeast0(n: int): nat {
    if n > 0 then n else 0
  }

  /** Nothing, or OFFSET. */
  function OffsetText(offset: int): string {
    if offset > 0 then " OFFSET " + Itoa(offset) else ""
  }

  lemma OffsetRead(offset: int)
    ensures ReadBound(" OFFSET ", OffsetText(offset)) == Some(Read(AtLeast0(offset), ""))
    ensures ReadBound(" LIMIT ", OffsetText(offset)) == Some(Read(0, OffsetText(offset)))
    ensures EndsName(OffsetText(offset))
  {
    if offset > 0 {
      NumberRead(" OFFSET ", offset, "");
      assert OffsetText(offset) + "" == OffsetText(offset);
      StripOther(" LIMIT ", " OFFSET ", Itoa(offset), 1);
    }
  }

  lemma BoundsRead(limit: int, offset: int)
    ensures ReadBounds(BoundsText(limit, offset)) == Some((AtLeast0(limit), AtLeast0(offset)))
  {
    OffsetRead(offset);
    if limit > 0 {
      NumberRead(" LIMIT ", limit, OffsetText(offset));
    } else {
      assert BoundsText(limit, offset) == OffsetText(offset);
    }
  }

  /** The bounds are no part of the conditions in front of them. */
  lemma BoundsEnd(limit: int, offset: int)
    ensures EndsExpr(BoundsText(limit, offset)) && EndsName(BoundsText(limit, offset))
    ensures Strip(" WHERE ", BoundsText(limit, offset)) == None
  {
    if limit > 0 {
      var more := Itoa(limit) + OffsetText(offset);
      Split(" LIMIT " + Itoa(limit), " LIMIT ", Itoa(limit), OffsetText(offset));
      assert BoundsText(limit, offset) == " LIMIT " + more;
      StripOther(" AND ", " LIMIT ", more, 1);
      StripOther(" WHERE ", " LIMIT ", more, 1);
    } else if offset > 0 {
      OffsetEnd(offset);
      assert BoundsText(limit, offset) == OffsetText(offset);
    }
  }

  lemma OffsetEnd(offset: int)
    requires offset > 0
    ensures Strip(" AND ", OffsetText(offset)) == None && Strip(" WHERE ", OffsetText(offset)) == None
  {
    StripOther(" AND ", " OFFSET ", Itoa(offset), 1);
    StripOther(" WHERE ", " OFFSET ", Itoa(offset), 1);
  }

  /** The texts are those of these conditions. */
  ghost predicate ReadAll(texts: seq<string>, es: seq<Expr>) {
    |texts| == |es| && forall i :: 0 <= i < |es| ==> ReadsAs(texts[i], es[i])
  }

  lemma {:induction false} OneCondition(text: string, e: Expr, rest: string)
    requires ReadsAs(text, e) && EndsExpr(rest)
    ensures ReadExpr(text + rest) == Some(Read(e, rest)) && Parts(e) == [e]
  {
  }

  lemma {:induction false} MoreConditions(text: string, e: Expr, more: string)
    requires ReadsAs(text, e)
    ensures ReadExpr(text + (" AND " + more))
            == match ReadExpr(more)
               case None => None
               case Some(r) => Some(Read(And(e, r.it), r.rest))
  {
    StripOf(" AND ", more);
    assert EndsTerm(" AND " + more);
    assert ReadOne(text + (" AND " + more)) == Some(Read(e, " AND " + more));
  }

  lemma {:induction false} FrontText(texts: seq<string>, rest: string)
    requires |texts| > 1
    ensures Join(texts, AND) + rest == texts[0] + (" AND " + (Join(texts[1..], AND) + rest))
  {
    JoinFront(texts, AND);
    Regroup3(texts[0], AND, Join(texts[1..], AND), rest);
  }

  lemma ReadAllButFirst(texts: seq<string>, es: seq<Expr>)
    requires ReadAll(texts, es) && es != []
    ensures ReadsAs(texts[0], es[0]) && ReadAll(texts[1..], es[1..])
  {
    forall i | 0 <= i < |es| - 1
      ensures ReadsAs(texts[1..][i], es[1..][i])
    {
      assert ReadsAs(texts[i + 1], es[i + 1]);
    }
  }

  /** The text is read as these conditions, up to the rest. */
  ghost predicate ReadsTo(text: string, es: seq<Expr>, rest: string) {
    var r := ReadExpr(text);
    r.Some? && Parts(r.value.it) == es && r.value.rest == rest
  }

  lemma {:induction false} ReadsToMore(text: string, e: Expr, more: string, es: seq<Expr>, rest: string)
    requires ReadsAs(text, e) && ReadsTo(more, es, rest)
    ensures ReadsTo(text + (" AND " + more), [e] + es, rest)
  {
    MoreConditions(text, e, more);
  }

  lemma {:induction false} ConditionsRead(texts: seq<string>, es: seq<Expr>, rest: string)
    requires ReadAll(texts, es) && es != [] && EndsExpr(rest)
    ensures ReadsTo(Join(texts, AND) + rest, es, rest)
    decreases |es|
  {
    ReadAllButFirst(texts, es);
    if |es| == 1 {
      assert texts == [texts[0]] && es == [es[0]];
      JoinOne(texts[0], AND);
      OneCondition(texts[0], es[0], rest);
    } else {
      ConditionsRead(texts[1..], es[1..], rest);
      FrontText(texts, rest);
      ReadsToMore(texts[0], es[0], Join(texts[1..], AND) + rest, es[1..], rest);
      assert [es[0]] + es[1..] == es;
    }
  }

  function Grants(granted: string, arity: nat): seq<Cond> {
    if granted == "" then [] else [Granted(granted, arity)]
  }

  lemma GrantRead(granted: string, rest: string)
    ensures StripGrant(granted, " ( " + granted + " ) " + rest) == Some(rest)
  {
    Regroup3(" ( ", granted, " ) ", rest);
    StripOf(" ( ", granted + (" ) " + rest));
    StripOf(granted, " ) " + rest);
    StripOf(" ) ", rest);
  }

  /** The text of a WHERE clause in front of other text. */
  function WhereText(conds: seq<Cond>, rest: string): string {
    if conds == [] then rest else WHERE + (CondsText(conds) + rest)
  }

  lemma CondsRead(granted: bool, cs: seq<Cond>, es: seq<Expr>, rest: string)
    requires cs != [] && ReadAll(CondTexts(cs), es) && EndsExpr(rest)
    ensures ReadConds(granted, CondsText(cs) + rest) == Some(Read(Clause(granted, es), rest))
  {
    ConditionsRead(CondTexts(cs), es, rest);
  }

  lemma GrantFront(granted: string, arity: nat, cs: seq<Cond>, rest: string)
    requires granted != ""
    ensures CondsText([Granted(granted, arity)] + cs) + rest
            == " ( " + granted + " ) " + (if cs == [] then rest else " AND " + (CondsText(cs) + rest))
  {
    var conds := [Granted(granted, arity)] + cs;
    var texts := CondTexts(conds);
    assert texts == [" ( " + granted + " ) "] + CondTexts(cs);
    if cs == [] {
      assert texts == [" ( " + granted + " ) "];
      JoinOne(" ( " + granted + " ) ", AND);
    } else {
      JoinFront(texts, AND);
      assert texts[1..] == CondTexts(cs);
      Regroup3(" ( " + granted + " ) ", AND, CondsText(cs), rest);
    }
  }

  lemma {:induction false} PlainWhereRead(cs: seq<Cond>, es: seq<Expr>, rest: string)
    requires ReadAll(CondTexts(cs), es) && EndsExpr(rest) && Strip(" WHERE ", rest) == None
    ensures ReadWhere("", WhereText(cs, rest)) == Some(Read(Clause(false, es), rest))
  {
    if cs != [] {
      StripOf(" WHERE ", CondsText(cs) + rest);
      CondsRead(false, cs, es, rest);
    }
  }

  lemma GrantedWhereRead(granted: string, arity: nat, cs: seq<Cond>, es: seq<Expr>, rest: string)
    requires granted != "" && ReadAll(CondTexts(cs), es) && EndsExpr(rest)
    ensures ReadWhere(granted, WhereText([Granted(granted, arity)] + cs, rest)) == Some(Read(Clause(true, es), rest))
  {
    var conds := [Granted(granted, arity)] + cs;
    StripOf(" WHERE ", CondsText(conds) + rest);
    GrantFront(granted, arity, cs, rest);
    if cs == [] {
      GrantRead(granted, rest);
    } else {
      GrantRead(granted, " AND " + (CondsText(cs) + rest));
      StripOf(" AND ", CondsText(cs) + rest);
      CondsRead(true, cs, es, rest);
    }
  }

  lemma {:induction false} WhereRead(granted: string, arity: nat, cs: seq<Cond>, es: seq<Expr>, rest: string)
    requires ReadAll(CondTexts(cs), es) && EndsExpr(rest) && Strip(" WHERE ", rest) == None
    ensures ReadWhere(granted, WhereText(Grants(granted, arity) + cs, rest))
         == Some(Read(Clause(granted != "", es), rest))
  {
    if granted == "" {
      assert Grants(granted, arity) + cs == cs;
      PlainWhereRead(cs, es, rest);
    } else {
      GrantedWhereRead(granted, arity, cs, es, rest);
    }
  }

  lemma RenderSplit(q: Query)
    ensures RenderQuery(q)
         == HeadText(q.columns, q.table) + WhereText(q.conds, BoundsText(q.limit, q.offset))
  {
    if q.conds != [] {
      Regroup3(HeadText(q.columns, q.table), WHERE, CondsText(q.conds), BoundsText(q.limit, q.offset));
      Split(HeadText(q.columns, q.table) + (WHERE + CondsText(q.conds)), HeadText(q.columns, q.table),
            WHERE + CondsText(q.conds), BoundsText(q.limit, q.offset));
      Split(WHERE + CondsText(q.conds), WHERE, CondsText(q.conds), BoundsText(q.limit, q.offset));
    }
  }

  /** The text of a query is read as its table, its conditions one by one, and its bounds. */
  lemma StatementRead(q: Query, granted: string, arity: nat, cs: seq<Cond>, es: seq<Expr>)
    requires PlainName(q.table) && q.conds == Grants(granted, arity) + cs && ReadAll(CondTexts(cs), es)
    ensures ReadStatement(q.columns, granted, RenderQuery(q))
         == Some(Statement(q.table, granted != "", es, AtLeast0(q.limit), AtLeast0(q.offset)))
  {
    var bounds := BoundsText(q.limit, q.offset);
    RenderSplit(q);
    BoundsEnd(q.limit, q.offset);
    HeadRead(q.columns, q.table, WhereText(q.conds, bounds));
    WhereRead(granted, arity, cs, es, bounds);
    BoundsRead(q.limit, q.offset);
  }

  // ---------- Names ----------

  lemma IdentifierChars(s: string, u: Unicode)
    requires Identifier(s, u) && s != "*"
    ensures PlainName(s)
  {
    forall i | 0 <= i < |s|
      ensures NameChar(s[i])
    {
      assert IdentLetter(s[i], u) || IdentDigit(s[i], u);
    }
  }

  lemma SegmentPlain(name: string, u: Unicode)
    requires Segment(name, u)
    ensures PlainName(name)
  {
    assert Trim("*") == "*";
    IdentifierChars(name, u);
  }

  lemma TablePlain(req: Request, msgName: string, fields: seq<FieldDesc>, u: Unicode, d: Dialect)
    requires ValidRequest(req, msgName, fields, u)
    ensures PlainName(BuildDbTableName(req.tableName, req.schemeName, d))
  {
    SegmentPlain(req.tableName, u);
    if req.schemeName != "" {
      SegmentPlain(req.schemeName, u);
    }
  }

  /** No field of the request has the name of a word that starts a condition. */
  predicate NoReserved(req: Request) {
    forall n :: n in req.where || n in req.where2 ==> n !in RESERVED
  }

  // ---------- Meaning ----------

  /** The expression is what the text of a condition on a column is read as, and says the same. */
  ghost predicate IsRead(e: Expr, c: Cond)
    requires c.OnColumn?
  {
    && ReadsAs(CondText(c), e) && HolesIn(e) == [c.hole] && SaysShape(e, c.shape, c.col)
    && (Understood(e) <==> !RefusedOn(c.shape, c.col))
  }

  ghost predicate PlainCond(c: Cond) {
    c.OnColumn? && Proper(c.shape) && PlainColumn(c.col)
  }

  ghost predicate AreRead(es: seq<Expr>, cs: seq<Cond>) {
    |es| == |cs| && forall i :: 0 <= i < |cs| ==> cs[i].OnColumn? && IsRead(es[i], cs[i])
  }

  lemma OneMoreRead(es: seq<Expr>, cs: seq<Cond>, e: Expr, c: Cond)
    requires AreRead(es, cs) && c.OnColumn? && IsRead(e, c)
    ensures AreRead(es + [e], cs + [c])
  {
    forall i | 0 <= i < |cs| + 1
      ensures (cs + [c])[i].OnColumn? && IsRead((es + [e])[i], (cs + [c])[i])
    {
      if i < |cs| {
        assert cs[i].OnColumn? && IsRead(es[i], cs[i]);
      }
    }
  }

  lemma {:induction false} OneByOne(cs: seq<Cond>) returns (es: seq<Expr>)
    requires forall i :: 0 <= i < |cs| ==> PlainCond(cs[i])
    ensures AreRead(es, cs)
    decreases |cs|
  {
    es := [];
    if cs != [] {
      var front, c := cs[..|cs| - 1], cs[|cs| - 1];
      es := OneByOne(front);
      assert PlainCond(c);
      var e := ConditionTextMeans(c.shape, c.col, c.hole);
      OneMoreRead(es, front, e, c);
      es := es + [e];
      assert front + [c] == cs;
    }
  }

  /** One argument for each placeholder of the text, behind the k of the permission. */
  ghost predicate TextBinds(st: Statement, k: nat, args: seq<GoVal>) {
    && |args| == k + |st.conds|
    && forall i :: 0 <= i < |st.conds| ==>
        |HolesIn(st.conds[i])| == 1
        && (HolesIn(st.conds[i])[0].Numbered? ==> 1 <= HolesIn(st.conds[i])[0].n <= |args|)
  }

  /** A question mark takes the argument at its position, a numbered placeholder the one of its number. */
  function TextArg(st: Statement, k: nat, args: seq<GoVal>, i: nat): GoVal
    requires i < |st.conds| && TextBinds(st, k, args)
  {
    var h := HolesIn(st.conds[i])[0];
    if h.Mark? then args[k + i] else args[h.n - 1]
  }

  /** A row satisfies the statement that was read. */
  ghost predicate TextSatisfies(sv: DbServer, rt: Runtime, st: Statement, p: Permission, args: seq<GoVal>, r: Row) {
    var k := |GrantArgs(p)|;
    && TextBinds(st, k, args)
    && (st.granted ==> sv.allows(p.text, r, args[..k]))
    && forall i :: 0 <= i < |st.conds| ==> Truth(sv, rt, st.conds[i], Scope(r, TextArg(st, k, args, i), map[]))
  }

  /** The rows a server may answer the text with. SQLite refuses a json_each of a column of its own;
      MySQL and SQLite have no OFFSET without LIMIT. */
  ghost predicate TextAnswer(sv: DbServer, rt: Runtime, st: Statement, d: Dialect, p: Permission, args: seq<GoVal>,
                             t: Table, rows: seq<Row>)
  {
    && TextBinds(st, |GrantArgs(p)|, args)
    && (forall i :: 0 <= i < |st.conds| ==> Understood(st.conds[i]))
    && (st.offset > 0 && st.limit == 0 ==> d != Mysql && d != SQLite)
    && Lists(rows, (set r | r in t && TextSatisfies(sv, rt, st, p, args, r)), st.limit, st.offset)
  }
}
