/** The text of an update, a select by key, a delete or an insert, taken apart again by SQL's words:
    it is read as the statement that was meant. */
module StatementText {
  import opened Prelude
  import opened Sqldb
  import opened Text
  import opened Sql
  import opened SqlBuilder
  import opened UpdateBuilder
  import opened InsertBuilder
  import opened SqlWords
  import opened SqlRead

  // ---------- Reading ----------

  function ReadAssign(s: string): (r: Option<Read<Assign>>)
    ensures r.Some? ==> |r.value.rest| < |s|
  {
    match TakeName(s)
    case None => None
    case Some(col) =>
      match Strip(" = ", col.rest)
      case None => None
      case Some(t) =>
        match ReadHole(t)
        case None => None
        case Some(h) => Some(Read(Assign(col.name, h.it), h.rest))
  }

  /** Columns with their placeholders, and this text between them. */
  function ReadAssigns(sep: string, s: string): (r: Option<Read<seq<Assign>>>)
    ensures r.Some? ==> |r.value.rest| < |s|
    decreases |s|
  {
    match ReadAssign(s)
    case None => None
    case Some(a) =>
      match Strip(sep, a.rest)
      case None => Some(Read([a.it], a.rest))
      case Some(t) =>
        match ReadAssigns(sep, t)
        case None => None
        case Some(more) => Some(Read([a.it] + more.it, more.rest))
  }

  function ReadReturning(s: string): Option<Returning> {
    if s == " ; " then Some(NoRows)
    else if s == " RETURNING *  ; " then Some(NewRow)
    else if s == " RETURNING OLD.*,NEW.* ;" then Some(OldAndNew)
    else None
  }

  /** A table and the conditions of its WHERE clause. */
  datatype Keyed = Keyed(table: string, where: seq<Assign>)

  function ReadKeyed(s: string): Option<Read<Keyed>> {
    match TakeName(s)
    case None => None
    case Some(t) =>
      match Strip(" WHERE ", t.rest)
      case None => None
      case Some(u) =>
        match ReadAssigns(" AND ", u)
        case None => None
        case Some(where) => Some(Read(Keyed(t.name, where.it), where.rest))
  }

  function ReadUpdate(s: string): Option<Stmt> {
    match TakeName(s)
    case None => None
    case Some(t) =>
      match Strip(" SET ", t.rest)
      case None => None
      case Some(u) =>
        match ReadAssigns(" , ", u)
        case None => None
        case Some(sets) =>
          match Strip(" WHERE ", sets.rest)
          case None => None
          case Some(v) => ReadUpdateWhere(t.name, sets.it, v)
  }

  function ReadUpdateWhere(table: string, sets: seq<Assign>, s: string): Option<Stmt> {
    match ReadAssigns(" AND ", s)
    case None => None
    case Some(where) =>
      match ReadReturning(where.rest)
      case None => None
      case Some(ret) => Some(Update(table, sets, where.it, ret))
  }

  function ReadSelect(s: string): Option<Stmt> {
    match ReadKeyed(s)
    case None => None
    case Some(k) => if k.rest == " LIMIT  1 " then Some(SelectOne(k.it.table, k.it.where)) else None
  }

  function ReadDelete(s: string): Option<Stmt> {
    match ReadKeyed(s)
    case None => None
    case Some(k) =>
      match ReadReturning(k.rest)
      case None => None
      case Some(ret) => Some(Delete(k.it.table, k.it.where, ret))
  }

  /** A column of the new row that equals the same column of the old one. */
  function ReadSameColumn(equal: string, s: string): (r: Option<Taken>)
    ensures r.Some? ==> |r.value.rest| < |s|
  {
    match Strip(" new.", s)
    case None => None
    case Some(t) =>
      match TakeName(t)
      case None => None
      case Some(c) =>
        match Strip(equal, c.rest)
        case None => None
        case Some(u) =>
          match TakeName(u)
          case None => None
          case Some(o) => if o.name == c.name then Some(o) else None
  }

  function ReadJoin(equal: string, s: string): (r: Option<Read<seq<string>>>)
    ensures r.Some? ==> |r.value.rest| < |s|
    decreases |s|
  {
    match ReadSameColumn(equal, s)
    case None => None
    case Some(c) =>
      match Strip(" AND ", c.rest)
      case None => Some(Read([c.name], c.rest))
      case Some(t) =>
        match ReadJoin(equal, t)
        case None => None
        case Some(more) => Some(Read([c.name] + more.it, more.rest))
  }

  /** The words around the parts of an update through a prior selection, in either spelling. */
  function UpdateWord(partialText: bool): string {
    if partialText then " )  UPDATE " else " ) UPDATE "
  }

  function NewSetWord(partialText: bool): string {
    if partialText then " new  SET " else " new set "
  }

  function FromOldWord(partialText: bool): string {
    if partialText then " FROM  old  WHERE " else " from old where "
  }

  function EqualWord(partialText: bool): string {
    if partialText then " = old." else "=old."
  }

  /** The updated table is the selected one. */
  function ReadCteSets(prior: Keyed, partialText: bool, s: string): Option<Stmt> {
    match TakeName(s)
    case None => None
    case Some(t) =>
      match Strip(NewSetWord(partialText), t.rest)
      case None => None
      case Some(u) =>
        match ReadAssigns(" , ", u)
        case None => None
        case Some(sets) => if t.name == prior.table then ReadCteJoin(prior, partialText, sets.it, sets.rest) else None
  }

  function ReadCteJoin(prior: Keyed, partialText: bool, sets: seq<Assign>, s: string): Option<Stmt> {
    match Strip(FromOldWord(partialText), s)
    case None => None
    case Some(t) =>
      match ReadJoin(EqualWord(partialText), t)
      case None => None
      case Some(join) =>
        if join.rest == " RETURNING old.*,new.* ;" then
          Some(CteUpdate(prior.table, prior.where, sets, join.it, partialText))
        else None
  }

  function ReadCte(s: string): Option<Stmt> {
    match ReadKeyed(s)
    case None => None
    case Some(k) =>
      match Strip(UpdateWord(true), k.rest)
      case Some(t) => ReadCteSets(k.it, true, t)
      case None =>
        match Strip(UpdateWord(false), k.rest)
        case None => None
        case Some(t) => ReadCteSets(k.it, false, t)
  }

  /** The statement of a text. */
  function ReadStmt(s: string): Option<Stmt> {
    match Strip(" UPDATE ", s)
    case Some(t) => ReadUpdate(t)
    case None =>
      match Strip(" SELECT  *  FROM ", s)
      case Some(t) => ReadSelect(t)
      case None =>
        match Strip("DELETE FROM ", s)
        case Some(t) => ReadDelete(t)
        case None =>
          match Strip("with old as (select * from ", s)
          case Some(t) => ReadCte(t)
          case None => None
  }

  // ---------- What is read is what was written ----------

  predicate PlainAssigns(xs: seq<Assign>) {
    xs != [] && forall i :: 0 <= i < |xs| ==> PlainName(xs[i].col)
  }

  predicate PlainJoin(cols: seq<string>) {
    cols != [] && forall i :: 0 <= i < |cols| ==> PlainName(cols[i])
  }

  /** No list is empty, and no name needs quotes. */
  predicate PlainStmt(s: Stmt) {
    && PlainName(s.table)
    && match s
       case Update(_, sets, where, _) => PlainAssigns(sets) && PlainAssigns(where)
       case CteUpdate(_, oldWhere, sets, join, _) => PlainAssigns(oldWhere) && PlainAssigns(sets) && PlainJoin(join)
       case SelectOne(_, where) => PlainAssigns(where)
       case Delete(_, where, _) => PlainAssigns(where)
  }

  lemma AssignRead(a: Assign, rest: string)
    requires PlainName(a.col) && EndsName(rest)
    ensures ReadAssign(AssignText(a) + rest) == Some(Read(a, rest))
  {
    Regroup3(a.col, EQUAL, HoleText(a.hole), rest);
    TakeNameOf(a.col, EQUAL + (HoleText(a.hole) + rest));
    StripOf(" = ", HoleText(a.hole) + rest);
    HoleRead(a.hole, rest);
  }

  function AssignTexts(xs: seq<Assign>): seq<string> {
    Map(AssignText, xs)
  }

  lemma {:induction false} AssignsJoined(xs: seq<Assign>, sep: string)
    ensures AssignsText(xs, sep) == Join(AssignTexts(xs), sep)
  {
    if xs != [] {
      var n := |xs| - 1;
      AssignsJoined(xs[..n], sep);
      MapSplit(AssignText, xs[..n], [xs[n]]);
      assert xs[..n] + [xs[n]] == xs && AssignTexts([xs[n]]) == [AssignText(xs[n])];
      JoinSnoc(AssignTexts(xs[..n]), AssignText(xs[n]), sep);
    }
  }

  lemma {:induction false} AssignsFront(xs: seq<Assign>, sep: string, rest: string)
    requires |xs| > 1
    ensures AssignsText(xs, sep) + rest == AssignText(xs[0]) + (sep + (AssignsText(xs[1..], sep) + rest))
  {
    AssignsJoined(xs, sep);
    AssignsJoined(xs[1..], sep);
    JoinFront(AssignTexts(xs), sep);
    assert AssignTexts(xs)[1..] == AssignTexts(xs[1..]);
    Regroup3(AssignText(xs[0]), sep, AssignsText(xs[1..], sep), rest);
  }

  lemma {:induction false} OneAssignText(a: Assign, sep: string)
    ensures AssignsText([a], sep) == AssignText(a)
  {
    assert [a][..0] == [];
  }

  lemma {:induction false} AssignsMore(a: Assign, sep: string, more: string)
    requires PlainName(a.col) && sep != "" && sep[0] == ' '
    ensures ReadAssigns(sep, AssignText(a) + (sep + more))
            == match ReadAssigns(sep, more)
               case None => None
               case Some(r) => Some(Read([a] + r.it, r.rest))
  {
    AssignRead(a, sep + more);
    StripOf(sep, more);
  }

  lemma {:induction false} AssignsRead(xs: seq<Assign>, sep: string, rest: string)
    requires PlainAssigns(xs) && sep != "" && sep[0] == ' ' && EndsName(rest) && Strip(sep, rest) == None
    ensures ReadAssigns(sep, AssignsText(xs, sep) + rest) == Some(Read(xs, rest))
    decreases |xs|
  {
    if |xs| == 1 {
      assert xs == [xs[0]];
      OneAssignText(xs[0], sep);
      AssignRead(xs[0], rest);
    } else {
      AssignsFront(xs, sep, rest);
      AssignsRead(xs[1..], sep, rest);
      AssignsMore(xs[0], sep, AssignsText(xs[1..], sep) + rest);
      assert [xs[0]] + xs[1..] == xs;
    }
  }

  lemma ReturningRead(ret: Returning)
    ensures ReadReturning(ReturningText(ret)) == Some(ret)
    ensures EndsName(ReturningText(ret)) && Strip(" AND ", ReturningText(ret)) == None
  {
    assert ReturningText(NewRow) == " RETURNING *  ; ";
    StripOther(" AND ", ReturningText(ret), "", 1);
    assert ReturningText(ret) + "" == ReturningText(ret);
  }

  lemma {:induction false} KeyedRead(table: string, where: seq<Assign>, rest: string)
    requires PlainName(table) && PlainAssigns(where) && EndsName(rest) && Strip(" AND ", rest) == None
    ensures ReadKeyed(table + (WHERE + (AssignsText(where, AND) + rest))) == Some(Read(Keyed(table, where), rest))
  {
    TakeNameOf(table, WHERE + (AssignsText(where, AND) + rest));
    StripOf(" WHERE ", AssignsText(where, AND) + rest);
    AssignsRead(where, AND, rest);
  }

  lemma {:induction false} UpdateWhereRead(table: string, sets: seq<Assign>, where: seq<Assign>, ret: Returning)
    requires PlainAssigns(where)
    ensures ReadUpdateWhere(table, sets, AssignsText(where, AND) + ReturningText(ret))
         == Some(Update(table, sets, where, ret))
  {
    ReturningRead(ret);
    AssignsRead(where, AND, ReturningText(ret));
  }

  lemma {:induction false} UpdateRead(table: string, sets: seq<Assign>, where: seq<Assign>, ret: Returning)
    requires PlainStmt(Update(table, sets, where, ret))
    ensures ReadUpdate(table + (SET + (AssignsText(sets, COMMA) + (WHERE + (AssignsText(where, AND)
                  + ReturningText(ret))))))
         == Some(Update(table, sets, where, ret))
  {
    var tail := AssignsText(where, AND) + ReturningText(ret);
    TakeNameOf(table, SET + (AssignsText(sets, COMMA) + (WHERE + tail)));
    StripOf(" SET ", AssignsText(sets, COMMA) + (WHERE + tail));
    StripOther(COMMA, WHERE, tail, 1);
    AssignsRead(sets, COMMA, WHERE + tail);
    StripOf(" WHERE ", tail);
    UpdateWhereRead(table, sets, where, ret);
  }

  lemma {:induction false} SelectRead(table: string, where: seq<Assign>)
    requires PlainStmt(SelectOne(table, where))
    ensures ReadSelect(table + (WHERE + (AssignsText(where, AND) + " LIMIT  1 "))) == Some(SelectOne(table, where))
  {
    StripOther(" AND ", " LIMIT  1 ", "", 1);
    assert " LIMIT  1 " + "" == " LIMIT  1 ";
    KeyedRead(table, where, " LIMIT  1 ");
  }

  lemma {:induction false} DeleteRead(table: string, where: seq<Assign>, ret: Returning)
    requires PlainStmt(Delete(table, where, ret))
    ensures ReadDelete(table + (WHERE + (AssignsText(where, AND) + ReturningText(ret))))
         == Some(Delete(table, where, ret))
  {
    ReturningRead(ret);
    KeyedRead(table, where, ReturningText(ret));
  }

  /** The text of one column of a join. */
  function SameText(c: string, partialText: bool): string {
    " new." + c + EqualWord(partialText) + c
  }

  function SameTexts(cols: seq<string>, partialText: bool): (r: seq<string>)
    ensures |r| == |cols| && forall i :: 0 <= i < |r| ==> r[i] == SameText(cols[i], partialText)
  {
    seq(|cols|, i requires 0 <= i < |cols| => SameText(cols[i], partialText))
  }

  lemma JoinStep(front: string, sep: string, c: string, equal: string)
    ensures front + sep + " new." + c + equal + c == front + sep + (" new." + c + equal + c)
  {
    Regroup3(" new.", c, equal, c);
    Regroup3(front + sep + " new.", c, equal, c);
    Split(front + sep + " new.", front + sep, " new.", c + (equal + c));
  }

  lemma {:induction false} JoinJoined(cols: seq<string>, partialText: bool)
    ensures JoinText(cols, partialText) == Join(SameTexts(cols, partialText), AND)
  {
    if cols != [] {
      var n := |cols| - 1;
      JoinJoined(cols[..n], partialText);
      assert SameTexts(cols, partialText) == SameTexts(cols[..n], partialText) + [SameText(cols[n], partialText)];
      JoinSnoc(SameTexts(cols[..n], partialText), SameText(cols[n], partialText), AND);
      assert EqualWord(true) == EQUAL + "old.";
      JoinStep(JoinText(cols[..n], partialText), if n > 0 then AND else "", cols[n], EqualWord(partialText));
    }
  }

  lemma SameColumnRead(c: string, partialText: bool, rest: string)
    requires PlainName(c) && EndsName(rest)
    ensures ReadSameColumn(EqualWord(partialText), SameText(c, partialText) + rest) == Some(Taken(c, rest))
  {
    var equal := EqualWord(partialText);
    Regroup4(" new.", c, equal, c, rest);
    StripOf(" new.", c + (equal + (c + rest)));
    TakeNameOf(c, equal + (c + rest));
    StripOf(equal, c + rest);
    TakeNameOf(c, rest);
  }

  lemma {:induction false} JoinMore(c: string, partialText: bool, more: string)
    requires PlainName(c)
    ensures ReadJoin(EqualWord(partialText), SameText(c, partialText) + (AND + more))
            == match ReadJoin(EqualWord(partialText), more)
               case None => None
               case Some(r) => Some(Read([c] + r.it, r.rest))
  {
    SameColumnRead(c, partialText, AND + more);
    StripOf(" AND ", more);
  }

  lemma {:induction false} JoinTextFront(cols: seq<string>, partialText: bool, rest: string)
    requires |cols| > 1
    ensures JoinText(cols, partialText) + rest
            == SameText(cols[0], partialText) + (AND + (JoinText(cols[1..], partialText) + rest))
  {
    JoinJoined(cols, partialText);
    JoinJoined(cols[1..], partialText);
    JoinFront(SameTexts(cols, partialText), AND);
    assert SameTexts(cols, partialText)[1..] == SameTexts(cols[1..], partialText);
    Regroup3(SameText(cols[0], partialText), AND, JoinText(cols[1..], partialText), rest);
  }

  lemma {:induction false} OneJoinText(c: string, partialText: bool)
    ensures JoinText([c], partialText) == SameText(c, partialText)
  {
    JoinJoined([c], partialText);
    assert SameTexts([c], partialText) == [SameText(c, partialText)];
  }

  lemma {:induction false} JoinRead(cols: seq<string>, partialText: bool, rest: string)
    requires PlainJoin(cols) && EndsName(rest) && Strip(" AND ", rest) == None
    ensures ReadJoin(EqualWord(partialText), JoinText(cols, partialText) + rest) == Some(Read(cols, rest))
    decreases |cols|
  {
    if |cols| == 1 {
      assert cols == [cols[0]];
      OneJoinText(cols[0], partialText);
      SameColumnRead(cols[0], partialText, rest);
    } else {
      JoinTextFront(cols, partialText, rest);
      JoinRead(cols[1..], partialText, rest);
      JoinMore(cols[0], partialText, JoinText(cols[1..], partialText) + rest);
      assert [cols[0]] + cols[1..] == cols;
    }
  }

  const CTE_END := " RETURNING old.*,new.* ;"

  lemma {:induction false} CteJoinRead(prior: Keyed, partialText: bool, sets: seq<Assign>, join: seq<string>)
    requires PlainJoin(join)
    ensures ReadCteJoin(prior, partialText, sets, FromOldWord(partialText) + (JoinText(join, partialText) + CTE_END))
         == Some(CteUpdate(prior.table, prior.where, sets, join, partialText))
  {
    StripOf(FromOldWord(partialText), JoinText(join, partialText) + CTE_END);
    StripOther(" AND ", CTE_END, "", 1);
    assert CTE_END + "" == CTE_END;
    JoinRead(join, partialText, CTE_END);
  }

  lemma {:induction false} FromOldEnds(partialText: bool, rest: string)
    ensures EndsName(FromOldWord(partialText) + rest) && Strip(COMMA, FromOldWord(partialText) + rest) == None
  {
    StripOther(COMMA, FromOldWord(partialText), rest, 1);
  }

  lemma {:induction false} CteSetsRead(prior: Keyed, partialText: bool, sets: seq<Assign>, join: seq<string>)
    requires PlainName(prior.table) && PlainAssigns(sets) && PlainJoin(join)
    ensures ReadCteSets(prior, partialText, prior.table + (NewSetWord(partialText) + (AssignsText(sets, COMMA)
                + (FromOldWord(partialText) + (JoinText(join, partialText) + CTE_END)))))
         == Some(CteUpdate(prior.table, prior.where, sets, join, partialText))
  {
    var tail := FromOldWord(partialText) + (JoinText(join, partialText) + CTE_END);
    TakeNameOf(prior.table, NewSetWord(partialText) + (AssignsText(sets, COMMA) + tail));
    StripOf(NewSetWord(partialText), AssignsText(sets, COMMA) + tail);
    FromOldEnds(partialText, JoinText(join, partialText) + CTE_END);
    AssignsRead(sets, COMMA, tail);
    CteJoinRead(prior, partialText, sets, join);
  }

  lemma {:induction false} UpdateWordRead(partialText: bool, x: string)
    ensures Strip(UpdateWord(partialText), UpdateWord(partialText) + x) == Some(x)
    ensures !partialText ==> Strip(UpdateWord(true), UpdateWord(partialText) + x) == None
    ensures Strip(" AND ", UpdateWord(partialText) + x) == None && EndsName(UpdateWord(partialText) + x)
  {
    StripOf(UpdateWord(partialText), x);
    StripOther(" AND ", UpdateWord(partialText), x, 1);
    if !partialText {
      StripOther(UpdateWord(true), UpdateWord(false), x, 3);
    }
  }

  lemma {:induction false} CteRead(table: string, oldWhere: seq<Assign>, sets: seq<Assign>, join: seq<string>,
                                   partialText: bool)
    requires PlainStmt(CteUpdate(table, oldWhere, sets, join, partialText))
    ensures ReadCte(table + (WHERE + (AssignsText(oldWhere, AND) + (UpdateWord(partialText) + (table
                + (NewSetWord(partialText) + (AssignsText(sets, COMMA)
                + (FromOldWord(partialText) + (JoinText(join, partialText) + CTE_END)))))))))
         == Some(CteUpdate(table, oldWhere, sets, join, partialText))
  {
    var tail := table + (NewSetWord(partialText) + (AssignsText(sets, COMMA)
                + (FromOldWord(partialText) + (JoinText(join, partialText) + CTE_END))));
    UpdateWordRead(partialText, tail);
    KeyedRead(table, oldWhere, UpdateWord(partialText) + tail);
    CteSetsRead(Keyed(table, oldWhere), partialText, sets, join);
  }

  // ---------- The whole text ----------

  lemma {:induction false} UpdateText(table: string, sets: seq<Assign>, where: seq<Assign>, ret: Returning)
    ensures Render(Update(table, sets, where, ret))
         == " UPDATE " + (table + (SET + (AssignsText(sets, COMMA) + (WHERE + (AssignsText(where, AND)
            + ReturningText(ret))))))
  {
    Regroup5(UPDATE + table, SET, AssignsText(sets, COMMA), WHERE, AssignsText(where, AND), ReturningText(ret));
    Split(UPDATE + table, UPDATE, table, SET + (AssignsText(sets, COMMA) + (WHERE + (AssignsText(where, AND)
            + ReturningText(ret)))));
  }

  lemma {:induction false} SelectText(table: string, where: seq<Assign>)
    ensures Render(SelectOne(table, where))
         == " SELECT  *  FROM " + (table + (WHERE + (AssignsText(where, AND) + " LIMIT  1 ")))
  {
    assert " SELECT " + " * " + " FROM " == " SELECT  *  FROM ";
    assert " LIMIT " + " 1 " == " LIMIT  1 ";
    Regroup4(" SELECT  *  FROM ", table, WHERE, AssignsText(where, AND), " LIMIT  1 ");
    Split(" SELECT  *  FROM " + table + WHERE + AssignsText(where, AND) + " LIMIT ",
          " SELECT  *  FROM " + table + WHERE + AssignsText(where, AND), " LIMIT ", " 1 ");
  }

  lemma {:induction false} DeleteText(table: string, where: seq<Assign>, ret: Returning)
    ensures Render(Delete(table, where, ret))
         == "DELETE FROM " + (table + (WHERE + (AssignsText(where, AND) + ReturningText(ret))))
  {
    Regroup4("DELETE FROM ", table, WHERE, AssignsText(where, AND), ReturningText(ret));
  }

  /** The words in front of the assignments. */
  function NewTableText(table: string, partialText: bool): string {
    if partialText then " ) " + UPDATE + table + " new " + SET else " ) UPDATE " + table + " new set "
  }

  lemma NewTableWords(table: string, partialText: bool, x: string)
    ensures NewTableText(table, partialText) + x
         == UpdateWord(partialText) + (table + (NewSetWord(partialText) + x))
  {
    if partialText {
      assert " ) " + UPDATE == " )  UPDATE " && " new " + SET == " new  SET ";
      Regroup4(" )  UPDATE ", table, " new ", SET, x);
      Split(" new  SET ", " new ", SET, x);
    } else {
      Regroup3(" ) UPDATE ", table, " new set ", x);
    }
  }

  lemma {:induction false} CteParts(table: string, oldWhere: seq<Assign>, sets: seq<Assign>, join: seq<string>,
                                    partialText: bool)
    ensures Render(CteUpdate(table, oldWhere, sets, join, partialText))
         == "with old as (select * from " + table + WHERE + AssignsText(oldWhere, AND)
           + NewTableText(table, partialText)
            + AssignsText(sets, COMMA) + FromOldWord(partialText) + JoinText(join, partialText) + CTE_END
  {
    assert " FROM " + " old " + WHERE == " FROM  old  WHERE ";
  }

  lemma {:induction false} CteText(table: string, oldWhere: seq<Assign>, sets: seq<Assign>, join: seq<string>,
                                   partialText: bool)
    ensures Render(CteUpdate(table, oldWhere, sets, join, partialText))
         == "with old as (select * from "
           + (table + (WHERE + (AssignsText(oldWhere, AND) + (UpdateWord(partialText) + (table
            + (NewSetWord(partialText) + (AssignsText(sets, COMMA)
            + (FromOldWord(partialText) + (JoinText(join, partialText) + CTE_END)))))))))
  {
    var head := "with old as (select * from " + table + WHERE + AssignsText(oldWhere, AND);
    var middle := NewTableText(table, partialText);
    var last := JoinText(join, partialText) + CTE_END;
    var tail := AssignsText(sets, COMMA) + (FromOldWord(partialText) + last);
    CteParts(table, oldWhere, sets, join, partialText);
    Regroup4(head + middle, AssignsText(sets, COMMA), FromOldWord(partialText), JoinText(join, partialText), CTE_END);
    Split(head + middle, head, middle, tail);
    NewTableWords(table, partialText, tail);
    Regroup4("with old as (select * from ", table, WHERE, AssignsText(oldWhere, AND), middle + tail);
  }

  /** The text of a statement is read as the statement. */
  lemma {:induction false} ReadRender(s: Stmt)
    requires PlainStmt(s)
    ensures ReadStmt(Render(s)) == Some(s)
  {
    match s
    case Update(t, sets, where, ret) =>
      var x := t + (SET + (AssignsText(sets, COMMA) + (WHERE + (AssignsText(where, AND) + ReturningText(ret)))));
      UpdateText(t, sets, where, ret);
      StripOf(" UPDATE ", x);
      UpdateRead(t, sets, where, ret);
    case SelectOne(t, where) =>
      var x := t + (WHERE + (AssignsText(where, AND) + " LIMIT  1 "));
      SelectText(t, where);
      StripOther(" UPDATE ", " SELECT  *  FROM ", x, 1);
      StripOf(" SELECT  *  FROM ", x);
      SelectRead(t, where);
    case Delete(t, where, ret) =>
      var x := t + (WHERE + (AssignsText(where, AND) + ReturningText(ret)));
      DeleteText(t, where, ret);
      StripOther(" UPDATE ", "DELETE FROM ", x, 0);
      StripOther(" SELECT  *  FROM ", "DELETE FROM ", x, 0);
      StripOf("DELETE FROM ", x);
      DeleteRead(t, where, ret);
    case CteUpdate(t, oldWhere, sets, join, partialText) =>
      var x := t + (WHERE + (AssignsText(oldWhere, AND) + (UpdateWord(partialText) + (t
            + (NewSetWord(partialText) + (AssignsText(sets, COMMA)
            + (FromOldWord(partialText) + (JoinText(join, partialText) + CTE_END))))))));
      CteText(t, oldWhere, sets, join, partialText);
      StripOther(" UPDATE ", "with old as (select * from ", x, 0);
      StripOther(" SELECT  *  FROM ", "with old as (select * from ", x, 0);
      StripOther("DELETE FROM ", "with old as (select * from ", x, 0);
      StripOf("with old as (select * from ", x);
      CteRead(t, oldWhere, sets, join, partialText);
  }

  // ---------- Inserts ----------

  /** Names with commas between them. */
  function ReadNames(s: string): (r: Option<Read<seq<string>>>)
    ensures r.Some? ==> |r.value.rest| < |s|
    decreases |s|
  {
    match TakeName(s)
    case None => None
    case Some(n) =>
      match Strip(" , ", n.rest)
      case None => Some(Read([n.name], n.rest))
      case Some(t) =>
        match ReadNames(t)
        case None => None
        case Some(more) => Some(Read([n.name] + more.it, more.rest))
  }

  function ReadHoles(s: string): (r: Option<Read<seq<Hole>>>)
    ensures r.Some? ==> |r.value.rest| < |s|
    decreases |s|
  {
    match ReadHole(s)
    case None => None
    case Some(h) =>
      match Strip(" , ", h.rest)
      case None => Some(Read([h.it], h.rest))
      case Some(t) =>
        match ReadHoles(t)
        case None => None
        case Some(more) => Some(Read([h.it] + more.it, more.rest))
  }

  /** Each column with the placeholder at its position. */
  function Pairs(names: seq<string>, holes: seq<Hole>): seq<Assign>
    requires |names| == |holes|
  {
    seq(|names|, i requires 0 <= i < |names| => Assign(names[i], holes[i]))
  }

  function ReadInsertEnd(table: string, names: seq<string>, holes: seq<Hole>, s: string): Option<InsertStmt> {
    if |names| != |holes| then None
    else if s == " )  ; " then Some(InsertStmt(table, Pairs(names, holes), false))
    else if s == " )  RETURNING *  ; " then Some(InsertStmt(table, Pairs(names, holes), true))
    else None
  }

  function ReadValues(table: string, names: seq<string>, s: string): Option<InsertStmt> {
    match Strip(" ) VALUES ( ", s)
    case None => None
    case Some(t) =>
      if names == [] then ReadInsertEnd(table, names, [], t)
      else
        match ReadHoles(t)
        case None => None
        case Some(holes) => ReadInsertEnd(table, names, holes.it, holes.rest)
  }

  /** An insert; MySQL takes one of no columns. */
  function ReadInsert(s: string): Option<InsertStmt> {
    match Strip(" INSERT INTO ", s)
    case None => None
    case Some(t) =>
      match TakeName(t)
      case None => None
      case Some(table) =>
        match Strip(" ( ", table.rest)
        case None => None
        case Some(u) =>
          match ReadNames(u)
          case None => ReadValues(table.name, [], u)
          case Some(names) => ReadValues(table.name, names.it, names.rest)
  }

  lemma {:induction false} NamesMore(name: string, more: string)
    requires PlainName(name)
    ensures ReadNames(name + (COMMA + more))
            == match ReadNames(more)
               case None => None
               case Some(r) => Some(Read([name] + r.it, r.rest))
  {
    TakeNameOf(name, COMMA + more);
    StripOf(" , ", more);
  }

  lemma {:induction false} NamesRead(names: seq<string>, rest: string)
    requires PlainJoin(names) && EndsName(rest) && Strip(" , ", rest) == None
    ensures ReadNames(Join(names, COMMA) + rest) == Some(Read(names, rest))
    decreases |names|
  {
    if |names| == 1 {
      assert names == [names[0]];
      JoinOne(names[0], COMMA);
      TakeNameOf(names[0], rest);
    } else {
      JoinFront(names, COMMA);
      Regroup3(names[0], COMMA, Join(names[1..], COMMA), rest);
      NamesRead(names[1..], rest);
      NamesMore(names[0], Join(names[1..], COMMA) + rest);
      assert [names[0]] + names[1..] == names;
    }
  }

  function HolesText(holes: seq<Hole>): seq<string> {
    Map(HoleText, holes)
  }

  lemma {:induction false} HolesMore(h: Hole, more: string)
    ensures ReadHoles(HoleText(h) + (COMMA + more))
            == match ReadHoles(more)
               case None => None
               case Some(r) => Some(Read([h] + r.it, r.rest))
  {
    HoleRead(h, COMMA + more);
    StripOf(" , ", more);
  }

  lemma HolesFront(holes: seq<Hole>, rest: string)
    requires |holes| > 1
    ensures Join(HolesText(holes), COMMA) + rest
            == HoleText(holes[0]) + (COMMA + (Join(HolesText(holes[1..]), COMMA) + rest))
  {
    JoinFront(HolesText(holes), COMMA);
    assert HolesText(holes)[1..] == HolesText(holes[1..]);
    Regroup3(HoleText(holes[0]), COMMA, Join(HolesText(holes[1..]), COMMA), rest);
  }

  lemma {:induction false} HolesRead(holes: seq<Hole>, rest: string)
    requires holes != [] && EndsName(rest) && Strip(" , ", rest) == None
    ensures ReadHoles(Join(HolesText(holes), COMMA) + rest) == Some(Read(holes, rest))
    decreases |holes|
  {
    if |holes| == 1 {
      assert holes == [holes[0]] && HolesText(holes) == [HoleText(holes[0])];
      HoleRead(holes[0], rest);
    } else {
      HolesFront(holes, rest);
      HolesRead(holes[1..], rest);
      HolesMore(holes[0], Join(HolesText(holes[1..]), COMMA) + rest);
      assert [holes[0]] + holes[1..] == holes;
    }
  }

  function InsertEnd(returning: bool): string {
    if returning then " )  RETURNING *  ; " else " )  ; "
  }

  lemma {:induction false} InsertParts(table: string, names: seq<string>, style: PlaceholderStyle, returning: bool)
    ensures InsertText(table, names, style, returning)
         == " INSERT INTO " + (table + (" ( " + (Join(names, COMMA) + (" ) VALUES ( "
            + (Join(HoleTexts(|names|, style), COMMA) + InsertEnd(returning))))))
  {
    var holes := Join(HoleTexts(|names|, style), COMMA);
    var tail := Join(names, COMMA) + (" ) VALUES ( " + (holes + InsertEnd(returning)));
    InsertEndText(" INSERT INTO " + table + " ( " + Join(names, COMMA) + " ) VALUES ( " + holes, returning);
    Regroup3(" INSERT INTO " + table + " ( ", Join(names, COMMA), " ) VALUES ( ", holes + InsertEnd(returning));
    Split(" INSERT INTO " + table + " ( " + Join(names, COMMA) + " ) VALUES ( " + holes,
          " INSERT INTO " + table + " ( " + Join(names, COMMA) + " ) VALUES ( ", holes, InsertEnd(returning));
    Regroup3(" INSERT INTO ", table, " ( ", tail);
  }

  lemma InsertEndText(front: string, returning: bool)
    ensures front + " ) " + (if returning then " RETURNING * " else "") + SEMICOLON == front + InsertEnd(returning)
  {
    Regroup3(front, " ) ", if returning then " RETURNING * " else "", SEMICOLON);
    assert " ) " + (" RETURNING * " + SEMICOLON) == InsertEnd(true);
    assert " ) " + ("" + SEMICOLON) == InsertEnd(false);
  }

  lemma HolesAre(names: seq<string>, style: PlaceholderStyle) returns (holes: seq<Hole>)
    ensures |holes| == |names| && HolesText(holes) == HoleTexts(|names|, style)
    ensures Pairs(names, holes) == Number(names, style, 1)
  {
    holes := seq(|names|, i requires 0 <= i < |names| => HoleOf(style, 1 + i));
  }

  lemma ValuesRead(table: string, names: seq<string>, holes: seq<Hole>, returning: bool)
    requires |holes| == |names|
    ensures ReadValues(table, names, " ) VALUES ( " + (Join(HolesText(holes), COMMA) + InsertEnd(returning)))
         == Some(InsertStmt(table, Pairs(names, holes), returning))
  {
    StripOf(" ) VALUES ( ", Join(HolesText(holes), COMMA) + InsertEnd(returning));
    if names == [] {
      assert "" + InsertEnd(returning) == InsertEnd(returning);
    } else {
      assert InsertEnd(returning) == " ) " + InsertEnd(returning)[3..];
      StripOther(" , ", " ) ", InsertEnd(returning)[3..], 1);
      HolesRead(holes, InsertEnd(returning));
    }
  }

  /** The text of an insert is read as the insert: this table, and each column with its placeholder. */
  lemma ReadInsertText(table: string, names: seq<string>, style: PlaceholderStyle, returning: bool)
    requires PlainName(table) && forall i :: 0 <= i < |names| ==> PlainName(names[i])
    ensures ReadInsert(InsertText(table, names, style, returning))
         == Some(InsertStmt(table, Number(names, style, 1), returning))
  {
    var holes := HolesAre(names, style);
    var values := " ) VALUES ( " + (Join(HolesText(holes), COMMA) + InsertEnd(returning));
    InsertParts(table, names, style, returning);
    StripOf(" INSERT INTO ", table + (" ( " + (Join(names, COMMA) + values)));
    TakeNameOf(table, " ( " + (Join(names, COMMA) + values));
    StripOf(" ( ", Join(names, COMMA) + values);
    ValuesRead(table, names, holes, returning);
    if names == [] {
      assert "" + values == values;
    } else {
      StripOther(" , ", " ) VALUES ( ", Join(HolesText(holes), COMMA) + InsertEnd(returning), 1);
      NamesRead(names, values);
    }
  }
}
