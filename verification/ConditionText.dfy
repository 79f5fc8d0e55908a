/** What the text of an operator condition says: it is read as SQL, and what was read is evaluated
    over a row. */
module ConditionText {
  import opened Prelude
  import opened Text
  import opened Message
  import opened Sql
  import opened Codec
  import opened SqlWords
  import opened SqlRead
  import opened Where2
  import opened Where2Meaning
  import opened QuerySql

  // ---------- What SQL makes of a condition ----------

  /** The columns of json_each (SQLite, "JSON Functions And Operators", table-valued functions). */
  const EACH_COLUMNS := {"key", "value", "type", "atom", "id", "parent", "fullkey", "path", "json", "root"}

  /** The row, the argument of the placeholder, and the columns of the json_each rows around. */
  datatype Scope = Scope(row: Row, arg: GoVal, each: map<string, Cell>)

  /** A json_each row adds its columns, under its alias if it has one. */
  function Under(sc: Scope, alias: string, e: Entry): Scope {
    var prefix := if alias == "" then "" else alias + ".";
    sc.(each := sc.each[prefix + "key" := e.key][prefix + "value" := e.value])
  }

  /** The document of which json_each lists the parts. */
  function DocumentOf(sv: DbServer, rt: Runtime, t: Term, sc: Scope): Json {
    match t
    case Name(n) => CellDoc(sv, sv.column(sc.row, n))
    case _ => ArgDoc(sc.arg, rt)
  }

  function ValueOfTerm(t: Term, sc: Scope): Cell {
    match t
    case Name(n) => if n in sc.each then sc.each[n] else Null
    case _ => LiteArg(sc.arg)
  }

  function Compared(op: string): Option<Op> {
    if op == "=" then Some(Eq)
    else if op == ">" then Some(Gt)
    else if op == "<" then Some(Lt)
    else if op == ">=" then Some(Gte)
    else if op == "<=" then Some(Lte)
    else if op == "LIKE" then Some(Like)
    else None
  }

  function CountCompared(op: string): Option<Op> {
    if op == ">" then Some(LenGt)
    else if op == "<" then Some(LenLt)
    else if op == ">=" then Some(LenGte)
    else if op == "<=" then Some(LenLte)
    else None
  }

  function Counting(fn: string): Option<LenFn> {
    if fn == "cardinality" then Some(Cardinality)
    else if fn == "jsonb_array_length" then Some(JsonbArrayLength)
    else if fn == "json_array_length" then Some(JsonArrayLength)
    else if fn == "JSON_LENGTH" then Some(JsonLength)
    else None
  }

  function ElementType(name: string): Option<PgType> {
    if name == "boolean" then Some(Boolean)
    else if name == "integer" then Some(Integer)
    else if name == "bigint" then Some(BigInt)
    else if name == "real" then Some(Real4)
    else if name == "double precision" then Some(DoublePrecision)
    else if name == "text" then Some(TextType)
    else if name == "bytea" then Some(Bytea)
    else if name == "jsonb" then Some(JsonbType)
    else None
  }

  function Wrap<T, U>(o: Option<T>, f: T -> U): Option<U> {
    match o
    case None => None
    case Some(x) => Some(f(x))
  }

  /** The operator between a column and a term with the placeholder. */
  function OperatorAsked(op: string, right: Term): Option<Shape> {
    match right
    case Param(_) =>
      if op == "?" then Some(PgHasKey)
      else if op == "&&" then Some(PgOverlap)
      else if op == "@>" then Some(PgContainsAll)
      else Wrap(Compared(op), (o: Op) => Compare(o))
    case Jsonb(_) => if op == "@>" then Some(PgJsonContains) else None
    case ArrayOf(Param(_), name) => if op == "@>" then Wrap(ElementType(name), (t: PgType) => PgElement(t)) else None
    case _ => None
  }

  function PartAsked(part: Term): Option<Shape> {
    match part
    case AsJson(Param(_)) => Some(MyContains)
    case JsonArray(Param(_)) => Some(MyElement)
    case JsonArray(AsJson(Param(_))) => Some(MyMessageElement)
    case _ => None
  }

  datatype Asked = Asked(column: string, shape: Option<Shape>)

  /** What a condition without a subquery asks, and of which column. */
  function AskedBy(e: Expr): Option<Asked> {
    match e
    case Rel(Name(c), op, right) => Some(Asked(c, OperatorAsked(op, right)))
    case Rel(Call(fn, Name(c)), op, Param(_)) =>
      Some(Asked(c, if Counting(fn).None? then None
                    else Wrap(CountCompared(op), (o: Op) => Length(Counting(fn).value, o))))
    case JsonContains(Name(c), part) => Some(Asked(c, PartAsked(part)))
    case JsonOverlaps(Name(c), AsJson(Param(_))) => Some(Asked(c, Some(MyOverlaps)))
    case HasPath(Name(c), Param(_)) => Some(Asked(c, Some(MyHasKey)))
    case _ => None
  }

  /** A condition of a row. Subqueries over json_each are what SQL says of their rows; an operator
      on a column of the row is the server's. */
  ghost predicate Truth(sv: DbServer, rt: Runtime, e: Expr, sc: Scope) {
    match e
    case And(a, b) => Truth(sv, rt, a, sc) && Truth(sv, rt, b, sc)
    case Exists(negated, Alone(s), where) =>
      negated != (exists x :: x in JsonEach(DocumentOf(sv, rt, s.of, sc), rt)
                              && Truth(sv, rt, where, Under(sc, s.alias, x)))
    case Exists(negated, Both(s, t), where) =>
      negated != (exists x, y :: x in JsonEach(DocumentOf(sv, rt, s.of, sc), rt)
                                 && y in JsonEach(DocumentOf(sv, rt, t.of, sc), rt)
                                 && Truth(sv, rt, where, Under(Under(sc, s.alias, x), t.alias, y)))
    case Rel(l, op, r) =>
      if l.Name? && l.name in sc.each then op == "=" && SqlEq(ValueOfTerm(l, sc), ValueOfTerm(r, sc))
      else AsksOfRow(sv, rt, e, sc)
    case _ => AsksOfRow(sv, rt, e, sc)
  }

  predicate AsksOfRow(sv: DbServer, rt: Runtime, e: Expr, sc: Scope) {
    var asked := AskedBy(e);
    && asked.Some? && asked.value.shape.Some?
    && Holds(sv, rt, asked.value.shape.value, sv.column(sc.row, asked.value.column), sc.arg)
  }

  /** A name in the argument of json_each is looked up in json_each's own columns first. */
  predicate Shadowed(t: Term) {
    t.Name? && Lower(t.name) in EACH_COLUMNS
  }

  /** No json_each is applied to a column of its own, which SQLite refuses. */
  predicate Understood(e: Expr) {
    match e
    case And(a, b) => Understood(a) && Understood(b)
    case Exists(_, Alone(s), where) => !Shadowed(s.of) && Understood(where)
    case Exists(_, Both(s, t), where) => !Shadowed(s.of) && !Shadowed(t.of) && Understood(where)
    case _ => true
  }

  function TermHoles(t: Term): seq<Hole> {
    match t
    case Name(_) => []
    case Param(h) => [h]
    case Jsonb(h) => [h]
    case ArrayOf(of, _) => TermHoles(of)
    case AsJson(of) => TermHoles(of)
    case JsonArray(of) => TermHoles(of)
    case Call(_, of) => TermHoles(of)
  }

  /** The placeholders in the order they stand in the text. */
  function HolesIn(e: Expr): seq<Hole> {
    match e
    case Rel(l, _, r) => TermHoles(l) + TermHoles(r)
    case JsonContains(a, b) => TermHoles(a) + TermHoles(b)
    case JsonOverlaps(a, b) => TermHoles(a) + TermHoles(b)
    case HasPath(a, b) => TermHoles(a) + TermHoles(b)
    case And(a, b) => HolesIn(a) + HolesIn(b)
    case Exists(_, Alone(s), where) => TermHoles(s.of) + HolesIn(where)
    case Exists(_, Both(s, t), where) => TermHoles(s.of) + TermHoles(t.of) + HolesIn(where)
  }

  // ---------- The conditions as expressions ----------

  predicate LiteSubquery(s: Shape) {
    s in {LiteHasKey, LiteMapContains, LiteElement, LiteOverlap, LiteContainsAll}
  }

  /** A condition that an operator becomes. */
  predicate Proper(s: Shape) {
    match s
    case Compare(op) => ScalarOp(op)
    case Length(_, op) => LenOp(op)
    case _ => true
  }

  function OpWord(op: Op): string {
    match op
    case Gt => ">"
    case LenGt => ">"
    case Lt => "<"
    case LenLt => "<"
    case Gte => ">="
    case LenGte => ">="
    case Lte => "<="
    case LenLte => "<="
    case Like => "LIKE"
    case _ => "="
  }

  function FnName(fn: LenFn): string {
    match fn
    case Cardinality => "cardinality"
    case JsonbArrayLength => "jsonb_array_length"
    case JsonArrayLength => "json_array_length"
    case JsonLength => "JSON_LENGTH"
  }

  const SAME_KEY := Rel(Name("a.key"), "=", Name("b.key"))

  const SAME_VALUE := Rel(Name("a.value"), "=", Name("b.value"))

  /** No part of the document without such a part of the column. */
  function NoneWithout(col: string, h: Hole, same: Expr): Expr {
    Exists(true, Alone(Source(Param(h), "b")), Exists(true, Alone(Source(Name(col), "a")), same))
  }

  function ShapeExpr(s: Shape, col: string, h: Hole): Expr {
    match s
    case Compare(op) => Rel(Name(col), OpWord(op), Param(h))
    case Length(fn, op) => Rel(Call(FnName(fn), Name(col)), OpWord(op), Param(h))
    case PgHasKey => Rel(Name(col), "?", Param(h))
    case PgJsonContains => Rel(Name(col), "@>", Jsonb(h))
    case PgElement(t) => Rel(Name(col), "@>", ArrayOf(Param(h), PgTypeText(t)))
    case PgOverlap => Rel(Name(col), "&&", Param(h))
    case PgContainsAll => Rel(Name(col), "@>", Param(h))
    case MyHasKey => HasPath(Name(col), Param(h))
    case MyContains => JsonContains(Name(col), AsJson(Param(h)))
    case MyElement => JsonContains(Name(col), JsonArray(Param(h)))
    case MyMessageElement => JsonContains(Name(col), JsonArray(AsJson(Param(h))))
    case MyOverlaps => JsonOverlaps(Name(col), AsJson(Param(h)))
    case LiteHasKey => Exists(false, Alone(Source(Name(col), "")), Rel(Name("key"), "=", Param(h)))
    case LiteElement => Exists(false, Alone(Source(Name(col), "")), Rel(Name("value"), "=", Param(h)))
    case LiteOverlap => Exists(false, Both(Source(Name(col), "a"), Source(Param(h), "b")), SAME_VALUE)
    case LiteContainsAll => NoneWithout(col, h, SAME_VALUE)
    case LiteMapContains => NoneWithout(col, h, And(SAME_KEY, SAME_VALUE))
  }

  /** A column name that needs no quotes. */
  predicate PlainColumn(col: string) {
    PlainName(col) && col !in RESERVED
  }

  // ---------- The text of each condition ----------

  lemma OperatorText(op: Op, x: string)
    ensures OpText(op) + x == WordText(OpWord(op), x)
  {
    assert OpText(op) == " " + (OpWord(op) + " ");
  }

  lemma {:induction false} CompareText(op: Op, col: string, h: Hole, rest: string)
    ensures ShapeText(Compare(op), col, HoleText(h)) + rest == ExprText(ShapeExpr(Compare(op), col, h), rest)
  {
    Regroup3(col, OpText(op), HoleText(h), rest);
    OperatorText(op, HoleText(h) + rest);
  }

  lemma FnText(fn: LenFn, x: string)
    ensures LenFnText(fn) + x == FnName(fn) + ("(" + x)
  {
    assert LenFnText(fn) == FnName(fn) + "(";
    Split(LenFnText(fn), FnName(fn), "(", x);
  }

  lemma {:induction false} LengthText(fn: LenFn, op: Op, col: string, h: Hole, rest: string)
    ensures ShapeText(Length(fn, op), col, HoleText(h)) + rest == ExprText(ShapeExpr(Length(fn, op), col, h), rest)
  {
    Regroup5(LenFnText(fn), col, ")", OpText(op), HoleText(h), rest);
    OperatorText(op, HoleText(h) + rest);
    FnText(fn, col + (")" + WordText(OpWord(op), HoleText(h) + rest)));
    assert TermText(Name(col), ")" + WordText(OpWord(op), HoleText(h) + rest))
        == col + (")" + WordText(OpWord(op), HoleText(h) + rest));
  }

  lemma {:induction false} PgWordText(whole: string, op: string, col: string, h: Hole, rest: string)
    requires whole == " " + op + " "
    ensures col + whole + HoleText(h) + rest == ExprText(Rel(Name(col), op, Param(h)), rest)
  {
    Regroup3(col, whole, HoleText(h), rest);
    Regroup3(" ", op, " ", HoleText(h) + rest);
  }

  lemma {:induction false} PgOperatorText(s: Shape, col: string, h: Hole, rest: string)
    requires s.PgHasKey? || s.PgOverlap? || s.PgContainsAll?
    ensures ShapeText(s, col, HoleText(h)) + rest == ExprText(ShapeExpr(s, col, h), rest)
  {
    match s {
      case PgHasKey => PgWordText(" ? ", "?", col, h, rest);
      case PgOverlap => PgWordText(" && ", "&&", col, h, rest);
      case PgContainsAll => PgWordText(" @> ", "@>", col, h, rest);
    }
  }

  lemma {:induction false} PgJsonText(col: string, h: Hole, rest: string)
    ensures ShapeText(PgJsonContains, col, HoleText(h)) + rest == ExprText(ShapeExpr(PgJsonContains, col, h), rest)
  {
    Regroup4(col, " @> ", HoleText(h), "::jsonb", rest);
    OneWord(" @> ", "@>", HoleText(h) + ("::jsonb" + rest));
  }

  lemma {:induction false} PgElementText(t: PgType, col: string, h: Hole, rest: string)
    ensures ShapeText(PgElement(t), col, HoleText(h)) + rest == ExprText(ShapeExpr(PgElement(t), col, h), rest)
  {
    var tail := "]::" + (PgTypeText(t) + ("[]" + rest));
    Regroup4(col + " @> ARRAY[" + HoleText(h), "]::", PgTypeText(t), "[]", rest);
    Regroup3(col, " @> ARRAY[", HoleText(h), tail);
    Split(" @> ARRAY[", " @> ", "ARRAY[", HoleText(h) + tail);
    Split("ARRAY[", "ARRAY", "[", HoleText(h) + tail);
    OneWord(" @> ", "@>", "ARRAY" + ("[" + (HoleText(h) + tail)));
    assert TermText(Param(h), tail) == HoleText(h) + tail;
  }

  lemma CastText(x: string)
    ensures "CAST(" + x == "CAST" + ("(" + x)
  {
    Split("CAST(", "CAST", "(", x);
  }

  lemma ArrayText(x: string)
    ensures "JSON_ARRAY(" + x == "JSON_ARRAY" + ("(" + x)
  {
    Split("JSON_ARRAY(", "JSON_ARRAY", "(", x);
  }

  lemma {:induction false} MyContainsText(col: string, h: Hole, rest: string)
    ensures ShapeText(MyContains, col, HoleText(h)) + rest == ExprText(ShapeExpr(MyContains, col, h), rest)
  {
    var inner := HoleText(h) + (" AS JSON)" + (")" + rest));
    assert TermText(Param(h), " AS JSON)" + (")" + rest)) == inner;
    Regroup5("JSON_CONTAINS(", col, ", CAST(", HoleText(h), " AS JSON))", rest);
    Split(" AS JSON))", " AS JSON)", ")", rest);
    Split(", CAST(", ", ", "CAST(", inner);
    CastText(inner);
    Split("JSON_CONTAINS(", "JSON_CONTAINS", "(", col + (", " + ("CAST" + ("(" + inner))));
  }

  lemma {:induction false} MyOverlapsText(col: string, h: Hole, rest: string)
    ensures ShapeText(MyOverlaps, col, HoleText(h)) + rest == ExprText(ShapeExpr(MyOverlaps, col, h), rest)
  {
    var inner := HoleText(h) + (" AS JSON)" + (")" + rest));
    assert TermText(Param(h), " AS JSON)" + (")" + rest)) == inner;
    Regroup5("JSON_OVERLAPS(", col, ", CAST(", HoleText(h), " AS JSON))", rest);
    Split(" AS JSON))", " AS JSON)", ")", rest);
    Split(", CAST(", ", ", "CAST(", inner);
    CastText(inner);
    Split("JSON_OVERLAPS(", "JSON_OVERLAPS", "(", col + (", " + ("CAST" + ("(" + inner))));
  }

  lemma {:induction false} MyElementText(col: string, h: Hole, rest: string)
    ensures ShapeText(MyElement, col, HoleText(h)) + rest == ExprText(ShapeExpr(MyElement, col, h), rest)
  {
    var inner := HoleText(h) + (")" + (")" + rest));
    assert TermText(Param(h), ")" + (")" + rest)) == inner;
    Regroup5("JSON_CONTAINS(", col, ", JSON_ARRAY(", HoleText(h), "))", rest);
    Split("))", ")", ")", rest);
    Split(", JSON_ARRAY(", ", ", "JSON_ARRAY(", inner);
    ArrayText(inner);
    Split("JSON_CONTAINS(", "JSON_CONTAINS", "(", col + (", " + ("JSON_ARRAY" + ("(" + inner))));
  }

  lemma {:induction false} MyMessageElementText(col: string, h: Hole, rest: string)
    ensures ShapeText(MyMessageElement, col, HoleText(h)) + rest == ExprText(ShapeExpr(MyMessageElement, col, h), rest)
  {
    var inner := HoleText(h) + (" AS JSON)" + (")" + (")" + rest)));
    assert TermText(Param(h), " AS JSON)" + (")" + (")" + rest))) == inner;
    assert TermText(AsJson(Param(h)), ")" + (")" + rest)) == "CAST" + ("(" + inner);
    Regroup5("JSON_CONTAINS(", col, ", JSON_ARRAY(CAST(", HoleText(h), " AS JSON)))", rest);
    Split(" AS JSON)))", " AS JSON)", "))", rest);
    Split("))", ")", ")", rest);
    Split(", JSON_ARRAY(CAST(", ", JSON_ARRAY(", "CAST(", inner);
    CastText(inner);
    Split(", JSON_ARRAY(", ", ", "JSON_ARRAY(", "CAST" + ("(" + inner));
    ArrayText("CAST" + ("(" + inner));
    Split("JSON_CONTAINS(", "JSON_CONTAINS", "(", col + (", " + ("JSON_ARRAY" + ("(" + ("CAST" + ("(" + inner))))));
  }

  lemma {:induction false} MyHasKeyText(col: string, h: Hole, rest: string)
    ensures ShapeText(MyHasKey, col, HoleText(h)) + rest == ExprText(ShapeExpr(MyHasKey, col, h), rest)
  {
    Regroup5("JSON_CONTAINS_PATH(", col, ", 'one', CONCAT('$.' , ", HoleText(h), "))", rest);
    Split("JSON_CONTAINS_PATH(", "JSON_CONTAINS_PATH", "(",
          col + (", 'one', CONCAT('$.' , " + (HoleText(h) + ("))" + rest))));
  }

  lemma ExistsText(x: string)
    ensures "EXISTS (SELECT 1 FROM json_each(" + x == "EXISTS" + (" (SELECT 1 FROM " + ("json_each(" + x))
  {
    Split("EXISTS (SELECT 1 FROM json_each(", "EXISTS", " (SELECT 1 FROM json_each(", x);
    Split(" (SELECT 1 FROM json_each(", " (SELECT 1 FROM ", "json_each(", x);
  }

  lemma NotExistsText(x: string)
    ensures "NOT EXISTS (SELECT 1 FROM json_each(" + x == "NOT" + (" EXISTS (SELECT 1 FROM " + ("json_each(" + x))
  {
    Split("NOT EXISTS (SELECT 1 FROM json_each(", "NOT", " EXISTS (SELECT 1 FROM json_each(", x);
    Split(" EXISTS (SELECT 1 FROM json_each(", " EXISTS (SELECT 1 FROM ", "json_each(", x);
  }

  lemma OneWord(whole: string, word: string, x: string)
    requires whole == " " + word + " "
    ensures whole + x == WordText(word, x)
  {
    Regroup3(" ", word, " ", x);
  }

  /** The end of a source with an alias, and the word behind it. */
  lemma AliasText(whole: string, alias: string, word: string, x: string)
    requires whole == ") " + alias + (" " + word + " ")
    ensures whole + x == ")" + (" " + (alias + WordText(word, x)))
  {
    Regroup3(") ", alias, " " + word + " ", x);
    Split(") ", ")", " ", alias + (" " + word + " " + x));
    OneWord(" " + word + " ", word, x);
  }

  lemma {:induction false} EqualText(whole: string, l: string, r: string, x: string)
    requires whole == l + " = " + r
    ensures whole + x == ExprText(Rel(Name(l), "=", Name(r)), x)
  {
    Regroup3(l, " = ", r, x);
    OneWord(" = ", "=", r + x);
  }

  lemma {:induction false} KeyConditionText(name: string, h: Hole, x: string, whole: string)
    requires whole == ") WHERE " + name + " = "
    ensures whole + (HoleText(h) + x) == ")" + WordText("WHERE", ExprText(Rel(Name(name), "=", Param(h)), x))
  {
    var inner := HoleText(h) + x;
    Regroup3(") WHERE ", name, " = ", inner);
    OneWord(" = ", "=", inner);
    Split(") WHERE ", ")", " WHERE ", name + WordText("=", inner));
    OneWord(" WHERE ", "WHERE", name + WordText("=", inner));
  }

  lemma {:induction false} LiteKeyText(s: Shape, col: string, h: Hole, rest: string)
    requires s.LiteHasKey? || s.LiteElement?
    ensures ShapeText(s, col, HoleText(h)) + rest == ExprText(ShapeExpr(s, col, h), rest)
  {
    var name := if s.LiteHasKey? then "key" else "value";
    var where := if s.LiteHasKey? then ") WHERE key = " else ") WHERE value = ";
    Regroup5("EXISTS (SELECT 1 FROM json_each(", col, where, HoleText(h), ")", rest);
    KeyConditionText(name, h, ")" + rest, where);
    ExistsText(col + (")" + WordText("WHERE", ExprText(Rel(Name(name), "=", Param(h)), ")" + rest))));
  }

  lemma JoinText(x: string)
    ensures ") a JOIN json_each(" + x == ")" + (" " + ("a" + WordText("JOIN", "json_each(" + x)))
  {
    Split(") a JOIN json_each(", ") a JOIN ", "json_each(", x);
    AliasText(") a JOIN ", "a", "JOIN", "json_each(" + x);
  }

  lemma {:induction false} SameValueText(x: string)
    ensures "a.value = b.value" + x == ExprText(SAME_VALUE, x)
  {
    EqualText("a.value = b.value", "a.value", "b.value", x);
  }

  lemma {:induction false} OnText(rest: string)
    ensures ") b ON a.value = b.value)" + rest
            == ")" + (" " + ("b" + WordText("ON", ExprText(SAME_VALUE, ")" + rest))))
  {
    Regroup3(") b ON ", "a.value = b.value", ")", rest);
    SameValueText(")" + rest);
    AliasText(") b ON ", "b", "ON", ExprText(SAME_VALUE, ")" + rest));
    assert ") b ON a.value = b.value)" == ") b ON " + "a.value = b.value" + ")";
  }

  lemma {:induction false} LiteOverlapText(col: string, h: Hole, rest: string)
    ensures ShapeText(LiteOverlap, col, HoleText(h)) + rest == ExprText(ShapeExpr(LiteOverlap, col, h), rest)
  {
    var last := ")" + (" " + ("b" + WordText("ON", ExprText(SAME_VALUE, ")" + rest))));
    Regroup5("EXISTS (SELECT 1 FROM json_each(", col, ") a JOIN json_each(", HoleText(h),
             ") b ON a.value = b.value)", rest);
    OnText(rest);
    JoinText(HoleText(h) + last);
    ExistsText(col + (")" + (" " + ("a" + WordText("JOIN", "json_each(" + (HoleText(h) + last))))));
  }

  lemma WithoutText(x: string)
    ensures ") b WHERE NOT EXISTS (SELECT 1 FROM json_each(" + x
            == ")" + (" " + ("b" + WordText("WHERE", "NOT" + (" EXISTS (SELECT 1 FROM " + ("json_each(" + x)))))
  {
    Split(") b WHERE NOT EXISTS (SELECT 1 FROM json_each(", ") b WHERE ", "NOT EXISTS (SELECT 1 FROM json_each(", x);
    NotExistsText(x);
    AliasText(") b WHERE ", "b", "WHERE", "NOT" + (" EXISTS (SELECT 1 FROM " + ("json_each(" + x)));
  }

  /** What stands behind the column in the conditions about all parts of a document. */
  lemma {:induction false} SameText(text: string, same: Expr, rest: string)
    requires text + (")" + (")" + rest)) == ExprText(same, ")" + (")" + rest))
    ensures ") a WHERE " + text + "))" + rest
            == ")" + (" " + ("a" + WordText("WHERE", ExprText(same, ")" + (")" + rest)))))
  {
    Regroup3(") a WHERE ", text, "))", rest);
    Split("))", ")", ")", rest);
    AliasText(") a WHERE ", "a", "WHERE", ExprText(same, ")" + (")" + rest)));
  }

  lemma {:induction false} NoneWithoutText(col: string, h: Hole, last: string, same: Expr, rest: string)
    requires last + rest == ")" + (" " + ("a" + WordText("WHERE", ExprText(same, ")" + (")" + rest)))))
    ensures "NOT EXISTS (SELECT 1 FROM json_each(" + HoleText(h) + ") b WHERE NOT EXISTS (SELECT 1 FROM json_each("
            + col
            + last + rest
         == ExprText(NoneWithout(col, h, same), rest)
  {
    Regroup5("NOT EXISTS (SELECT 1 FROM json_each(", HoleText(h), ") b WHERE NOT EXISTS (SELECT 1 FROM json_each(", col,
             last, rest);
    WithoutText(col + (last + rest));
    NotExistsText(HoleText(h) + (")" + (" " + ("b" + WordText("WHERE", "NOT" + (" EXISTS (SELECT 1 FROM "
                  + ("json_each(" + (col + (last + rest)))))))));
  }

  lemma ValueEnding()
    ensures ") a WHERE a.value = b.value))" == ") a WHERE " + "a.value = b.value" + "))"
  {
  }

  lemma {:induction false} LiteContainsAllText(col: string, h: Hole, rest: string)
    ensures ShapeText(LiteContainsAll, col, HoleText(h)) + rest == ExprText(ShapeExpr(LiteContainsAll, col, h), rest)
  {
    ValueEnding();
    SameValueText(")" + (")" + rest));
    SameText("a.value = b.value", SAME_VALUE, rest);
    NoneWithoutText(col, h, ") a WHERE a.value = b.value))", SAME_VALUE, rest);
  }

  lemma {:induction false} SameKeyText(x: string)
    ensures "a.key = b.key" + x == ExprText(SAME_KEY, x)
  {
    EqualText("a.key = b.key", "a.key", "b.key", x);
  }

  lemma {:induction false} BothEqualText(x: string)
    ensures "a.key = b.key AND a.value = b.value" + x == ExprText(And(SAME_KEY, SAME_VALUE), x)
  {
    Split("a.key = b.key AND a.value = b.value", "a.key = b.key", " AND a.value = b.value", x);
    Split(" AND a.value = b.value", " AND ", "a.value = b.value", x);
    SameValueText(x);
    SameKeyText(" AND " + ExprText(SAME_VALUE, x));
  }

  lemma MemberEnding()
    ensures ") a WHERE a.key = b.key AND a.value = b.value))" == ") a WHERE " + "a.key = b.key AND a.value = b.value"
            + "))"
  {
  }

  lemma {:induction false} LiteMapContainsText(col: string, h: Hole, rest: string)
    ensures ShapeText(LiteMapContains, col, HoleText(h)) + rest == ExprText(ShapeExpr(LiteMapContains, col, h), rest)
  {
    MemberEnding();
    BothEqualText(")" + (")" + rest));
    SameText("a.key = b.key AND a.value = b.value", And(SAME_KEY, SAME_VALUE), rest);
    NoneWithoutText(col, h, ") a WHERE a.key = b.key AND a.value = b.value))", And(SAME_KEY, SAME_VALUE), rest);
  }

  lemma {:induction false} ShapeIsExpr(s: Shape, col: string, h: Hole, rest: string)
    requires Proper(s)
    ensures ShapeText(s, col, HoleText(h)) + rest == ExprText(ShapeExpr(s, col, h), rest)
  {
    match s
    case Compare(op) => CompareText(op, col, h, rest);
    case Length(fn, op) => LengthText(fn, op, col, h, rest);
    case LiteHasKey => LiteKeyText(s, col, h, rest);
    case LiteElement => LiteKeyText(s, col, h, rest);
    case LiteOverlap => LiteOverlapText(col, h, rest);
    case LiteContainsAll => LiteContainsAllText(col, h, rest);
    case LiteMapContains => LiteMapContainsText(col, h, rest);
    case PgJsonContains => PgJsonText(col, h, rest);
    case PgElement(t) => PgElementText(t, col, h, rest);
    case PgHasKey => PgOperatorText(s, col, h, rest);
    case PgOverlap => PgOperatorText(s, col, h, rest);
    case PgContainsAll => PgOperatorText(s, col, h, rest);
    case MyHasKey => MyHasKeyText(col, h, rest);
    case MyContains => MyContainsText(col, h, rest);
    case MyElement => MyElementText(col, h, rest);
    case MyMessageElement => MyMessageElementText(col, h, rest);
    case MyOverlaps => MyOverlapsText(col, h, rest);
  }

  // ---------- What the text says ----------

  lemma FnIsPlain(fn: LenFn)
    ensures PlainName(FnName(fn)) && FnName(fn) !in RESERVED + TESTS + {"CAST", "JSON_ARRAY"}
    ensures Counting(FnName(fn)) == Some(fn)
  {
  }

  lemma TypeIsPlain(t: PgType)
    ensures PgTypeText(t) == "double precision" || PlainName(PgTypeText(t))
    ensures ElementType(PgTypeText(t)) == Some(t)
  {
  }

  lemma OpIsOperator(op: Op)
    ensures OpWord(op) in OPERATORS
    ensures ScalarOp(op) ==> Compared(OpWord(op)) == Some(op)
    ensures LenOp(op) ==> CountCompared(OpWord(op)) == Some(op)
  {
  }

  lemma SamePlain()
    ensures PlainExpr(SAME_VALUE) && PlainExpr(And(SAME_KEY, SAME_VALUE))
  {
  }

  lemma LitePlain(s: Shape, col: string, h: Hole)
    requires LiteSubquery(s) && PlainColumn(col)
    ensures PlainExpr(ShapeExpr(s, col, h)) && !ShapeExpr(s, col, h).And?
  {
    SamePlain();
    assert PlainName("a") && PlainName("b") && PlainName("key") && PlainName("value");
  }

  lemma ShapePlain(s: Shape, col: string, h: Hole)
    requires Proper(s) && PlainColumn(col)
    ensures PlainExpr(ShapeExpr(s, col, h)) && !ShapeExpr(s, col, h).And?
  {
    match s {
      case Compare(op) => OpIsOperator(op);
      case Length(fn, op) =>
        OpIsOperator(op);
        FnIsPlain(fn);
        assert PlainTerm(Call(FnName(fn), Name(col)));
      case PgElement(t) => TypeIsPlain(t);
      case _ => if LiteSubquery(s) { LitePlain(s, col, h); }
    }
  }

  lemma {:induction false} WithoutHoles(col: string, h: Hole, same: Expr)
    requires HolesIn(same) == [] && Understood(same)
    ensures HolesIn(NoneWithout(col, h, same)) == [h]
    ensures Understood(NoneWithout(col, h, same)) <==> Lower(col) !in EACH_COLUMNS
  {
    var inner := Exists(true, Alone(Source(Name(col), "a")), same);
    assert HolesIn(inner) == [] && (Understood(inner) <==> Lower(col) !in EACH_COLUMNS);
  }

  lemma SameHoles()
    ensures HolesIn(SAME_VALUE) == [] && Understood(SAME_VALUE)
    ensures HolesIn(And(SAME_KEY, SAME_VALUE)) == [] && Understood(And(SAME_KEY, SAME_VALUE))
  {
    assert HolesIn(SAME_KEY) == [] && Understood(SAME_KEY);
  }

  lemma {:induction false} ElementHoles(h: Hole, t: PgType)
    ensures TermHoles(ArrayOf(Param(h), PgTypeText(t))) == [h]
    ensures TermHoles(JsonArray(AsJson(Param(h)))) == [h]
    ensures TermHoles(JsonArray(Param(h))) == [h] && TermHoles(AsJson(Param(h))) == [h]
  {
    assert TermHoles(Param(h)) == [h] && TermHoles(AsJson(Param(h))) == [h];
  }

  lemma ShapeHoles(s: Shape, col: string, h: Hole)
    ensures HolesIn(ShapeExpr(s, col, h)) == [h]
    ensures Understood(ShapeExpr(s, col, h)) <==> !(LiteSubquery(s) && Lower(col) in EACH_COLUMNS)
  {
    SameHoles();
    match s {
      case LiteContainsAll => WithoutHoles(col, h, SAME_VALUE);
      case LiteMapContains => WithoutHoles(col, h, And(SAME_KEY, SAME_VALUE));
      case PgElement(t) => ElementHoles(h, t);
      case Length(fn, _) => assert TermHoles(Call(FnName(fn), Name(col))) == TermHoles(Name(col));
      case _ => PlainHoles(s, col, h);
    }
  }

  lemma {:induction false} PlainHoles(s: Shape, col: string, h: Hole)
    requires !s.LiteContainsAll? && !s.LiteMapContains? && !s.PgElement? && !s.Length?
    ensures HolesIn(ShapeExpr(s, col, h)) == [h]
    ensures Understood(ShapeExpr(s, col, h)) <==> !(LiteSubquery(s) && Lower(col) in EACH_COLUMNS)
  {
    ElementHoles(h, Boolean);
    assert TermHoles(Name(col)) == [] && TermHoles(Param(h)) == [h] && TermHoles(Jsonb(h)) == [h];
    assert HolesIn(Rel(Name("key"), "=", Param(h))) == [] + [h];
    assert HolesIn(Rel(Name("value"), "=", Param(h))) == [] + [h];
  }

  // ---------- Subqueries over rows ----------

  lemma AliasNames()
    ensures "a" + "." + "key" == "a.key" && "a" + "." + "value" == "a.value"
    ensures "b" + "." + "key" == "b.key" && "b" + "." + "value" == "b.value"
    ensures "" + "key" == "key" && "" + "value" == "value"
  {
  }

  /** A row of the column and one of the document have equal values, and equal keys if asked. */
  predicate Same(keys: bool, x: Entry, y: Entry) {
    (keys ==> SqlEq(x.key, y.key)) && SqlEq(x.value, y.value)
  }

  function SameExpr(keys: bool): Expr {
    if keys then And(SAME_KEY, SAME_VALUE) else SAME_VALUE
  }

  lemma {:induction false} SameTruth(sv: DbServer, rt: Runtime, keys: bool, sc: Scope, x: Entry, y: Entry)
    requires sc.each == map["a.key" := x.key, "a.value" := x.value, "b.key" := y.key, "b.value" := y.value]
    ensures Truth(sv, rt, SameExpr(keys), sc) <==> Same(keys, x, y)
  {
    assert Truth(sv, rt, SAME_KEY, sc) <==> SqlEq(x.key, y.key);
    assert Truth(sv, rt, SAME_VALUE, sc) <==> SqlEq(x.value, y.value);
  }

  lemma {:induction false} KeyTruth(sv: DbServer, rt: Runtime, name: string, h: Hole, sc: Scope, x: Entry)
    requires (name == "key" || name == "value") && sc.each == map["key" := x.key, "value" := x.value]
    ensures Truth(sv, rt, Rel(Name(name), "=", Param(h)), sc)
            <==> SqlEq(if name == "key" then x.key else x.value, LiteArg(sc.arg))
  {
  }

  /** Some row of the column's document has this key or value. */
  lemma {:induction false} SomeKeyHolds(sv: DbServer, rt: Runtime, name: string, col: string, h: Hole, row: Row,
                                        arg: GoVal)
    requires name == "key" || name == "value"
    ensures Truth(sv, rt, Exists(false, Alone(Source(Name(col), "")), Rel(Name(name), "=", Param(h))),
                  Scope(row, arg, map[]))
            <==> (exists e :: e in JsonEach(CellDoc(sv, sv.column(row, col)), rt)
                              && SqlEq(if name == "key" then e.key else e.value, LiteArg(arg)))
  {
    AliasNames();
    var sc := Scope(row, arg, map[]);
    forall e: Entry
      ensures Truth(sv, rt, Rel(Name(name), "=", Param(h)), Under(sc, "", e))
              <==> SqlEq(if name == "key" then e.key else e.value, LiteArg(arg))
    {
      KeyTruth(sv, rt, name, h, Under(sc, "", e), e);
    }
  }

  lemma UnderBoth(row: Row, arg: GoVal, x: Entry, y: Entry)
    ensures Under(Under(Scope(row, arg, map[]), "a", x), "b", y).each
         == map["a.key" := x.key, "a.value" := x.value, "b.key" := y.key, "b.value" := y.value]
    ensures Under(Under(Scope(row, arg, map[]), "b", y), "a", x).each
         == map["a.key" := x.key, "a.value" := x.value, "b.key" := y.key, "b.value" := y.value]
    ensures Under(Under(Scope(row, arg, map[]), "a", x), "b", y).row == row
    ensures Under(Under(Scope(row, arg, map[]), "b", y), "a", x).row == row
  {
    AliasNames();
  }

  lemma {:induction false} OverlapHolds(sv: DbServer, rt: Runtime, col: string, h: Hole, row: Row, arg: GoVal)
    ensures Truth(sv, rt, ShapeExpr(LiteOverlap, col, h), Scope(row, arg, map[]))
            <==> LiteHolds(LiteOverlap, CellDoc(sv, sv.column(row, col)), arg, ArgDoc(arg, rt), rt)
  {
    var sc := Scope(row, arg, map[]);
    assert DocumentOf(sv, rt, Name(col), sc) == CellDoc(sv, sv.column(row, col));
    assert DocumentOf(sv, rt, Param(h), sc) == ArgDoc(arg, rt);
    forall x: Entry, y: Entry
      ensures Truth(sv, rt, SAME_VALUE, Under(Under(Scope(row, arg, map[]), "a", x), "b", y))
              <==> SqlEq(x.value, y.value)
    {
      UnderBoth(row, arg, x, y);
      SameTruth(sv, rt, false, Under(Under(Scope(row, arg, map[]), "a", x), "b", y), x, y);
    }
  }

  lemma {:induction false} InnerHolds(sv: DbServer, rt: Runtime, keys: bool, col: string, row: Row, arg: GoVal,
                                      y: Entry)
    ensures Truth(sv, rt, Exists(true, Alone(Source(Name(col), "a")), SameExpr(keys)),
                  Under(Scope(row, arg, map[]), "b", y))
            <==> !exists x :: x in JsonEach(CellDoc(sv, sv.column(row, col)), rt) && Same(keys, x, y)
  {
    var sc := Under(Scope(row, arg, map[]), "b", y);
    forall x: Entry
      ensures Truth(sv, rt, SameExpr(keys), Under(sc, "a", x)) <==> Same(keys, x, y)
    {
      UnderBoth(row, arg, x, y);
      SameTruth(sv, rt, keys, Under(sc, "a", x), x, y);
    }
  }

  lemma {:induction false} WithoutHolds(sv: DbServer, rt: Runtime, keys: bool, col: string, h: Hole, row: Row,
                                        arg: GoVal)
    ensures Truth(sv, rt, NoneWithout(col, h, SameExpr(keys)), Scope(row, arg, map[]))
            <==> LiteHolds(if keys then LiteMapContains else LiteContainsAll, CellDoc(sv, sv.column(row, col)), arg,
                           ArgDoc(arg, rt), rt)
  {
    var inner := Exists(true, Alone(Source(Name(col), "a")), SameExpr(keys));
    assert DocumentOf(sv, rt, Param(h), Scope(row, arg, map[])) == ArgDoc(arg, rt);
    forall y: Entry
      ensures Truth(sv, rt, inner, Under(Scope(row, arg, map[]), "b", y))
              <==> !exists x :: x in JsonEach(CellDoc(sv, sv.column(row, col)), rt) && Same(keys, x, y)
    {
      InnerHolds(sv, rt, keys, col, row, arg, y);
    }
  }

  /** A condition without a subquery asks the server what it is known by. */
  lemma {:induction false} AsksHold(sv: DbServer, rt: Runtime, e: Expr, s: Shape, col: string, row: Row, arg: GoVal)
    requires AskedBy(e) == Some(Asked(col, Some(s)))
    ensures Truth(sv, rt, e, Scope(row, arg, map[])) <==> Holds(sv, rt, s, sv.column(row, col), arg)
  {
  }

  /** What the conditions without a subquery are known by. */
  lemma AskedByShape(s: Shape, col: string, h: Hole)
    requires Proper(s) && !LiteSubquery(s)
    ensures AskedBy(ShapeExpr(s, col, h)) == Some(Asked(col, Some(s)))
  {
    match s {
      case Compare(op) => OpIsOperator(op);
      case Length(fn, op) =>
        OpIsOperator(op);
        FnIsPlain(fn);
      case PgElement(t) => TypeIsPlain(t);
      case _ =>
    }
  }

  lemma {:induction false} TruthIs(sv: DbServer, rt: Runtime, s: Shape, col: string, h: Hole, row: Row, arg: GoVal)
    requires Proper(s)
    ensures Truth(sv, rt, ShapeExpr(s, col, h), Scope(row, arg, map[])) <==> Holds(sv, rt, s, sv.column(row, col), arg)
  {
    match s {
      case LiteHasKey => SomeKeyHolds(sv, rt, "key", col, h, row, arg);
      case LiteElement => SomeKeyHolds(sv, rt, "value", col, h, row, arg);
      case LiteOverlap => OverlapHolds(sv, rt, col, h, row, arg);
      case LiteContainsAll => WithoutHolds(sv, rt, false, col, h, row, arg);
      case LiteMapContains => WithoutHolds(sv, rt, true, col, h, row, arg);
      case _ =>
        AskedByShape(s, col, h);
        AsksHold(sv, rt, ShapeExpr(s, col, h), s, col, row, arg);
    }
  }

  /** What a text behind which the condition ends is read as. */
  ghost predicate ReadsAs(text: string, e: Expr) {
    !e.And? && forall rest :: EndsTerm(rest) ==> ReadOne(text + rest) == Some(Read(e, rest))
  }

  /** What an expression says of rows: what this condition on this column says. */
  ghost predicate SaysShape(e: Expr, s: Shape, col: string) {
    forall sv, rt, row, arg ::
      Truth(sv, rt, e, Scope(row, arg, map[])) <==> Holds(sv, rt, s, sv.column(row, col), arg)
  }

  /** SQLite would apply json_each to a column of its own. */
  predicate RefusedOn(s: Shape, col: string) {
    LiteSubquery(s) && Lower(col) in EACH_COLUMNS
  }

  /** The text of a condition is read as one that takes the condition's placeholder and says of every
      row what the condition does; SQLite understands it unless json_each is applied to a column with
      the name of one of its own. */
  lemma ConditionTextMeans(s: Shape, col: string, h: Hole) returns (e: Expr)
    requires Proper(s) && PlainColumn(col)
    ensures ReadsAs(ShapeText(s, col, HoleText(h)), e) && HolesIn(e) == [h]
    ensures Understood(e) <==> !RefusedOn(s, col)
    ensures SaysShape(e, s, col)
  {
    e := ShapeExpr(s, col, h);
    ShapePlain(s, col, h);
    ShapeHoles(s, col, h);
    forall rest | EndsTerm(rest)
      ensures ReadOne(ShapeText(s, col, HoleText(h)) + rest) == Some(Read(e, rest))
    {
      ShapeIsExpr(s, col, h, rest);
      OneRead(e, rest);
    }
    forall sv, rt, row, arg
      ensures Truth(sv, rt, e, Scope(row, arg, map[])) <==> Holds(sv, rt, s, sv.column(row, col), arg)
    {
      TruthIs(sv, rt, s, col, h, row, arg);
    }
  }
}
