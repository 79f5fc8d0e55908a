/** Conditions of a table query with an operator (crud/tablequery.go:326-492): which condition an
    operator becomes on each dialect, and its text. */
module Where2 {
  import opened Prelude
  import opened Sqldb
  import opened Text
  import opened Message
  import opened Codec
  import opened Operand

  datatype Op =
    | Unspecified | Gt | Lt | Gte | Lte | Like | Eq
    | Contains | Overlap | ContainsAll | LenGt | LenGte | LenLt | LenLte | HasKey

  datatype LenFn = Cardinality | JsonbArrayLength | JsonArrayLength | JsonLength

  /** The element types of PostgreSQL's arrays. */
  datatype PgType = Boolean | Integer | BigInt | Real4 | DoublePrecision | TextType | Bytea | JsonbType

  /** The form of a condition. Each has one column and one placeholder. */
  datatype Shape =
    | Compare(op: Op)
    | Length(fn: LenFn, op: Op)
    | PgHasKey | PgJsonContains | PgElement(elements: PgType) | PgOverlap | PgContainsAll
    | MyHasKey | MyContains | MyElement | MyMessageElement | MyOverlaps
    | LiteHasKey | LiteMapContains | LiteElement | LiteOverlap | LiteContainsAll

  datatype QueryError =
    | Invalid(what: string) | NotFound(name: string) | Unsupported(op: Op) | UnsupportedDialect
    | BadValue2(text: string) | SizesDiffer | NoOperator(name: string) | Panics

  datatype Piece = Piece(shape: Shape, arg: GoVal)

  predicate ScalarOp(op: Op) {
    op == Gt || op == Lt || op == Gte || op == Lte || op == Like || op == Eq
  }

  predicate LenOp(op: Op) {
    op == LenGt || op == LenGte || op == LenLt || op == LenLte
  }

  /** WhereOperator2Str on the scalar operators, lenOpToSql on the length operators. */
  function OpText(op: Op): string {
    match op
    case Gt => " > "
    case LenGt => " > "
    case Lt => " < "
    case LenLt => " < "
    case Gte => " >= "
    case LenGte => " >= "
    case Lte => " <= "
    case LenLte => " <= "
    case Like => " LIKE "
    case _ => " = "
  }

  function LenFnText(fn: LenFn): string {
    match fn
    case Cardinality => "cardinality("
    case JsonbArrayLength => "jsonb_array_length("
    case JsonArrayLength => "json_array_length("
    case JsonLength => "JSON_LENGTH("
  }

  /** GetProtoDBTypePostgresql. */
  function PgTypeOf(kind: Kind): PgType {
    match kind
    case BoolKind => Boolean
    case Int32Kind => Integer
    case EnumKind => Integer
    case Int64Kind => BigInt
    case Uint32Kind => BigInt
    case Uint64Kind => BigInt
    case FloatKind => Real4
    case DoubleKind => DoublePrecision
    case StringKind => TextType
    case BytesKind => Bytea
    case MessageKind => JsonbType
  }

  function PgTypeText(t: PgType): string {
    match t
    case Boolean => "boolean"
    case Integer => "integer"
    case BigInt => "bigint"
    case Real4 => "real"
    case DoublePrecision => "double precision"
    case TextType => "text"
    case Bytea => "bytea"
    case JsonbType => "jsonb"
  }

  function ShapeText(s: Shape, col: string, hole: string): string {
    match s
    case Compare(op) => col + OpText(op) + hole
    case Length(fn, op) => LenFnText(fn) + col + ")" + OpText(op) + hole
    case PgHasKey => col + " ? " + hole
    case PgJsonContains => col + " @> " + hole + "::jsonb"
    case PgElement(t) => col + " @> ARRAY[" + hole + "]::" + PgTypeText(t) + "[]"
    case PgOverlap => col + " && " + hole
    case PgContainsAll => col + " @> " + hole
    case MyHasKey => "JSON_CONTAINS_PATH(" + col + ", 'one', CONCAT('$.' , " + hole + "))"
    case MyContains => "JSON_CONTAINS(" + col + ", CAST(" + hole + " AS JSON))"
    case MyElement => "JSON_CONTAINS(" + col + ", JSON_ARRAY(" + hole + "))"
    case MyMessageElement => "JSON_CONTAINS(" + col + ", JSON_ARRAY(CAST(" + hole + " AS JSON)))"
    case MyOverlaps => "JSON_OVERLAPS(" + col + ", CAST(" + hole + " AS JSON))"
    case LiteHasKey => "EXISTS (SELECT 1 FROM json_each(" + col + ") WHERE key = " + hole + ")"
    case LiteMapContains =>
      "NOT EXISTS (SELECT 1 FROM json_each(" + hole + ") b WHERE NOT EXISTS (SELECT 1 FROM json_each(" + col
      + ") a WHERE a.key = b.key AND a.value = b.value))"
    case LiteElement => "EXISTS (SELECT 1 FROM json_each(" + col + ") WHERE value = " + hole + ")"
    case LiteOverlap => "EXISTS (SELECT 1 FROM json_each(" + col + ") a JOIN json_each(" + hole
      + ") b ON a.value = b.value)"
    case LiteContainsAll =>
      "NOT EXISTS (SELECT 1 FROM json_each(" + hole + ") b WHERE NOT EXISTS (SELECT 1 FROM json_each(" + col
      + ") a WHERE a.value = b.value))"
  }

  /** The text of a condition is the column, the placeholder, and at most 140 characters around them. */
  lemma ShapeLen(s: Shape, col: string, hole: string)
    ensures |ShapeText(s, col, hole)| <= 140 + |col| + |hole|
  {
    match s
    case Compare(op) => assert |OpText(op)| <= 6;
    case Length(fn, op) => assert |OpText(op)| <= 6 && |LenFnText(fn)| <= 19;
    case PgElement(t) => assert |PgTypeText(t)| <= 16;
    case _ =>
  }

  // ---------- The condition of an operator ----------

  function WithArg(shape: Shape, arg: Option<GoVal>, value: string): Result<Piece, QueryError> {
    if arg.Some? then Ok(Piece(shape, arg.value)) else Err(BadValue2(value))
  }

  function LengthCondition(fn: LenFn, op: Op, value: string): Result<Piece, QueryError> {
    WithArg(Length(fn, op), IntArg(ParseInt(Trim(value), TWO63)), value)
  }

  function MapCondition(d: Dialect, op: Op, value: string): Result<Piece, QueryError> {
    if d != Postgres && d != Mysql && d != SQLite then Err(UnsupportedDialect)
    else if op == HasKey then
      Ok(Piece(if d == Postgres then PgHasKey else if d == Mysql then MyHasKey else LiteHasKey, Str(value)))
    else if op == Contains then
      Ok(Piece(if d == Postgres then PgJsonContains else if d == Mysql then MyContains
               else LiteMapContains, Str(value)))
    else Err(Unsupported(op))
  }

  function ArrayCondition(shape: Shape, arg: ArrayArgument, value: string): Result<Piece, QueryError> {
    match arg
    case Elements(vs) => Ok(Piece(shape, Slice(vs)))
    case BadText => Err(BadValue2(value))
    case Panicking => Err(Panics)
  }

  ghost function PgListCondition(kind: Kind, op: Op, value: string, rt: Runtime): Result<Piece, QueryError> {
    if kind == MessageKind then
      if op == Contains || op == ContainsAll then Ok(Piece(PgJsonContains, Str(value)))
      else if LenOp(op) then LengthCondition(JsonbArrayLength, op, value)
      else Err(Unsupported(op))
    else if op == Contains then WithArg(PgElement(PgTypeOf(kind)), ParseScalarString(kind, value, rt), value)
    else if op == Overlap || op == ContainsAll then
      ArrayCondition(if op == Overlap then PgOverlap else PgContainsAll, ArrayArg(kind, value, rt), value)
    else if LenOp(op) then LengthCondition(Cardinality, op, value)
    else Err(Unsupported(op))
  }

  function LiteListCondition(kind: Kind, op: Op, value: string, rt: Runtime): Result<Piece, QueryError> {
    if op == Contains then WithArg(LiteElement, ParseScalarString(kind, value, rt), value)
    else if op == Overlap then Ok(Piece(LiteOverlap, Str(value)))
    else if op == ContainsAll then Ok(Piece(LiteContainsAll, Str(value)))
    else if LenOp(op) then LengthCondition(JsonArrayLength, op, value)
    else Err(Unsupported(op))
  }

  function MyListCondition(kind: Kind, op: Op, value: string, rt: Runtime): Result<Piece, QueryError> {
    if op == Contains then
      if kind == MessageKind then Ok(Piece(MyMessageElement, Str(value)))
      else WithArg(MyElement, ParseScalarString(kind, value, rt), value)
    else if op == Overlap then Ok(Piece(MyOverlaps, Str(value)))
    else if op == ContainsAll then Ok(Piece(MyContains, Str(value)))
    else if LenOp(op) then LengthCondition(JsonLength, op, value)
    else Err(Unsupported(op))
  }

  /** The condition an operator becomes, and its one argument. */
  ghost function Where2Condition(d: Dialect, field: FieldDesc, op: Op, value: string,
                                 rt: Runtime): Result<Piece, QueryError>
  {
    if field.IsMap() then MapCondition(d, op, value)
    else if !field.IsList() then
      if ScalarOp(op) then Ok(Piece(Compare(op), Str(value))) else Err(Unsupported(op))
    else match d
      case Postgres => PgListCondition(field.kind, op, value, rt)
      case SQLite => LiteListCondition(field.kind, op, value, rt)
      case Mysql => MyListCondition(field.kind, op, value, rt)
      case _ => Err(UnsupportedDialect)
  }

  method BuildPgListCondition(kind: Kind, op: Op, value: string, rt: Runtime) returns (r: Result<Piece, QueryError>)
    ensures r == PgListCondition(kind, op, value, rt)
  {
    if kind == MessageKind {
      if op == Contains || op == ContainsAll {
        return Ok(Piece(PgJsonContains, Str(value)));
      }
      if LenOp(op) {
        return LengthCondition(JsonbArrayLength, op, value);
      }
      return Err(Unsupported(op));
    }
    if op == Contains {
      return WithArg(PgElement(PgTypeOf(kind)), ParseScalarString(kind, value, rt), value);
    }
    if op == Overlap || op == ContainsAll {
      var arr := ParseScalarJSONArray(kind, value, rt);
      var shape := PgOverlap;
      if op == ContainsAll {
        shape := PgContainsAll;
      }
      return ArrayCondition(shape, arr, value);
    }
    if LenOp(op) {
      return LengthCondition(Cardinality, op, value);
    }
    r := Err(Unsupported(op));
  }

  /** buildWhere2ConditionForColumn. */
  method BuildWhere2ConditionForColumn(d: Dialect, field: FieldDesc, op: Op, value: string, rt: Runtime)
    returns (r: Result<Piece, QueryError>)
    ensures r == Where2Condition(d, field, op, value, rt)
  {
    if field.IsMap() {
      return MapCondition(d, op, value);
    }
    if !field.IsList() {
      if ScalarOp(op) {
        return Ok(Piece(Compare(op), Str(value)));
      }
      return Err(Unsupported(op));
    }
    match d {
      case Postgres => r := BuildPgListCondition(field.kind, op, value, rt);
      case SQLite => r := LiteListCondition(field.kind, op, value, rt);
      case Mysql => r := MyListCondition(field.kind, op, value, rt);
      case _ => r := Err(UnsupportedDialect);
    }
  }

  predicate NonEmptyArray(doc: Option<Json>) {
    match doc
    case Some(JArr(js)) => js != []
    case _ => false
  }

  lemma ArrayPanicsIff(shape: Shape, kind: Kind, value: string, rt: Runtime)
    ensures ArrayCondition(shape, ArrayArg(kind, value, rt), value) == Err(Panics)
            <==> NoArrayKind(kind) && NonEmptyArray(rt.jsonDoc(value))
  {
  }

  lemma PgPanicsIff(kind: Kind, op: Op, value: string, rt: Runtime)
    ensures PgListCondition(kind, op, value, rt) == Err(Panics)
            <==> kind == BytesKind && (op == Overlap || op == ContainsAll) && NonEmptyArray(rt.jsonDoc(value))
  {
    ArrayPanicsIff(if op == Overlap then PgOverlap else PgContainsAll, kind, value, rt);
  }

  lemma OthersNeverPanic(kind: Kind, op: Op, value: string, rt: Runtime)
    ensures LiteListCondition(kind, op, value, rt) != Err(Panics)
    ensures MyListCondition(kind, op, value, rt) != Err(Panics)
  {
  }

  /** Building the condition panics exactly for OVERLAP and CONTAINS_ALL on a PostgreSQL list of
      bytes with a JSON array that is not empty. */
  lemma PanicsIff(d: Dialect, field: FieldDesc, op: Op, value: string, rt: Runtime)
    ensures Where2Condition(d, field, op, value, rt) == Err(Panics)
            <==> d == Postgres && field.IsList() && field.kind == BytesKind && (op == Overlap || op == ContainsAll)
                 && NonEmptyArray(rt.jsonDoc(value))
  {
    if field.IsList() {
      match d {
        case Postgres => PgPanicsIff(field.kind, op, value, rt);
        case _ => OthersNeverPanic(field.kind, op, value, rt);
      }
    }
  }
}
