/** What the operators of a table query ask of a list or a map, and that the emitted conditions
    ask it, dialect by dialect. */
module Where2Meaning {
  import opened Prelude
  import opened Sqldb
  import opened Text
  import opened Message
  import opened Sql
  import opened Codec
  import opened Operand
  import opened Where2
  import ListCodec
  import Float64

  // ---------- What an operator asks ----------

  predicate CompareInts(op: Op, a: int, b: int) {
    match op
    case LenGt => a > b
    case LenGte => a >= b
    case LenLt => a < b
    case LenLte => a <= b
    case _ => false
  }

  ghost predicate AsksLength(op: Op, size: nat, value: string) {
    exists n :: Numeral(Trim(value), n) && CompareInts(op, size, n)
  }

  /** The value by which a JSON integer is compared: outside int64 the nearest binary64 number. */
  function NumberValue(n: int): int {
    if InInt64(n) then n else Float64.Round(n)
  }

  /** The integer that a text names, or else the element itself. */
  ghost function NamedOr(kind: Kind, text: string, f: Json): Json {
    if exists n :: Names(kind, text, JInt(n)) then var n :| Names(kind, text, JInt(n)); JInt(n) else f
  }

  /** What an element of a document asks for in a list or map of the kind: a number by its value, and
      on PostgreSQL the integer that a quoted text names. */
  ghost function AskedFor(d: Dialect, kind: Kind, f: Json, rt: Runtime): Json {
    if !NumberKind(kind) || d == Mysql then f
    else
      match f
      case JReal(x) => if x == NumberValue(x.Floor) as real then JInt(x.Floor) else f
      case JStr(s) => if d == Postgres then NamedOr(kind, s, f) else f
      case JBytes(bs) => if d == Postgres then NamedOr(kind, rt.base64(bs), f) else f
      case _ => f
  }

  /** What the elements of an array ask for. */
  ghost function AllAsked(d: Dialect, kind: Kind, fs: seq<Json>, rt: Runtime): (r: seq<Json>)
    ensures |r| == |fs| && forall j :: 0 <= j < |fs| ==> r[j] == AskedFor(d, kind, fs[j], rt)
  {
    seq(|fs|, j requires 0 <= j < |fs| => AskedFor(d, kind, fs[j], rt))
  }

  /** What an operator asks of a list, given as the JSON of its elements; `doc` is the JSON in the
      value text. */
  ghost predicate AsksOfList(d: Dialect, op: Op, kind: Kind, es: seq<Json>, value: string, doc: Option<Json>,
                             rt: Runtime)
  {
    match op
    case Contains => exists i :: 0 <= i < |es| && Names(kind, value, es[i])
    case Overlap => doc.Some? && doc.value.JArr? && Elems(es) * Elems(AllAsked(d, kind, doc.value.elems, rt)) != {}
    case ContainsAll => doc.Some? && doc.value.JArr? && Elems(AllAsked(d, kind, doc.value.elems, rt)) <= Elems(es)
    case _ => AsksLength(op, |es|, value)
  }

  /** What an operator asks of a map on SQLite, given as the JSON of its members. */
  ghost predicate AsksOfMap(op: Op, kind: Kind, m: map<string, Json>, value: string, doc: Option<Json>, rt: Runtime) {
    match op
    case HasKey => value in m
    case Contains => doc.Some? && doc.value.JObj? && forall k :: k in doc.value.members ==>
      k in m && m[k] == AskedFor(SQLite, kind, doc.value.members[k], rt)
    case _ => false
  }

  // ---------- Columns and documents ----------

  /** The JSON of a value of the kind. */
  predicate ElementOf(kind: Kind, j: Json) {
    match j
    case JBool(_) => kind == BoolKind
    case JInt(n) => NumberKind(kind) && InKind(kind, n)
    case JStr(_) => kind == StringKind
    case _ => false
  }

  ghost predicate ColumnOf(kind: Kind, es: seq<Json>) {
    forall i :: 0 <= i < |es| ==> ElementOf(kind, es[i])
  }

  lemma ListIsColumn(kind: Kind, vs: seq<GoVal>)
    requires PlainKind(kind) && ListCodec.ListOfKind(kind, vs)
    ensures ColumnOf(kind, ListCodec.JsonsOf(vs))
  {
  }

  predicate InInt64(n: int) {
    -TWO63 <= n < TWO63
  }

  /** The value of which an element is the JSON. */
  function ValueOf(kind: Kind, j: Json): (v: GoVal)
    requires ElementOf(kind, j)
    ensures ValueOfKind(kind, v) && JsonOf(v) == j
  {
    match j
    case JBool(b) => Bool(b)
    case JInt(n) => Int(n)
    case JStr(s) => Str(s)
  }

  // ---------- SQLite ----------

  /** The SQL value json_each gives for a JSON value: an integer outside int64 becomes a REAL, an
      array or an object its text. */
  function LiteValue(j: Json, rt: Runtime): Cell {
    match j
    case JNull => Null
    case JBool(b) => Val(Int(if b then 1 else 0))
    case JInt(n) => if InInt64(n) then Val(Int(n)) else Val(Real(Float64.Round(n) as real))
    case JReal(r) => Val(Real(r))
    case JStr(s) => Val(Str(s))
    case JBytes(bs) => Val(Str(rt.base64(bs)))
    case _ => Val(Str(rt.jsonText(j)))
  }

  /** The SQL value of an argument; SQLite has no booleans. */
  function LiteArg(v: GoVal): Cell {
    match v
    case Bool(b) => Val(Int(if b then 1 else 0))
    case _ => ToCell(v)
  }

  /** Equality of SQL values: NULL equals nothing, and numbers are equal by value. */
  predicate SqlEq(a: Cell, b: Cell) {
    match (a, b)
    case (Val(Int(n)), Val(Real(r))) => n as real == r
    case (Val(Real(r)), Val(Int(n))) => n as real == r
    case _ => a != Null && a == b
  }

  datatype Entry = Entry(key: Cell, value: Cell)

  /** The rows of json_each. */
  function JsonEach(j: Json, rt: Runtime): set<Entry> {
    match j
    case JArr(es) => set i | 0 <= i < |es| :: Entry(Val(Int(i)), LiteValue(es[i], rt))
    case JObj(m) => set k | k in m :: Entry(Val(Str(k)), LiteValue(m[k], rt))
    case _ => {Entry(Null, LiteValue(j, rt))}
  }

  /** What the text of a SQLite condition says of a column that holds JSON; `doc` is the JSON in
      the argument. */
  predicate LiteHolds(s: Shape, col: Json, arg: GoVal, doc: Json, rt: Runtime) {
    match s
    case LiteHasKey => exists e :: e in JsonEach(col, rt) && SqlEq(e.key, LiteArg(arg))
    case LiteElement => exists e :: e in JsonEach(col, rt) && SqlEq(e.value, LiteArg(arg))
    case LiteOverlap => exists a, b :: a in JsonEach(col, rt) && b in JsonEach(doc, rt) && SqlEq(a.value, b.value)
    case LiteContainsAll =>
      !exists b :: b in JsonEach(doc, rt) && !exists a :: a in JsonEach(col, rt) && SqlEq(a.value, b.value)
    case LiteMapContains =>
      !exists b :: b in JsonEach(doc, rt) &&
        !exists a :: a in JsonEach(col, rt) && SqlEq(a.key, b.key) && SqlEq(a.value, b.value)
    case Length(JsonArrayLength, op) => arg.Int? && CompareInts(op, if col.JArr? then |col.elems| else 0, arg.n)
    case _ => false
  }

  // ---------- The value of a CONTAINS ----------

  /** The text names no unsigned integer that has the sign bit of an int64. */
  ghost predicate NoBigNumber(kind: Kind, value: string) {
    kind == Uint64Kind ==> forall n :: Names(kind, value, JInt(n)) ==> n < TWO63
  }

  /** A text is read as the argument for exactly the values it names. */
  lemma {:induction false} TextRead(kind: Kind, value: string, v: GoVal, rt: Runtime)
    requires PlainKind(kind) && ValueOfKind(kind, v)
    ensures Names(kind, value, JsonOf(v)) <==> ParseScalarString(kind, value, rt) == Some(Sent(kind, v))
  {
    if v.Int? {
      IntegerRead(kind, value, v.n, rt);
    }
  }

  // ---------- What a dialect finds ----------

  /** The operators on lists of these kinds are described for this dialect. How a driver passes a
      boolean into a JSON array of MySQL is not part of this model. */
  predicate Described(d: Dialect, kind: Kind) {
    PlainKind(kind) && (d == SQLite || d == Postgres || (d == Mysql && kind != BoolKind))
  }

  /** The dialect takes this element of a list for this element of a document. */
  predicate TakenFor(d: Dialect, kind: Kind, e: Json, f: Json, rt: Runtime) {
    && ElementOf(kind, e)
    && match d
       case SQLite => SqlEq(LiteValue(e, rt), LiteValue(f, rt))
       case Postgres => Gives(kind, f, ValueOf(kind, e), rt)
       case _ => e == f
  }

  ghost predicate Found(d: Dialect, kind: Kind, es: seq<Json>, f: Json, rt: Runtime) {
    exists i :: 0 <= i < |es| && TakenFor(d, kind, es[i], f, rt)
  }

  ghost predicate FindsSome(d: Dialect, kind: Kind, es: seq<Json>, fs: seq<Json>, rt: Runtime) {
    exists j :: 0 <= j < |fs| && Found(d, kind, es, fs[j], rt)
  }

  ghost predicate FindsAll(d: Dialect, kind: Kind, es: seq<Json>, fs: seq<Json>, rt: Runtime) {
    forall j :: 0 <= j < |fs| ==> Found(d, kind, es, fs[j], rt)
  }

  /** The text names the element, and the dialect can find it. */
  predicate NamesHere(d: Dialect, kind: Kind, value: string, e: Json) {
    Names(kind, value, e) && (d != Postgres && e.JInt? ==> InInt64(e.n))
  }

  /** What a dialect finds in a list. */
  ghost predicate Finds(d: Dialect, op: Op, kind: Kind, es: seq<Json>, value: string, doc: Option<Json>, rt: Runtime) {
    match op
    case Contains => exists i :: 0 <= i < |es| && NamesHere(d, kind, value, es[i])
    case Overlap => doc.Some? && doc.value.JArr? && FindsSome(d, kind, es, doc.value.elems, rt)
    case ContainsAll => doc.Some? && doc.value.JArr? && FindsAll(d, kind, es, doc.value.elems, rt)
    case _ => AsksLength(op, |es|, value)
  }

  predicate MyScalars(es: seq<Json>) {
    forall i :: 0 <= i < |es| ==> es[i].JInt? || es[i].JStr? || es[i].JBool? || es[i].JNull?
  }

  /** The value text of an array operator holds an array; MySQL's comparison of its nested values
      and fractions is not part of this model. */
  ghost predicate ArrayFor(d: Dialect, op: Op, doc: Option<Json>) {
    op == Overlap || op == ContainsAll ==>
      doc.Some? && doc.value.JArr? && (d == Mysql ==> MyScalars(doc.value.elems))
  }

  /** The length operators compare with the number of the value text. */
  lemma LengthMeans(op: Op, size: nat, value: string)
    requires ParseInt(Trim(value), TWO63).Some?
    ensures AsksLength(op, size, value) <==> CompareInts(op, size, ParseInt(Trim(value), TWO63).value)
  {
    var n := ParseInt(Trim(value), TWO63).value;
    ParseIntMeans(Trim(value), TWO63, n);
    if m :| Numeral(Trim(value), m) && CompareInts(op, size, m) {
      NumeralUnique(Trim(value), m, n);
    }
  }

  function DocOf(doc: Option<Json>): Json {
    if doc.Some? then doc.value else JNull
  }

  // ---------- SQLite finds ----------

  /** SQLite finds an element exactly when it is the one named, unless that is a big number. */
  lemma LiteFinds(kind: Kind, value: string, e: Json, rt: Runtime)
    requires PlainKind(kind) && ElementOf(kind, e) && ParseScalarString(kind, value, rt).Some?
    ensures SqlEq(LiteValue(e, rt), LiteArg(ParseScalarString(kind, value, rt).value))
       <==> NamesHere(SQLite, kind, value, e)
  {
    TextRead(kind, value, ValueOf(kind, e), rt);
    if e.JInt? && !InInt64(e.n) {
      Float64.RoundAbove63(e.n);
    }
  }

  lemma ArrayEntry(es: seq<Json>, i: nat, rt: Runtime)
    requires i < |es|
    ensures Entry(Val(Int(i)), LiteValue(es[i], rt)) in JsonEach(JArr(es), rt)
  {
  }

  lemma LiteElementFinds(kind: Kind, value: string, es: seq<Json>, doc: Json, rt: Runtime)
    requires PlainKind(kind) && ColumnOf(kind, es) && ParseScalarString(kind, value, rt).Some?
    ensures LiteHolds(LiteElement, JArr(es), ParseScalarString(kind, value, rt).value, doc, rt)
       <==> exists i :: 0 <= i < |es| && NamesHere(SQLite, kind, value, es[i])
  {
    forall i | 0 <= i < |es|
      ensures SqlEq(LiteValue(es[i], rt), LiteArg(ParseScalarString(kind, value, rt).value))
         <==> NamesHere(SQLite, kind, value, es[i])
      ensures Entry(Val(Int(i)), LiteValue(es[i], rt)) in JsonEach(JArr(es), rt)
    {
      LiteFinds(kind, value, es[i], rt);
    }
  }

  /** json_each has a row equal to the document's element. */
  ghost predicate RowFor(es: seq<Json>, f: Json, rt: Runtime) {
    exists a :: a in JsonEach(JArr(es), rt) && SqlEq(a.value, LiteValue(f, rt))
  }

  lemma RowIsElement(kind: Kind, es: seq<Json>, f: Json, rt: Runtime)
    requires ColumnOf(kind, es)
    ensures RowFor(es, f, rt) <==> Found(SQLite, kind, es, f, rt)
  {
    if RowFor(es, f, rt) {
      var a :| a in JsonEach(JArr(es), rt) && SqlEq(a.value, LiteValue(f, rt));
      var i :| 0 <= i < |es| && a == Entry(Val(Int(i)), LiteValue(es[i], rt));
      assert TakenFor(SQLite, kind, es[i], f, rt);
    }
    if Found(SQLite, kind, es, f, rt) {
      var i :| 0 <= i < |es| && TakenFor(SQLite, kind, es[i], f, rt);
      ArrayEntry(es, i, rt);
    }
  }

  lemma LiteOverlapFinds(kind: Kind, es: seq<Json>, fs: seq<Json>, arg: GoVal, rt: Runtime)
    requires ColumnOf(kind, es)
    ensures LiteHolds(LiteOverlap, JArr(es), arg, JArr(fs), rt) <==> FindsSome(SQLite, kind, es, fs, rt)
  {
    if LiteHolds(LiteOverlap, JArr(es), arg, JArr(fs), rt) {
      var a, b :| a in JsonEach(JArr(es), rt) && b in JsonEach(JArr(fs), rt) && SqlEq(a.value, b.value);
      var j :| 0 <= j < |fs| && b == Entry(Val(Int(j)), LiteValue(fs[j], rt));
      RowIsElement(kind, es, fs[j], rt);
    }
    if FindsSome(SQLite, kind, es, fs, rt) {
      var j :| 0 <= j < |fs| && Found(SQLite, kind, es, fs[j], rt);
      RowIsElement(kind, es, fs[j], rt);
      ArrayEntry(fs, j, rt);
    }
  }

  lemma LiteContainsAllFinds(kind: Kind, es: seq<Json>, fs: seq<Json>, arg: GoVal, rt: Runtime)
    requires ColumnOf(kind, es)
    ensures LiteHolds(LiteContainsAll, JArr(es), arg, JArr(fs), rt) <==> FindsAll(SQLite, kind, es, fs, rt)
  {
    forall j | 0 <= j < |fs|
      ensures RowFor(es, fs[j], rt) <==> Found(SQLite, kind, es, fs[j], rt)
    {
      RowIsElement(kind, es, fs[j], rt);
    }
    if LiteHolds(LiteContainsAll, JArr(es), arg, JArr(fs), rt) {
      forall j | 0 <= j < |fs|
        ensures RowFor(es, fs[j], rt)
      {
        ArrayEntry(fs, j, rt);
      }
    }
  }

  /** The condition that SQLite has for an array operator finds what the operator is given. */
  lemma LiteArrayFinds(kind: Kind, op: Op, value: string, es: seq<Json>, doc: Option<Json>, rt: Runtime)
    requires ColumnOf(kind, es) && (op == Overlap || op == ContainsAll) && ArrayFor(SQLite, op, doc)
    ensures LiteHolds(if op == Overlap then LiteOverlap else LiteContainsAll, JArr(es), Str(value), DocOf(doc), rt)
       <==> Finds(SQLite, op, kind, es, value, doc, rt)
  {
    var fs := doc.value.elems;
    if op == Overlap {
      LiteOverlapFinds(kind, es, fs, Str(value), rt);
    } else {
      LiteContainsAllFinds(kind, es, fs, Str(value), rt);
    }
  }

  /** On SQLite the condition emitted for an operator holds of a stored list exactly when SQLite
      finds in it what the operator is given. */
  lemma LiteListMeans(field: FieldDesc, op: Op, value: string, es: seq<Json>, doc: Option<Json>, rt: Runtime)
    requires PlainKind(field.kind) && ColumnOf(field.kind, es) && ArrayFor(SQLite, op, doc)
    requires LiteListCondition(field.kind, op, value, rt).Ok?
    ensures var p := LiteListCondition(field.kind, op, value, rt).value;
            LiteHolds(p.shape, JArr(es), p.arg, DocOf(doc), rt) <==> Finds(SQLite, op, field.kind, es, value, doc, rt)
  {
    if op == Contains {
      LiteElementFinds(field.kind, value, es, DocOf(doc), rt);
    } else if op == Overlap || op == ContainsAll {
      LiteArrayFinds(field.kind, op, value, es, doc, rt);
    } else {
      LengthMeans(op, |es|, value);
    }
  }

  // ---------- MySQL ----------

  /** The JSON scalar of an argument of JSON_ARRAY. */
  function MyArg(v: GoVal): Json {
    match v
    case Int(n) => JInt(n)
    case Str(s) => JStr(s)
    case _ => JNull
  }

  /** What the JSON functions say of a column that holds an array of scalars (section 14.17.3 of the
      MySQL manual). */
  predicate MyHolds(s: Shape, col: seq<Json>, arg: GoVal, doc: Json) {
    match s
    case MyElement => MyArg(arg) in col
    case MyOverlaps => doc.JArr? && Elems(col) * Elems(doc.elems) != {}
    case MyContains => doc.JArr? && Elems(doc.elems) <= Elems(col)
    case Length(JsonLength, op) => arg.Int? && CompareInts(op, |col|, arg.n)
    case _ => false
  }

  lemma MyFinds(kind: Kind, value: string, e: Json, rt: Runtime)
    requires PlainKind(kind) && kind != BoolKind && ElementOf(kind, e) && ParseScalarString(kind, value, rt).Some?
    ensures e == MyArg(ParseScalarString(kind, value, rt).value)
            <==> NamesHere(Mysql, kind, value, e)
  {
    TextRead(kind, value, ValueOf(kind, e), rt);
  }

  lemma MyElementFinds(kind: Kind, value: string, es: seq<Json>, doc: Json, rt: Runtime)
    requires PlainKind(kind) && kind != BoolKind && ColumnOf(kind, es) && ParseScalarString(kind, value, rt).Some?
    ensures MyHolds(MyElement, es, ParseScalarString(kind, value, rt).value, doc)
            <==> exists i :: 0 <= i < |es| && NamesHere(Mysql, kind, value, es[i])
  {
    forall i | 0 <= i < |es|
      ensures es[i] == MyArg(ParseScalarString(kind, value, rt).value) <==> NamesHere(Mysql, kind, value, es[i])
    {
      MyFinds(kind, value, es[i], rt);
    }
  }

  lemma MyArrayFinds(kind: Kind, es: seq<Json>, fs: seq<Json>, rt: Runtime)
    requires ColumnOf(kind, es)
    ensures Elems(es) * Elems(fs) != {} <==> FindsSome(Mysql, kind, es, fs, rt)
    ensures Elems(fs) <= Elems(es) <==> FindsAll(Mysql, kind, es, fs, rt)
  {
    forall j | 0 <= j < |fs|
      ensures fs[j] in es <==> Found(Mysql, kind, es, fs[j], rt)
    {
      if fs[j] in es {
        var i :| 0 <= i < |es| && es[i] == fs[j];
        assert TakenFor(Mysql, kind, es[i], fs[j], rt);
      }
    }
    SharedElement(es, fs);
    AllIn(es, fs);
  }

  /** The condition that MySQL has for an array operator finds what the operator is given. */
  lemma MyArrayMeans(kind: Kind, op: Op, value: string, es: seq<Json>, arg: GoVal, doc: Option<Json>, rt: Runtime)
    requires ColumnOf(kind, es) && (op == Overlap || op == ContainsAll) && ArrayFor(Mysql, op, doc)
    ensures MyHolds(if op == Overlap then MyOverlaps else MyContains, es, arg, DocOf(doc))
       <==> Finds(Mysql, op, kind, es, value, doc, rt)
  {
    MyArrayFinds(kind, es, doc.value.elems, rt);
  }

  /** On MySQL the condition emitted for an operator holds of a stored list exactly when MySQL finds
      in it what the operator is given. */
  lemma MyListMeans(field: FieldDesc, op: Op, value: string, es: seq<Json>, doc: Option<Json>, rt: Runtime)
    requires PlainKind(field.kind) && field.kind != BoolKind && ColumnOf(field.kind, es) && ArrayFor(Mysql, op, doc)
    requires MyListCondition(field.kind, op, value, rt).Ok?
    ensures var p := MyListCondition(field.kind, op, value, rt).value;
            MyHolds(p.shape, es, p.arg, DocOf(doc)) <==> Finds(Mysql, op, field.kind, es, value, doc, rt)
  {
    if op == Contains {
      MyElementFinds(field.kind, value, es, DocOf(doc), rt);
    } else if LenOp(op) {
      LengthMeans(op, |es|, value);
    } else {
      MyArrayMeans(field.kind, op, value, es, Str(value), doc, rt);
    }
  }

  // ---------- PostgreSQL ----------

  /** The element type holds the value. */
  predicate HasType(t: PgType, v: GoVal) {
    match t
    case Boolean => v.Bool?
    case Integer => v.Int? && -TWO31 <= v.n < TWO31
    case BigInt => v.Int? && InInt64(v.n)
    case TextType => v.Str?
    case _ => true
  }

  /** A kind of integers has the type integer exactly when that holds every value of the kind, and
      bigint otherwise. */
  lemma IntegerTypeIff(kind: Kind)
    requires NumberKind(kind)
    ensures PgTypeOf(kind) == Integer <==> forall n :: InKind(kind, n) ==> HasType(Integer, Int(n))
    ensures PgTypeOf(kind) != Integer ==> PgTypeOf(kind) == BigInt
  {
    assert kind == Int64Kind || kind == Uint64Kind || kind == Uint32Kind ==>
        InKind(kind, TWO31) && !HasType(Integer, Int(TWO31));
  }

  /** The element type of a list's column holds every stored element. */
  lemma StoredHasType(kind: Kind, vs: seq<GoVal>, i: nat)
    requires PlainKind(kind) && ListCodec.ListOfKind(kind, vs) && i < |vs|
    ensures HasType(PgTypeOf(kind), ListCodec.StoredPg(kind, vs)[i])
  {
    StoredIsSent(kind, vs, i);
  }

  /** What the array operators say of a column that holds the elements col, none of them NULL
      (section 9.19 of the PostgreSQL manual). */
  predicate PgHolds(s: Shape, col: seq<GoVal>, arg: GoVal) {
    match s
    case PgElement(t) => HasType(t, arg) && arg in col
    case PgOverlap => arg.Slice? && Elems(col) * Elems(arg.elems) != {}
    case PgContainsAll => arg.Slice? && Elems(arg.elems) <= Elems(col)
    case Length(Cardinality, op) => arg.Int? && CompareInts(op, |col|, arg.n)
    case _ => false
  }

  lemma StoredIsSent(kind: Kind, vs: seq<GoVal>, i: nat)
    requires i < |vs|
    ensures ListCodec.StoredPg(kind, vs)[i] == Sent(kind, vs[i])
  {
  }

  /** A value of a kind is one an element can give, and what its JSON is of. */
  lemma {:induction false} ValueBack(kind: Kind, v: GoVal)
    requires PlainKind(kind) && ValueOfKind(kind, v)
    ensures Given(kind, v) && ElementOf(kind, JsonOf(v)) && ValueOf(kind, JsonOf(v)) == v
  {
  }

  lemma TakenOnPg(kind: Kind, e: Json, f: Json, rt: Runtime)
    requires ElementOf(kind, e)
    ensures TakenFor(Postgres, kind, e, f, rt) <==> Gives(kind, f, ValueOf(kind, e), rt)
  {
  }

  lemma {:induction false} SentSame(kind: Kind, v: GoVal, f: Json, rt: Runtime)
    requires PlainKind(kind) && Prints(rt) && ValueOfKind(kind, v)
    ensures ReadAs(kind, f, Sent(kind, v), rt) <==> TakenFor(Postgres, kind, JsonOf(v), f, rt)
  {
    ValueBack(kind, v);
    ElementRead(kind, f, v, rt);
    TakenOnPg(kind, JsonOf(v), f, rt);
  }

  /** A stored element equals an argument element exactly when the JSON element gives it. */
  lemma PgSame(kind: Kind, vs: seq<GoVal>, i: nat, f: Json, rt: Runtime)
    requires PlainKind(kind) && Prints(rt) && ListCodec.ListOfKind(kind, vs) && i < |vs|
    ensures ReadAs(kind, f, ListCodec.StoredPg(kind, vs)[i], rt)
       <==> TakenFor(Postgres, kind, ListCodec.JsonsOf(vs)[i], f, rt)
  {
    StoredIsSent(kind, vs, i);
    SentSame(kind, vs[i], f, rt);
  }

  lemma PgElementFinds(kind: Kind, value: string, vs: seq<GoVal>, rt: Runtime)
    requires PlainKind(kind) && ListCodec.ListOfKind(kind, vs) && ParseScalarString(kind, value, rt).Some?
    ensures ParseScalarString(kind, value, rt).value in ListCodec.StoredPg(kind, vs)
       <==> exists i :: 0 <= i < |vs| && NamesHere(Postgres, kind, value, ListCodec.JsonsOf(vs)[i])
  {
    forall i | 0 <= i < |vs|
      ensures ParseScalarString(kind, value, rt).value == ListCodec.StoredPg(kind, vs)[i]
              <==> NamesHere(Postgres, kind, value, ListCodec.JsonsOf(vs)[i])
    {
      StoredIsSent(kind, vs, i);
      TextRead(kind, value, vs[i], rt);
    }
  }

  /** The elements of an argument are the readings of the JSON elements. */
  ghost predicate Readings(kind: Kind, xs: seq<GoVal>, js: seq<Json>, rt: Runtime) {
    |xs| == |js| && forall j :: 0 <= j < |js| ==> ReadAs(kind, js[j], xs[j], rt)
  }

  lemma PgFound(kind: Kind, vs: seq<GoVal>, x: GoVal, f: Json, rt: Runtime)
    requires PlainKind(kind) && Prints(rt) && ListCodec.ListOfKind(kind, vs) && ReadAs(kind, f, x, rt)
    ensures x in ListCodec.StoredPg(kind, vs) <==> Found(Postgres, kind, ListCodec.JsonsOf(vs), f, rt)
  {
    forall i | 0 <= i < |vs|
      ensures x == ListCodec.StoredPg(kind, vs)[i] <==> TakenFor(Postgres, kind, ListCodec.JsonsOf(vs)[i], f, rt)
    {
      PgSame(kind, vs, i, f, rt);
    }
  }

  lemma PgAllFound(kind: Kind, vs: seq<GoVal>, xs: seq<GoVal>, js: seq<Json>, rt: Runtime)
    requires PlainKind(kind) && Prints(rt) && ListCodec.ListOfKind(kind, vs) && Readings(kind, xs, js, rt)
    ensures forall j :: 0 <= j < |js| ==>
              (xs[j] in ListCodec.StoredPg(kind, vs) <==> Found(Postgres, kind, ListCodec.JsonsOf(vs), js[j], rt))
  {
    forall j | 0 <= j < |js|
      ensures xs[j] in ListCodec.StoredPg(kind, vs) <==> Found(Postgres, kind, ListCodec.JsonsOf(vs), js[j], rt)
    {
      PgFound(kind, vs, xs[j], js[j], rt);
    }
  }

  lemma PgOverlapFinds(kind: Kind, vs: seq<GoVal>, xs: seq<GoVal>, js: seq<Json>, rt: Runtime)
    requires PlainKind(kind) && Prints(rt) && ListCodec.ListOfKind(kind, vs) && Readings(kind, xs, js, rt)
    ensures PgHolds(PgOverlap, ListCodec.StoredPg(kind, vs), Slice(xs))
       <==> FindsSome(Postgres, kind, ListCodec.JsonsOf(vs), js, rt)
  {
    PgAllFound(kind, vs, xs, js, rt);
    SharedElement(ListCodec.StoredPg(kind, vs), xs);
  }

  lemma PgContainsAllFinds(kind: Kind, vs: seq<GoVal>, xs: seq<GoVal>, js: seq<Json>, rt: Runtime)
    requires PlainKind(kind) && Prints(rt) && ListCodec.ListOfKind(kind, vs) && Readings(kind, xs, js, rt)
    ensures PgHolds(PgContainsAll, ListCodec.StoredPg(kind, vs), Slice(xs))
       <==> FindsAll(Postgres, kind, ListCodec.JsonsOf(vs), js, rt)
  {
    PgAllFound(kind, vs, xs, js, rt);
    AllIn(ListCodec.StoredPg(kind, vs), xs);
  }

  function PgArrayShape(op: Op): Shape {
    if op == Overlap then PgOverlap else PgContainsAll
  }

  /** What an accepted array argument is. */
  lemma PgArgument(kind: Kind, op: Op, value: string, rt: Runtime) returns (xs: seq<GoVal>, js: seq<Json>)
    requires PlainKind(kind) && (op == Overlap || op == ContainsAll)
    requires PgListCondition(kind, op, value, rt).Ok? && ArrayFor(Postgres, op, rt.jsonDoc(value))
    ensures rt.jsonDoc(value) == Some(JArr(js)) && Readings(kind, xs, js, rt)
    ensures PgListCondition(kind, op, value, rt).value == Piece(PgArrayShape(op), Slice(xs))
  {
    js, xs := rt.jsonDoc(value).value.elems, ArrayArg(kind, value, rt).vs;
  }

  /** On PostgreSQL the condition emitted for an operator holds of a stored list exactly when the
      original list has what the text names or the array elements give. */
  lemma PgListMeans(field: FieldDesc, op: Op, value: string, vs: seq<GoVal>, rt: Runtime)
    requires PlainKind(field.kind) && Prints(rt) && ListCodec.ListOfKind(field.kind, vs)
    requires PgListCondition(field.kind, op, value, rt).Ok? && ArrayFor(Postgres, op, rt.jsonDoc(value))
    ensures var p := PgListCondition(field.kind, op, value, rt).value;
            PgHolds(p.shape, ListCodec.StoredPg(field.kind, vs), p.arg)
            <==> Finds(Postgres, op, field.kind, ListCodec.JsonsOf(vs), value, rt.jsonDoc(value), rt)
  {
    if op == Contains {
      PgElementFinds(field.kind, value, vs, rt);
      forall i | 0 <= i < |vs|
        ensures HasType(PgTypeOf(field.kind), ListCodec.StoredPg(field.kind, vs)[i])
      {
        StoredHasType(field.kind, vs, i);
      }
    } else if op == Overlap || op == ContainsAll {
      var xs, js := PgArgument(field.kind, op, value, rt);
      if op == Overlap {
        PgOverlapFinds(field.kind, vs, xs, js, rt);
      } else {
        PgContainsAllFinds(field.kind, vs, xs, js, rt);
      }
    } else {
      LengthMeans(op, |vs|, value);
    }
  }

  /** OVERLAP and CONTAINS_ALL on PostgreSQL are accepted exactly when the text holds an array of
      which every element gives a list element. */
  lemma PgArrayAccepted(field: FieldDesc, op: Op, value: string, rt: Runtime)
    requires PlainKind(field.kind) && Prints(rt) && (op == Overlap || op == ContainsAll)
    ensures PgListCondition(field.kind, op, value, rt).Ok? <==>
            ArrayOf(value, rt).Some? && AllGive(field.kind, ArrayOf(value, rt).value, rt)
  {
    ArrayReadIff(field.kind, value, rt);
  }

  /** At most six digits, and no sign if the kind has none. */
  predicate IntegerTaken(kind: Kind, n: int) {
    Short(n) && (UnsignedKind(kind) ==> n >= 0)
  }

  lemma IntegerGiving(kind: Kind, n: int, rt: Runtime)
    requires NumberKind(kind)
    ensures Giving(kind, JInt(n), rt) <==> IntegerTaken(kind, n)
  {
    assert Gives(kind, JInt(n), Int(n), rt) <==> IntegerTaken(kind, n);
  }

  /** An array of integers is accepted exactly when each has at most six digits, and no sign if the
      kind has none. */
  lemma PgIntegersAccepted(field: FieldDesc, op: Op, value: string, js: seq<Json>, rt: Runtime)
    requires NumberKind(field.kind) && Prints(rt) && (op == Overlap || op == ContainsAll)
    requires rt.jsonDoc(value) == Some(JArr(js)) && forall j :: 0 <= j < |js| ==> js[j].JInt?
    ensures PgListCondition(field.kind, op, value, rt).Ok?
            <==> forall j :: 0 <= j < |js| ==> IntegerTaken(field.kind, js[j].n)
  {
    PgArrayAccepted(field, op, value, rt);
    forall j | 0 <= j < |js|
      ensures Giving(field.kind, js[j], rt) <==> IntegerTaken(field.kind, js[j].n)
    {
      IntegerGiving(field.kind, js[j].n, rt);
    }
  }

  /** `[1000000]` is refused, for Go prints the decoded number as 1e+06. */
  lemma MillionIsRefused(field: FieldDesc, op: Op, value: string, rt: Runtime)
    requires NumberKind(field.kind) && Prints(rt) && (op == Overlap || op == ContainsAll)
    requires rt.jsonDoc(value) == Some(JArr([JInt(1_000_000)]))
    ensures PgListCondition(field.kind, op, value, rt).Err?
  {
    var js := [JInt(1_000_000)];
    PgIntegersAccepted(field, op, value, js, rt);
    assert !IntegerTaken(field.kind, js[0].n);
  }

  // ---------- All dialects ----------

  /** What a condition says on each dialect of the column that stores a list. */
  ghost predicate ListHolds(d: Dialect, kind: Kind, p: Piece, vs: seq<GoVal>, doc: Option<Json>, rt: Runtime) {
    match d
    case SQLite => LiteHolds(p.shape, JArr(ListCodec.JsonsOf(vs)), p.arg, DocOf(doc), rt)
    case Mysql => MyHolds(p.shape, ListCodec.JsonsOf(vs), p.arg, DocOf(doc))
    case Postgres => PgHolds(p.shape, ListCodec.StoredPg(kind, vs), p.arg)
    case _ => false
  }

  /** On every dialect the condition emitted for an operator holds of a stored list exactly when the
      dialect finds in it what the operator is given. */
  lemma ListConditionFinds(d: Dialect, field: FieldDesc, op: Op, value: string, vs: seq<GoVal>, rt: Runtime)
    requires field.IsList() && Described(d, field.kind) && ListCodec.ListOfKind(field.kind, vs) && Prints(rt)
    requires Where2Condition(d, field, op, value, rt).Ok? && ArrayFor(d, op, rt.jsonDoc(value))
    ensures ListHolds(d, field.kind, Where2Condition(d, field, op, value, rt).value, vs, rt.jsonDoc(value), rt)
       <==> Finds(d, op, field.kind, ListCodec.JsonsOf(vs), value, rt.jsonDoc(value), rt)
  {
    ListIsColumn(field.kind, vs);
    match d {
      case SQLite => LiteListMeans(field, op, value, ListCodec.JsonsOf(vs), rt.jsonDoc(value), rt);
      case Mysql => MyListMeans(field, op, value, ListCodec.JsonsOf(vs), rt.jsonDoc(value), rt);
      case Postgres => PgListMeans(field, op, value, vs, rt);
    }
  }

  // ---------- Maps on SQLite ----------

  ghost predicate MembersOf(kind: Kind, m: map<string, Json>) {
    forall k :: k in m ==> ElementOf(kind, m[k])
  }

  ghost predicate MemberFound(kind: Kind, m: map<string, Json>, k: string, f: Json, rt: Runtime) {
    k in m && TakenFor(SQLite, kind, m[k], f, rt)
  }

  /** What SQLite finds in a map. */
  ghost predicate MapFinds(op: Op, kind: Kind, m: map<string, Json>, value: string, doc: Option<Json>, rt: Runtime) {
    match op
    case HasKey => value in m
    case Contains =>
      doc.Some? && doc.value.JObj? &&
      forall k :: k in doc.value.members ==> MemberFound(kind, m, k, doc.value.members[k], rt)
    case _ => false
  }

  ghost predicate ObjectFor(op: Op, doc: Option<Json>) {
    op == Contains ==> doc.Some? && doc.value.JObj?
  }

  lemma ObjectEntry(m: map<string, Json>, k: string, rt: Runtime)
    requires k in m
    ensures Entry(Val(Str(k)), LiteValue(m[k], rt)) in JsonEach(JObj(m), rt)
  {
  }

  /** json_each has a row equal to the document's member. */
  ghost predicate RowForMember(m: map<string, Json>, k: string, f: Json, rt: Runtime) {
    exists a :: a in JsonEach(JObj(m), rt) && SqlEq(a.key, Val(Str(k))) && SqlEq(a.value, LiteValue(f, rt))
  }

  lemma RowIsMember(kind: Kind, m: map<string, Json>, k: string, f: Json, rt: Runtime)
    requires MembersOf(kind, m)
    ensures RowForMember(m, k, f, rt) <==> MemberFound(kind, m, k, f, rt)
  {
    if MemberFound(kind, m, k, f, rt) {
      ObjectEntry(m, k, rt);
    }
  }

  lemma LiteMapFinds(kind: Kind, m: map<string, Json>, g: map<string, Json>, arg: GoVal, rt: Runtime)
    requires MembersOf(kind, m)
    ensures LiteHolds(LiteMapContains, JObj(m), arg, JObj(g), rt)
       <==> forall k :: k in g ==> MemberFound(kind, m, k, g[k], rt)
  {
    forall k | k in g
      ensures RowForMember(m, k, g[k], rt) <==> MemberFound(kind, m, k, g[k], rt)
    {
      RowIsMember(kind, m, k, g[k], rt);
    }
    if LiteHolds(LiteMapContains, JObj(m), arg, JObj(g), rt) {
      forall k | k in g
        ensures RowForMember(m, k, g[k], rt)
      {
        ObjectEntry(g, k, rt);
      }
    }
  }

  lemma LiteHasKeyMeans(m: map<string, Json>, key: string, doc: Json, rt: Runtime)
    ensures LiteHolds(LiteHasKey, JObj(m), Str(key), doc, rt) <==> key in m
  {
    if key in m {
      ObjectEntry(m, key, rt);
    }
  }

  /** On SQLite the condition emitted for a map field holds exactly when SQLite finds in the map what
      the operator is given. */
  lemma MapConditionFinds(field: FieldDesc, op: Op, value: string, m: map<string, Json>, rt: Runtime)
    requires field.IsMap() && Where2Condition(SQLite, field, op, value, rt).Ok?
    requires MembersOf(field.kind, m) && ObjectFor(op, rt.jsonDoc(value))
    ensures var p := Where2Condition(SQLite, field, op, value, rt).value;
            LiteHolds(p.shape, JObj(m), p.arg, DocOf(rt.jsonDoc(value)), rt)
            <==> MapFinds(op, field.kind, m, value, rt.jsonDoc(value), rt)
  {
    if op == HasKey {
      LiteHasKeyMeans(m, value, DocOf(rt.jsonDoc(value)), rt);
    } else {
      LiteMapFinds(field.kind, m, rt.jsonDoc(value).value.members, Str(value), rt);
    }
  }
}
