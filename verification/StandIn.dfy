/** The value of a list or map that a dialect takes for an element of a document, read off the
    element: at most one, except that SQLite does not tell some big numbers apart. */
module StandIn {
  import opened Prelude
  import opened Sqldb
  import opened Text
  import opened Message
  import opened Sql
  import opened Codec
  import opened Operand
  import opened Where2Meaning
  import Float64

  /** PostgreSQL has accepted the element. */
  predicate Accepted(d: Dialect, kind: Kind, f: Json, rt: Runtime) {
    d == Postgres ==> ArrayElement(kind, f, rt).Some?
  }

  ghost predicate AllAccepted(d: Dialect, kind: Kind, fs: seq<Json>, rt: Runtime) {
    forall j :: 0 <= j < |fs| ==> Accepted(d, kind, fs[j], rt)
  }

  // ---------- Numbers of SQLite ----------

  predicate InUint64(n: int) {
    0 <= n < TWO64
  }

  /** Numbers that SQLite compares as REAL values. */
  predicate BigNumber(n: int) {
    TWO63 <= n < TWO64
  }

  /** The value is a big number of the column. */
  predicate Big(d: Dialect, kind: Kind, g: Json) {
    d == SQLite && kind == Uint64Kind && g.JInt? && BigNumber(g.n)
  }

  /** The dialect does not tell the two values apart. */
  predicate Same(d: Dialect, kind: Kind, e: Json, g: Json) {
    e == g || (Big(d, kind, e) && Big(d, kind, g) && Float64.Round(e.n) == Float64.Round(g.n))
  }

  lemma BigRounds(n: int)
    requires BigNumber(n)
    ensures TWO63 <= Float64.Round(n) <= TWO64
    ensures Float64.Round(TWO64 - 1) == TWO64
  {
    Float64.TopRound(n);
    Float64.RoundAbove63(n);
  }

  /** Equality of numbers on SQLite. */
  lemma SameNumber(m: int, n: int)
    requires InUint64(m) && InUint64(n)
    ensures NumberValue(m) == NumberValue(n) <==> Same(SQLite, Uint64Kind, JInt(m), JInt(n))
  {
    if BigNumber(m) {
      BigRounds(m);
    }
    if BigNumber(n) {
      BigRounds(n);
    }
  }

  /** The number of the kind that has the given value. */
  function NumberOf(kind: Kind, x: real): Option<Json> {
    if InKind(kind, x.Floor) && NumberValue(x.Floor) as real == x then Some(JInt(x.Floor))
    else if kind == Uint64Kind && x == TWO64 as real then Some(JInt(TWO64 - 1))
    else None
  }

  // ---------- The stand-in ----------

  function LiteBool(v: Cell): Option<Json> {
    match v
    case Val(Int(n)) => if n == 0 || n == 1 then Some(JBool(n == 1)) else None
    case Val(Real(x)) => if x == 0.0 || x == 1.0 then Some(JBool(x == 1.0)) else None
    case _ => None
  }

  function LiteString(v: Cell): Option<Json> {
    match v
    case Val(Str(s)) => Some(JStr(s))
    case _ => None
  }

  function LiteNumber(kind: Kind, f: Json, v: Cell): Option<Json> {
    if f.JInt? && InKind(kind, f.n) then Some(f)
    else match v
      case Val(Int(n)) => NumberOf(kind, n as real)
      case Val(Real(x)) => NumberOf(kind, x)
      case _ => None
  }

  function LiteStanding(kind: Kind, f: Json, rt: Runtime): Option<Json> {
    var v := LiteValue(f, rt);
    if kind == BoolKind then LiteBool(v) else if kind == StringKind then LiteString(v) else LiteNumber(kind, f, v)
  }

  function IfElement(kind: Kind, g: Json): Option<Json> {
    if ElementOf(kind, g) then Some(g) else None
  }

  /** The value of the kind that the dialect takes for an element of a document. */
  ghost function Standing(d: Dialect, kind: Kind, f: Json, rt: Runtime): Option<Json> {
    match d
    case SQLite => LiteStanding(kind, f, rt)
    case Postgres =>
      if f == JNull then if kind == BoolKind then Some(JBool(false)) else if kind == StringKind then Some(JStr(""))
      else None
      else IfElement(kind, AskedFor(d, kind, f, rt))
    case _ => IfElement(kind, f)
  }

  // ---------- SQLite ----------

  lemma RealOfBig(n: int)
    requires !InInt64(n)
    ensures Float64.Round(n) >= TWO63 || Float64.Round(n) <= -TWO63
  {
    if n >= TWO63 {
      Float64.RoundAbove63(n);
    } else {
      Float64.RoundAbove63(-n);
    }
  }

  lemma {:induction false} LiteBoolTaken(e: Json, f: Json, rt: Runtime)
    ensures TakenFor(SQLite, BoolKind, e, f, rt)
            <==> LiteStanding(BoolKind, f, rt).Some? && e == LiteStanding(BoolKind, f, rt).value
  {
    if f.JInt? && !InInt64(f.n) {
      RealOfBig(f.n);
    }
  }

  lemma {:induction false} LiteStringTaken(e: Json, f: Json, rt: Runtime)
    ensures TakenFor(SQLite, StringKind, e, f, rt)
            <==> LiteStanding(StringKind, f, rt).Some? && e == LiteStanding(StringKind, f, rt).value
  {
  }

  /** The SQL value is a number, and which. */
  predicate HasNumber(v: Cell, x: real) {
    (v == Val(Int(x.Floor)) && x == x.Floor as real) || v == Val(Real(x))
  }

  lemma {:induction false} NumberIsEqual(kind: Kind, n: int, v: Cell, x: real, rt: Runtime)
    requires HasNumber(v, x)
    ensures SqlEq(LiteValue(JInt(n), rt), v) <==> NumberValue(n) as real == x
  {
  }

  lemma SameOfKind(kind: Kind, n: int, g: int)
    requires NumberKind(kind) && InKind(kind, n) && InKind(kind, g)
    ensures NumberValue(n) == NumberValue(g) <==> Same(SQLite, kind, JInt(n), JInt(g))
  {
    if kind == Uint64Kind {
      SameNumber(n, g);
    }
  }

  lemma TopOfKind(n: int)
    requires InUint64(n)
    ensures NumberValue(n) == TWO64 <==> Same(SQLite, Uint64Kind, JInt(n), JInt(TWO64 - 1))
  {
    BigRounds(TWO64 - 1);
  }

  /** The value of a number is that of a number of the kind, or 2^64. */
  lemma ValueOfNumber(kind: Kind, n: int)
    requires NumberKind(kind) && InKind(kind, n)
    ensures var y := NumberValue(n);
            (InKind(kind, y) && NumberValue(y) == y) || (kind == Uint64Kind && y == TWO64)
  {
    if BigNumber(n) {
      BigRounds(n);
      Float64.RoundTwice(n);
    }
  }

  /** A number of the kind has the value exactly when it is the one given, up to what SQLite tells
      apart. */
  lemma NumberOfMeans(kind: Kind, n: int, x: real)
    requires NumberKind(kind) && InKind(kind, n)
    ensures NumberValue(n) as real == x
       <==> NumberOf(kind, x).Some? && Same(SQLite, kind, JInt(n), NumberOf(kind, x).value)
  {
    var y := x.Floor;
    ValueOfNumber(kind, n);
    if InKind(kind, y) && NumberValue(y) as real == x {
      SameOfKind(kind, n, y);
    } else if kind == Uint64Kind && x == TWO64 as real {
      TopOfKind(n);
    }
  }

  lemma LiteOtherTaken(kind: Kind, n: int, f: Json, v: Cell, rt: Runtime)
    requires NumberKind(kind) && InKind(kind, n) && v == LiteValue(f, rt) && !(f.JInt? && InKind(kind, f.n))
    ensures var g := LiteNumber(kind, f, v);
            SqlEq(LiteValue(JInt(n), rt), v) <==> g.Some? && Same(SQLite, kind, JInt(n), g.value)
  {
    match v {
      case Val(Int(m)) =>
        NumberIsEqual(kind, n, v, m as real, rt);
        NumberOfMeans(kind, n, m as real);
      case Val(Real(x)) =>
        NumberIsEqual(kind, n, v, x, rt);
        NumberOfMeans(kind, n, x);
      case _ =>
    }
  }

  lemma {:induction false} LiteNumberTaken(kind: Kind, n: int, f: Json, rt: Runtime)
    requires NumberKind(kind) && InKind(kind, n)
    ensures var g := LiteNumber(kind, f, LiteValue(f, rt));
            SqlEq(LiteValue(JInt(n), rt), LiteValue(f, rt)) <==> g.Some? && Same(SQLite, kind, JInt(n), g.value)
  {
    if f.JInt? && InKind(kind, f.n) {
      NumberIsEqual(kind, n, LiteValue(f, rt), NumberValue(f.n) as real, rt);
      SameOfKind(kind, n, f.n);
    } else {
      LiteOtherTaken(kind, n, f, LiteValue(f, rt), rt);
    }
  }

  lemma NumberOfIsElement(kind: Kind, x: real)
    requires NumberKind(kind)
    ensures NumberOf(kind, x).Some? ==> NumberOf(kind, x).value.JInt? && ElementOf(kind, NumberOf(kind, x).value)
  {
  }

  lemma LiteNumberIsElement(kind: Kind, f: Json, v: Cell)
    requires NumberKind(kind)
    ensures LiteNumber(kind, f, v).Some? ==>
              LiteNumber(kind, f, v).value.JInt? && ElementOf(kind, LiteNumber(kind, f, v).value)
  {
    match v {
      case Val(Int(m)) => NumberOfIsElement(kind, m as real);
      case Val(Real(x)) => NumberOfIsElement(kind, x);
      case _ =>
    }
  }

  lemma SameIsElement(d: Dialect, kind: Kind, e: Json, g: Json)
    requires Same(d, kind, e, g) && ElementOf(kind, g)
    ensures ElementOf(kind, e) && (g.JInt? ==> e.JInt?)
  {
  }

  lemma {:induction false} LiteNumberStands(kind: Kind, e: Json, f: Json, rt: Runtime)
    requires NumberKind(kind)
    ensures var g := LiteNumber(kind, f, LiteValue(f, rt));
            ElementOf(kind, e) && SqlEq(LiteValue(e, rt), LiteValue(f, rt))
            <==> g.Some? && Same(SQLite, kind, e, g.value)
  {
    var g := LiteNumber(kind, f, LiteValue(f, rt));
    LiteNumberIsElement(kind, f, LiteValue(f, rt));
    if ElementOf(kind, e) {
      LiteNumberTaken(kind, e.n, f, rt);
    } else if g.Some? && Same(SQLite, kind, e, g.value) {
      SameIsElement(SQLite, kind, e, g.value);
    }
  }

  lemma {:induction false} LiteTaken(kind: Kind, e: Json, f: Json, rt: Runtime)
    requires PlainKind(kind)
    ensures var g := LiteStanding(kind, f, rt);
            TakenFor(SQLite, kind, e, f, rt) <==> g.Some? && Same(SQLite, kind, e, g.value)
  {
    if kind == BoolKind {
      LiteBoolTaken(e, f, rt);
    } else if kind == StringKind {
      LiteStringTaken(e, f, rt);
    } else {
      LiteNumberStands(kind, e, f, rt);
    }
  }

  // ---------- PostgreSQL ----------

  lemma NamesNumeral(kind: Kind, text: string, n: int)
    requires NumberKind(kind) && Names(kind, text, JInt(n))
    ensures Numeral(Trim(text), n)
  {
  }

  lemma NamedOrIs(kind: Kind, text: string, f: Json, n: int)
    requires NumberKind(kind) && Names(kind, text, JInt(n))
    ensures NamedOr(kind, text, f) == JInt(n)
  {
    var m :| Names(kind, text, JInt(m)) && NamedOr(kind, text, f) == JInt(m);
    NamesNumeral(kind, text, m);
    NamesNumeral(kind, text, n);
    NumeralUnique(Trim(text), m, n);
  }

  /** An element gives the integer it asks for, if that is short or quoted. */
  lemma AskedIsGiven(kind: Kind, f: Json, n: int, rt: Runtime)
    requires NumberKind(kind) && GivesInteger(kind, f, n, rt)
    ensures AskedFor(Postgres, kind, f, rt) == JInt(n)
  {
    match f {
      case JStr(s) => NamedOrIs(kind, s, f, n);
      case JBytes(bs) => NamedOrIs(kind, rt.base64(bs), f, n);
      case _ =>
    }
  }

  lemma AcceptedGives(kind: Kind, f: Json, rt: Runtime) returns (n: int)
    requires NumberKind(kind) && Prints(rt) && Accepted(Postgres, kind, f, rt)
    ensures GivesInteger(kind, f, n, rt)
  {
    var v := ElementReadable(kind, f, rt);
    n := v.n;
  }

  lemma {:induction false} NumberTaken(kind: Kind, e: Json, f: Json, rt: Runtime)
    requires NumberKind(kind)
    ensures TakenFor(Postgres, kind, e, f, rt)
       <==> e.JInt? && InKind(kind, e.n) && GivesInteger(kind, f, e.n, rt)
  {
  }

  lemma {:induction false} PgNumberTaken(kind: Kind, e: Json, f: Json, rt: Runtime)
    requires NumberKind(kind) && Prints(rt) && Accepted(Postgres, kind, f, rt)
    ensures var g := IfElement(kind, AskedFor(Postgres, kind, f, rt));
            TakenFor(Postgres, kind, e, f, rt) <==> g.Some? && e == g.value
  {
    var n := AcceptedGives(kind, f, rt);
    AskedIsGiven(kind, f, n, rt);
    NumberTaken(kind, e, f, rt);
    if e.JInt? && GivesInteger(kind, f, e.n, rt) {
      AskedIsGiven(kind, f, e.n, rt);
    }
  }

  /** An element that PostgreSQL has accepted gives what it asks for, and null a zero value. */
  lemma {:induction false} PgTaken(kind: Kind, e: Json, f: Json, rt: Runtime)
    requires PlainKind(kind) && Prints(rt) && Accepted(Postgres, kind, f, rt)
    ensures var g := Standing(Postgres, kind, f, rt);
            TakenFor(Postgres, kind, e, f, rt) <==> g.Some? && e == g.value
  {
    if NumberKind(kind) {
      PgNumberTaken(kind, e, f, rt);
    }
  }

  // ---------- Every dialect ----------

  /** What a dialect takes for an element of a document is its stand-in, or on SQLite a big number
      that has the same binary64 value. */
  lemma TakenIff(d: Dialect, kind: Kind, e: Json, f: Json, rt: Runtime)
    requires Described(d, kind) && Prints(rt) && Accepted(d, kind, f, rt)
    ensures var g := Standing(d, kind, f, rt);
            TakenFor(d, kind, e, f, rt) <==> g.Some? && Same(d, kind, e, g.value)
  {
    match d {
      case SQLite => LiteTaken(kind, e, f, rt);
      case Postgres => PgTaken(kind, e, f, rt);
      case _ =>
    }
  }

  /** An element that asks for a value of the kind stands for it. */
  lemma AskedStands(d: Dialect, kind: Kind, f: Json, rt: Runtime)
    requires Described(d, kind) && ElementOf(kind, AskedFor(d, kind, f, rt))
    ensures Standing(d, kind, f, rt) == Some(AskedFor(d, kind, f, rt))
  {
  }
}
