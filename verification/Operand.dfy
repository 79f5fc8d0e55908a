/** The value text of an operator condition (crud/tablequery.go:516-607): what it says, and what
    the code reads in it. */
module Operand {
  import opened Prelude
  import opened Text
  import opened Message
  import opened Codec
  import Float64

  // ---------- What a text or a JSON element says ----------

  predicate TrueWord(s: string) {
    s == "1" || s == "t" || s == "true"
  }

  predicate FalseWord(s: string) {
    s == "0" || s == "f" || s == "false"
  }

  /** The value text of a CONTAINS names this JSON scalar. */
  predicate Names(kind: Kind, text: string, j: Json) {
    match j
    case JBool(b) => kind == BoolKind && if b then TrueWord(Lower(Trim(text))) else FalseWord(Lower(Trim(text)))
    case JInt(n) =>
      if UnsignedKind(kind) then n >= 0 && Natural(Trim(text), n) else NumberKind(kind) && Numeral(Trim(text), n)
    case JStr(s) => kind == StringKind && s == text
    case _ => false
  }

  /** Kinds whose lists the operators are described for. */
  predicate PlainKind(kind: Kind) {
    kind == BoolKind || kind == StringKind || NumberKind(kind)
  }

  /** The 64-bit integers of a kind's sign. */
  predicate In64(kind: Kind, n: int) {
    if UnsignedKind(kind) then 0 <= n < TWO64 else -TWO63 <= n < TWO63
  }

  const MILLION := 1_000_000

  /** An integer of at most six digits. */
  predicate Short(n: int) {
    -MILLION < n < MILLION
  }

  /** The integer that an element of an array argument gives: an unquoted number is read through
      the text Go prints for a float64, which has an exponent from seven digits on; a quoted
      number is read exactly. */
  predicate GivesInteger(kind: Kind, j: Json, n: int, rt: Runtime) {
    && In64(kind, n)
    && match j
       case JInt(m) => n == m && Short(m)
       case JReal(r) => r == n as real && Short(n)
       case JStr(s) => Names(kind, s, JInt(n))
       case JBytes(bs) => Names(kind, rt.base64(bs), JInt(n))
       case _ => false
  }

  predicate FloatingKind(kind: Kind) {
    kind == FloatKind || kind == DoubleKind
  }

  /** The list element that an element of an array argument gives; null gives a zero value. */
  predicate Gives(kind: Kind, j: Json, v: GoVal, rt: Runtime) {
    match v
    case Str(s) => kind == StringKind && (j == JStr(s) || (j == JNull && s == ""))
    case Bool(b) => kind == BoolKind && (j == JBool(b) || (j == JNull && !b))
    case Int(n) => NumberKind(kind) && GivesInteger(kind, j, n, rt)
    case Real(x) =>
      FloatingKind(kind) &&
      (match j case JInt(n) => x == Float64.Round(n) as real case JReal(y) => x == y case JNull => x
       == 0.0 case _ => false)
    case _ => false
  }

  /** How Go prints: a float64 as an integer below a million and otherwise with an exponent or a
      fraction, a decoded array or object with a bracket. */
  ghost predicate Prints(rt: Runtime) {
    && (forall r: real {:trigger rt.floatText(r)} ::
          if r == r.Floor as real && Short(r.Floor) then rt.floatText(r) == Itoa(r.Floor)
          else 'e' in rt.floatText(r) || '.' in rt.floatText(r))
    && (forall j {:trigger rt.otherText(j)} :: '[' in rt.otherText(j))
  }

  // ---------- What the code reads ----------

  /** parseScalarString. */
  function ParseScalarString(kind: Kind, s: string, rt: Runtime): Option<GoVal> {
    var ss := Trim(s);
    match kind
    case BoolKind =>
      var b := ParseBool(Lower(ss));
      if b.Some? then Some(Bool(b.value)) else None
    case Int32Kind => IntArg(ParseInt(ss, TWO63))
    case Int64Kind => IntArg(ParseInt(ss, TWO63))
    case EnumKind => IntArg(ParseInt(ss, TWO63))
    case Uint32Kind => UintArg(ParseUint(ss, TWO64))
    case Uint64Kind => UintArg(ParseUint(ss, TWO64))
    case FloatKind => RealArg(rt.parseFloat(ss))
    case DoubleKind => RealArg(rt.parseFloat(ss))
    case _ => Some(Str(s))
  }

  function IntArg(i: Option<int>): Option<GoVal> {
    if i.Some? then Some(Int(i.value)) else None
  }

  /** An unsigned number travels as the int64 with the same bits. */
  function UintArg(u: Option<nat>): Option<GoVal> {
    if u.Some? then Some(Int(ToSigned64(u.value))) else None
  }

  function RealArg(r: Option<real>): Option<GoVal> {
    if r.Some? then Some(Real(r.value)) else None
  }

  /** One element of an array argument; null is the zero value of the typed slices. */
  function ArrayElement(kind: Kind, j: Json, rt: Runtime): Option<GoVal> {
    match kind
    case StringKind => (match j case JStr(s) => Some(Str(s)) case JNull => Some(Str("")) case _ => None)
    case BoolKind => (match j case JBool(b) => Some(Bool(b)) case JNull => Some(Bool(false)) case _ => None)
    case FloatKind => FloatElement(j)
    case DoubleKind => FloatElement(j)
    case _ => ParseScalarString(kind, Sprint(AnyOf(j, false, rt), rt), rt)
  }

  function FloatElement(j: Json): Option<GoVal> {
    match j
    case JInt(n) => Some(Real(Float64.Round(n) as real))
    case JReal(r) => Some(Real(r))
    case JNull => Some(Real(0.0))
    case _ => None
  }

  /** The JSON array a text holds; null is the empty one. */
  function ArrayOf(s: string, rt: Runtime): Option<seq<Json>> {
    match rt.jsonDoc(s)
    case Some(JArr(es)) => Some(es)
    case Some(JNull) => Some([])
    case _ => None
  }

  datatype ArrayArgument = Elements(vs: seq<GoVal>) | BadText | Panicking

  /** Elements of these kinds are read as strings, which the code takes for integers. */
  predicate NoArrayKind(kind: Kind) {
    kind == BytesKind || kind == MessageKind
  }

  ghost predicate AllRead(kind: Kind, js: seq<Json>, rt: Runtime) {
    forall i :: 0 <= i < |js| ==> ArrayElement(kind, js[i], rt).Some?
  }

  /** The array argument of a text. */
  ghost function ArrayArg(kind: Kind, s: string, rt: Runtime): ArrayArgument {
    var js := ArrayOf(s, rt);
    if js.None? then BadText
    else if NoArrayKind(kind) && js.value != [] then Panicking
    else if !AllRead(kind, js.value, rt) then BadText
    else Elements(seq(|js.value|, i requires 0 <= i < |js.value| => ArrayElement(kind, js.value[i], rt).value))
  }

  // ---------- What is read is what is said ----------

  /** The argument sent for a list element: an unsigned integer as the int64 with the same bits. */
  function Sent(kind: Kind, v: GoVal): GoVal {
    if v.Int? && UnsignedKind(kind) then Int(ToSigned64(v.n)) else v
  }

  /** A text is read as an integer of 64 bits exactly when it names that integer. */
  lemma IntegerRead(kind: Kind, text: string, n: int, rt: Runtime)
    requires NumberKind(kind) && In64(kind, n)
    ensures Names(kind, text, JInt(n)) <==> ParseScalarString(kind, text, rt) == Some(Sent(kind, Int(n)))
  {
    if UnsignedKind(kind) {
      ParseUintMeans(Trim(text), TWO64, n);
      var u := ParseUint(Trim(text), TWO64);
      if u.Some? && ToSigned64(u.value) == ToSigned64(n) {
        assert u.value == n;
      }
    } else {
      ParseIntMeans(Trim(text), TWO63, n);
    }
  }

  /** A text is readable exactly when it names some integer of 64 bits. */
  lemma IntegerReadable(kind: Kind, text: string, rt: Runtime) returns (n: int)
    requires NumberKind(kind)
    ensures ParseScalarString(kind, text, rt).Some? ==> In64(kind, n) && Names(kind, text, JInt(n))
  {
    n := 0;
    if UnsignedKind(kind) {
      var u := ParseUint(Trim(text), TWO64);
      if u.Some? {
        n := u.value;
        ParseUintMeans(Trim(text), TWO64, n);
      }
    } else {
      var i := ParseInt(Trim(text), TWO63);
      if i.Some? {
        n := i.value;
        ParseIntMeans(Trim(text), TWO63, n);
      }
    }
  }

  lemma ItoaTrimmed(m: int)
    ensures Trim(Itoa(m)) == Itoa(m)
  {
    assert Trimmed(Itoa(m));
  }

  /** A printed integer names itself and nothing else. */
  lemma ItoaNames(kind: Kind, m: int, n: int)
    requires NumberKind(kind)
    ensures Names(kind, Itoa(m), JInt(n)) <==> n == m && (UnsignedKind(kind) ==> m >= 0)
  {
    ItoaTrimmed(m);
    ItoaIsNumeral(m);
    if m < 0 {
      DigitsValue(-m);
      assert Itoa(m)[1..] == Digits(-m);
    } else {
      DigitsValue(m);
    }
  }

  /** The text that fmt.Sprint makes of a decoded element. */
  function ElementText(j: Json, rt: Runtime): string {
    Sprint(AnyOf(j, false, rt), rt)
  }

  lemma ForeignNames(kind: Kind, text: string, c: char, n: int)
    requires c in text && Foreign(c)
    ensures !Names(kind, text, JInt(n))
  {
    ForeignIsNoNumeral(text, c, n);
  }

  lemma NumberTextNames(kind: Kind, r: real, n: int, rt: Runtime)
    requires NumberKind(kind) && In64(kind, n) && Prints(rt)
    ensures Names(kind, rt.floatText(r), JInt(n)) <==> r == n as real && Short(n)
  {
    var text := rt.floatText(r);
    if r == r.Floor as real && Short(r.Floor) {
      ItoaNames(kind, r.Floor, n);
    } else {
      ForeignNames(kind, text, if 'e' in text then 'e' else '.', n);
    }
  }

  /** Printing a decoded element and reading the text gives the integer the element gives. */
  lemma ElementTextNames(kind: Kind, j: Json, n: int, rt: Runtime)
    requires NumberKind(kind) && In64(kind, n) && Prints(rt)
    ensures Names(kind, ElementText(j, rt), JInt(n)) <==> GivesInteger(kind, j, n, rt)
  {
    var text := ElementText(j, rt);
    match j
    case JInt(m) =>
      NumberTextNames(kind, Float64.Round(m) as real, n, rt);
      Float64.RoundKeepsMillion(m);
    case JReal(r) => NumberTextNames(kind, r, n, rt);
    case JStr(_) =>
    case JBytes(_) =>
    case JNull => ForeignNames(kind, text, '<', n);
    case JBool(b) => ForeignNames(kind, text, 'e', n);
    case _ => ForeignNames(kind, text, '[', n);
  }

  /** A value an element can give. */
  predicate Given(kind: Kind, v: GoVal) {
    match v
    case Str(_) => kind == StringKind
    case Bool(_) => kind == BoolKind
    case Int(n) => NumberKind(kind) && In64(kind, n)
    case Real(_) => FloatingKind(kind)
    case _ => false
  }

  /** An element of an array argument is read as exactly what it gives. */
  lemma ElementRead(kind: Kind, j: Json, v: GoVal, rt: Runtime)
    requires !NoArrayKind(kind) && Prints(rt)
    ensures Gives(kind, j, v, rt) <==> Given(kind, v) && ArrayElement(kind, j, rt) == Some(Sent(kind, v))
  {
    if Given(kind, v) && v.Int? {
      ElementTextNames(kind, j, v.n, rt);
      IntegerRead(kind, ElementText(j, rt), v.n, rt);
    }
  }

  /** An element of an array argument that can be read gives something. */
  lemma ElementReadable(kind: Kind, j: Json, rt: Runtime) returns (v: GoVal)
    requires !NoArrayKind(kind) && Prints(rt) && ArrayElement(kind, j, rt).Some?
    ensures Gives(kind, j, v, rt) && ArrayElement(kind, j, rt) == Some(Sent(kind, v))
  {
    if NumberKind(kind) {
      var n := IntegerReadable(kind, ElementText(j, rt), rt);
      v := Int(n);
    } else {
      v := ArrayElement(kind, j, rt).value;
    }
    ElementRead(kind, j, v, rt);
    if v.Int? {
      IntegerRead(kind, ElementText(j, rt), v.n, rt);
      ElementTextNames(kind, j, v.n, rt);
    }
  }

  /** The JSON element gives some list element. */
  ghost predicate Giving(kind: Kind, j: Json, rt: Runtime) {
    exists v :: Gives(kind, j, v, rt)
  }

  ghost predicate AllGive(kind: Kind, js: seq<Json>, rt: Runtime) {
    forall i :: 0 <= i < |js| ==> Giving(kind, js[i], rt)
  }

  /** The argument element is what the JSON element gives. */
  ghost predicate ComesFrom(kind: Kind, x: GoVal, j: Json, rt: Runtime) {
    exists v :: Gives(kind, j, v, rt) && x == Sent(kind, v)
  }

  /** Where each element of an argument comes from, and why an array is refused. */
  ghost predicate SaysArray(kind: Kind, js: Option<seq<Json>>, r: ArrayArgument, rt: Runtime) {
    match r
    case Elements(vs) =>
      && js.Some? && |vs| == |js.value|
      && forall i :: 0 <= i < |vs| ==> ComesFrom(kind, vs[i], js.value[i], rt)
    case BadText => js.Some? ==> !NoArrayKind(kind) && !AllGive(kind, js.value, rt)
    case Panicking => NoArrayKind(kind) && js.Some? && js.value != []
  }

  lemma ArrayArgSays(kind: Kind, s: string, rt: Runtime)
    requires Prints(rt)
    ensures SaysArray(kind, ArrayOf(s, rt), ArrayArg(kind, s, rt), rt)
  {
    var js := ArrayOf(s, rt);
    if js.Some? && !NoArrayKind(kind) {
      forall i | 0 <= i < |js.value| && ArrayElement(kind, js.value[i], rt).Some?
        ensures ComesFrom(kind, ArrayElement(kind, js.value[i], rt).value, js.value[i], rt)
      {
        var v := ElementReadable(kind, js.value[i], rt);
      }
      if !AllRead(kind, js.value, rt) {
        var i :| 0 <= i < |js.value| && ArrayElement(kind, js.value[i], rt).None?;
        forall v
          ensures !Gives(kind, js.value[i], v, rt)
        {
          ElementRead(kind, js.value[i], v, rt);
        }
        assert !Giving(kind, js.value[i], rt);
      }
    }
  }

  /** An array is read exactly when each of its elements gives something. */
  lemma ArrayReadIff(kind: Kind, s: string, rt: Runtime)
    requires !NoArrayKind(kind) && Prints(rt)
    ensures ArrayArg(kind, s, rt).Elements? <==> ArrayOf(s, rt).Some? && AllGive(kind, ArrayOf(s, rt).value, rt)
  {
    ArrayArgSays(kind, s, rt);
    var r := ArrayArg(kind, s, rt);
    if r.Elements? {
      var js := ArrayOf(s, rt).value;
      forall i | 0 <= i < |js|
        ensures Giving(kind, js[i], rt)
      {
        assert ComesFrom(kind, r.vs[i], js[i], rt);
      }
    }
  }

  ghost predicate ReadAs(kind: Kind, j: Json, v: GoVal, rt: Runtime) {
    ArrayElement(kind, j, rt) == Some(v)
  }

  ghost predicate Unreadable(kind: Kind, j: Json, rt: Runtime) {
    ArrayElement(kind, j, rt).None?
  }

  lemma NotAllRead(kind: Kind, js: seq<Json>, i: nat, rt: Runtime)
    requires i < |js| && Unreadable(kind, js[i], rt)
    ensures !AllRead(kind, js, rt)
  {
  }

  method ReadElement(kind: Kind, j: Json, rt: Runtime) returns (r: Option<GoVal>)
    ensures r.None? ==> Unreadable(kind, j, rt)
    ensures r.Some? ==> ReadAs(kind, j, r.value, rt)
  {
    r := ArrayElement(kind, j, rt);
  }

  method ReadElements(kind: Kind, js: seq<Json>, rt: Runtime) returns (r: Option<seq<GoVal>>)
    ensures r.None? ==> !AllRead(kind, js, rt)
    ensures r.Some? ==> |r.value| == |js| && forall i :: 0 <= i < |js| ==> ReadAs(kind, js[i], r.value[i], rt)
  {
    var out: seq<GoVal> := [];
    for i := 0 to |js|
      invariant |out| == i && forall k :: 0 <= k < i ==> ReadAs(kind, js[k], out[k], rt)
    {
      var e := ReadElement(kind, js[i], rt);
      if e.None? {
        NotAllRead(kind, js, i, rt);
        return None;
      }
      out := out + [e.value];
    }
    r := Some(out);
  }

  /** parseScalarJSONArray: the elements are what the JSON elements give, in order; the text is
      refused when it holds no array or some element gives nothing; bytes and messages panic on any
      element. */
  method ParseScalarJSONArray(kind: Kind, s: string, rt: Runtime) returns (r: ArrayArgument)
    ensures r == ArrayArg(kind, s, rt)
    ensures Prints(rt) ==> SaysArray(kind, ArrayOf(s, rt), r, rt)
  {
    if Prints(rt) {
      ArrayArgSays(kind, s, rt);
    }
    var js := ArrayOf(s, rt);
    if js.None? {
      return BadText;
    }
    if NoArrayKind(kind) && js.value != [] {
      return Panicking;
    }
    var es := ReadElements(kind, js.value, rt);
    r := if es.None? then BadText else Elements(es.value);
  }
}
