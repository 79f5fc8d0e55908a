/** Operators on maps that PostgreSQL and MySQL store as JSON objects: what they ask of the map, and
    that the emitted conditions ask it. */
module MapMeaning {
  import opened Prelude
  import opened Sqldb
  import opened Text
  import opened Message
  import opened Codec
  import opened Operand
  import opened Where2
  import opened Where2Meaning

  // ---------- What an operator asks ----------

  /** The value that a member of a document asks for: a number by its value. */
  function MemberAskedFor(kind: Kind, f: Json): Json {
    match f
    case JReal(x) => if NumberKind(kind) && x == x.Floor as real then JInt(x.Floor) else f
    case _ => f
  }

  /** HAS_KEY asks for a key, CONTAINS for every member of a document. */
  ghost predicate AsksOfObject(op: Op, kind: Kind, m: map<string, Json>, value: string, doc: Option<Json>) {
    match op
    case HasKey => value in m
    case Contains => doc.Some? && doc.value.JObj? && forall k :: k in doc.value.members ==>
      k in m && m[k] == MemberAskedFor(kind, doc.value.members[k])
    case _ => false
  }

  // ---------- What the conditions say ----------

  predicate JsonScalar(j: Json) {
    j.JInt? || j.JStr? || j.JBool? || j.JNull?
  }

  predicate ScalarMembers(m: map<string, Json>) {
    forall k :: k in m ==> JsonScalar(m[k])
  }

  /** Equality of JSON values on PostgreSQL, which compares numbers by value. */
  predicate JsonSame(a: Json, b: Json) {
    match (a, b)
    case (JInt(n), JReal(x)) => n as real == x
    case _ => a == b
  }

  /** A key that a JSON path of MySQL can name without quotes (section 11.5 of the MySQL manual). */
  predicate PathKey(key: string) {
    && key != "" && !IsDigit(key[0])
    && forall i :: 0 <= i < |key| ==> key[i] == '_' || IsDigit(key[i]) || 'a' <= LowerChar(key[i]) <= 'z'
  }

  function FirstDot(key: string): (n: nat)
    ensures n <= |key| && '.' !in key[..n] && (n < |key| ==> key[n] == '.')
  {
    if key == "" || key[0] == '.' then 0 else 1 + FirstDot(key[1..])
  }

  /** A key that a JSON path takes for a path of several keys. */
  predicate DottedKey(key: string)
    decreases |key|
  {
    var n := FirstDot(key);
    n < |key| && PathKey(key[..n]) && (PathKey(key[n + 1..]) || DottedKey(key[n + 1..]))
  }

  /** An operator on an object of scalars, in which a path of several keys leads nowhere: the key
      operator and containment of PostgreSQL's jsonb (section 9.16 of its manual), and the JSON
      functions of MySQL (section 14.17.3 of its manual). */
  predicate ObjectHolds(s: Shape, m: map<string, Json>, arg: GoVal, doc: Json) {
    match s
    case PgHasKey => arg.Str? && arg.s in m
    case PgJsonContains => doc.JObj? && forall k :: k in doc.members ==> k in m && JsonSame(m[k], doc.members[k])
    case MyHasKey => arg.Str? && PathKey(arg.s) && arg.s in m
    case MyContains => doc.JObj? && forall k :: k in doc.members ==> k in m && m[k] == doc.members[k]
    case _ => false
  }

  /** The operator has this meaning for the argument. MySQL's comparison of nested values and
      fractions, and keys that need quotes in a path, are not part of this model. */
  predicate ObjectDescribed(s: Shape, m: map<string, Json>, arg: GoVal, doc: Json) {
    && ScalarMembers(m)
    && match s
       case PgHasKey => arg.Str?
       case PgJsonContains => doc.JObj?
       case MyHasKey => arg.Str? && (PathKey(arg.s) || DottedKey(arg.s))
       case MyContains => doc.JObj? && ScalarMembers(doc.members)
       case _ => false
  }

  /** The request is one that the dialect's operator is described for. */
  ghost predicate ObjectRequest(d: Dialect, op: Op, value: string, doc: Option<Json>) {
    && (op == Contains ==> doc.Some? && doc.value.JObj? && (d == Mysql ==> ScalarMembers(doc.value.members)))
    && (op == HasKey && d == Mysql ==> PathKey(value))
  }

  lemma MembersScalar(kind: Kind, m: map<string, Json>)
    requires MembersOf(kind, m)
    ensures ScalarMembers(m)
  {
  }

  lemma SameIsAsked(kind: Kind, e: Json, f: Json)
    requires ElementOf(kind, e)
    ensures JsonSame(e, f) <==> e == MemberAskedFor(kind, f)
    ensures JsonScalar(f) ==> MemberAskedFor(kind, f) == f
  {
  }

  /** On PostgreSQL and MySQL the condition emitted for a map field holds exactly when the map is as
      the operator asks. */
  lemma ObjectConditionMeans(d: Dialect, kind: Kind, op: Op, value: string, m: map<string, Json>, doc: Option<Json>)
    requires (d == Postgres || d == Mysql) && MembersOf(kind, m) && ObjectRequest(d, op, value, doc)
    requires MapCondition(d, op, value).Ok?
    ensures var p := MapCondition(d, op, value).value;
            && ObjectDescribed(p.shape, m, p.arg, DocOf(doc))
            && (ObjectHolds(p.shape, m, p.arg, DocOf(doc)) <==> AsksOfObject(op, kind, m, value, doc))
  {
    MembersScalar(kind, m);
    if op == Contains {
      var g := doc.value.members;
      forall k | k in g && k in m
        ensures JsonSame(m[k], g[k]) <==> m[k] == MemberAskedFor(kind, g[k])
        ensures JsonScalar(g[k]) ==> MemberAskedFor(kind, g[k]) == g[k]
      {
        SameIsAsked(kind, m[k], g[k]);
      }
    }
  }

  /** HAS_KEY on MySQL is right for every map. */
  ghost predicate HasKeyRight(kind: Kind, value: string) {
    forall m {:trigger MembersOf(kind, m)} :: MembersOf(kind, m) ==>
      (ObjectHolds(MyHasKey, m, Str(value), JNull) <==> value in m)
  }

  lemma {:induction false} DottedIsNoPath(key: string)
    requires DottedKey(key)
    ensures !PathKey(key)
  {
    var n := FirstDot(key);
    assert key[n] == '.';
  }

  lemma SomeMap(kind: Kind, key: string) returns (m: map<string, Json>)
    requires PlainKind(kind)
    ensures MembersOf(kind, m) && key in m
  {
    var j := if kind == BoolKind then JBool(false) else if kind == StringKind then JStr("") else JInt(0);
    m := map[key := j];
  }

  /** It is so exactly for keys without a dot: a key with one is taken for a path. */
  lemma {:induction false} HasKeyRightIff(kind: Kind, value: string)
    requires PlainKind(kind) && (PathKey(value) || DottedKey(value))
    ensures HasKeyRight(kind, value) <==> PathKey(value)
  {
    if DottedKey(value) {
      DottedIsNoPath(value);
      var m := SomeMap(kind, value);
    }
  }

  /** HAS_KEY "a.b" misses the key `a.b`. */
  lemma DottedKeyIsMissed(m: map<string, Json>)
    requires "a.b" in m && ScalarMembers(m)
    ensures ObjectDescribed(MyHasKey, m, Str("a.b"), JNull) && !ObjectHolds(MyHasKey, m, Str("a.b"), JNull)
  {
    var key := "a.b";
    assert key[0] == 'a' && key[1] == '.' && key[2] == 'b';
    assert FirstDot(key[1..]) == 0 && FirstDot(key) == 1;
    assert key[..1] == "a" && key[2..] == "b";
    assert DottedKey(key);
    DottedIsNoPath(key);
  }
}
