/** Operators on lists and maps of uint64 and numbers from 2^63 on: the requests that fail, and the
    exact condition under which they do not. */
module BigNumbers {
  import opened Prelude
  import opened Sqldb
  import opened Text
  import opened Message
  import opened Codec
  import opened Operand
  import opened Where2
  import opened Where2Meaning
  import opened StandIn
  import opened Where2Right
  import ListCodec
  import Float64

  // ---------- CONTAINS ----------

  /** On SQLite and MySQL a text that names a big number does not find a list that holds it. */
  lemma BigNumberIsMissed(d: Dialect, field: FieldDesc, value: string, n: int, rt: Runtime)
    requires d == SQLite || d == Mysql
    requires field.IsList() && field.kind == Uint64Kind && Names(Uint64Kind, value, JInt(n)) && TWO63 <= n < TWO64
    requires Prints(rt)
    ensures Where2Condition(d, field, Contains, value, rt).Ok?
    ensures AsksOfList(d, Contains, Uint64Kind, ListCodec.JsonsOf([Int(n)]), value, rt.jsonDoc(value), rt)
    ensures !RightFor(d, field, Contains, value, [Int(n)], rt)
  {
    IntegerRead(Uint64Kind, value, n, rt);
    assert ListCodec.JsonsOf([Int(n)])[0] == JInt(n);
    ListConditionFinds(d, field, Contains, value, [Int(n)], rt);
  }

  /** For a list of uint64, CONTAINS "9223372036854775808" misses the number on SQLite and MySQL. */
  lemma TheFirstMissed(d: Dialect, field: FieldDesc, rt: Runtime)
    requires (d == SQLite || d == Mysql) && Prints(rt)
    requires field.IsList() && field.kind == Uint64Kind
    ensures Where2Condition(d, field, Contains, Itoa(TWO63), rt).Ok?
    ensures AsksOfList(d, Contains, Uint64Kind, ListCodec.JsonsOf([Int(TWO63)]), Itoa(TWO63), rt.jsonDoc(Itoa(TWO63)),
                       rt)
    ensures !RightFor(d, field, Contains, Itoa(TWO63), [Int(TWO63)], rt)
  {
    ItoaNames(Uint64Kind, TWO63, TWO63);
    BigNumberIsMissed(d, field, Itoa(TWO63), TWO63, rt);
  }

  // ---------- Numbers of a document on SQLite ----------

  /** A number asks for itself and stands for itself. */
  lemma NumberStands(n: int, rt: Runtime)
    requires InUint64(n)
    ensures AskedFor(SQLite, Uint64Kind, JInt(n), rt) == JInt(n)
    ensures Standing(SQLite, Uint64Kind, JInt(n), rt) == Some(JInt(n))
  {
  }

  /** A number below 2^63 is taken for itself alone, any other one for a neighbour as well. */
  lemma OwnBelow(n: int, rt: Runtime)
    requires InUint64(n)
    ensures Own(SQLite, Uint64Kind, JInt(n), rt) <==> n < TWO63
    ensures !Unmatched(SQLite, Uint64Kind, JInt(n), rt)
  {
    NumberStands(n, rt);
  }

  /** The value text holds an array of uint64 numbers. */
  predicate NumbersIn(value: string, js: seq<Json>, rt: Runtime) {
    rt.jsonDoc(value) == Some(JArr(js)) && forall j :: 0 <= j < |js| ==> js[j].JInt? && InUint64(js[j].n)
  }

  predicate AllBelow(js: seq<Json>) {
    forall j :: 0 <= j < |js| ==> js[j].JInt? && js[j].n < TWO63
  }

  /** Every uint64 that SQLite compares as equal to a number of the document is in it. */
  ghost predicate SharesAll(js: seq<Json>) {
    forall m, j :: 0 <= j < |js| && js[j].JInt? && InUint64(m) && NumberValue(m) == NumberValue(js[j].n) ==>
      JInt(m) in js
  }

  lemma NumbersAsked(value: string, js: seq<Json>, rt: Runtime)
    requires NumbersIn(value, js, rt)
    ensures AllAsked(SQLite, Uint64Kind, js, rt) == js
  {
    forall j | 0 <= j < |js|
      ensures AskedFor(SQLite, Uint64Kind, js[j], rt) == js[j]
    {
      NumberStands(js[j].n, rt);
    }
  }

  lemma InsideIff(js: seq<Json>, j: nat)
    requires j < |js| && js[j].JInt? && InUint64(js[j].n)
    ensures Inside(SQLite, Uint64Kind, js[j], js)
       <==> forall m :: InUint64(m) && NumberValue(m) == NumberValue(js[j].n) ==> JInt(m) in js
  {
    var n := js[j].n;
    forall m | InUint64(m)
      ensures NumberValue(m) == NumberValue(n)
              <==> m == n || (BigNumber(m) && BigNumber(n) && Float64.Round(m) == Float64.Round(n))
    {
      SameNumber(m, n);
    }
  }

  lemma CoveredNumbers(value: string, js: seq<Json>, rt: Runtime)
    requires NumbersIn(value, js, rt)
    ensures Covered(SQLite, Uint64Kind, js, rt) <==> SharesAll(js)
  {
    NumbersAsked(value, js, rt);
    forall j | 0 <= j < |js|
      ensures Standing(SQLite, Uint64Kind, js[j], rt) == Some(js[j])
      ensures Inside(SQLite, Uint64Kind, js[j], js)
         <==> forall m :: InUint64(m) && NumberValue(m) == NumberValue(js[j].n) ==> JInt(m) in js
    {
      NumberStands(js[j].n, rt);
      InsideIff(js, j);
    }
  }

  /** OVERLAP with an array of uint64 numbers is right on SQLite for every list exactly when every
      uint64 that rounds to one of them is one of them. */
  lemma OverlapRightIff(field: FieldDesc, value: string, js: seq<Json>, rt: Runtime)
    requires field.IsList() && field.kind == Uint64Kind && Prints(rt) && NumbersIn(value, js, rt)
    ensures AlwaysRight(SQLite, field, Overlap, value, rt) <==> SharesAll(js)
  {
    RightIff(SQLite, field, Overlap, value, rt);
    CoveredNumbers(value, js, rt);
  }

  /** CONTAINS_ALL with an array of uint64 numbers is right on SQLite for every list exactly when all
      of them are below 2^63. */
  lemma ContainsAllRightIff(field: FieldDesc, value: string, js: seq<Json>, rt: Runtime)
    requires field.IsList() && field.kind == Uint64Kind && Prints(rt) && NumbersIn(value, js, rt)
    ensures AlwaysRight(SQLite, field, ContainsAll, value, rt) <==> AllBelow(js)
  {
    RightIff(SQLite, field, ContainsAll, value, rt);
    forall j | 0 <= j < |js|
      ensures Own(SQLite, Uint64Kind, js[j], rt) <==> js[j].n < TWO63
      ensures !Unmatched(SQLite, Uint64Kind, js[j], rt)
    {
      OwnBelow(js[j].n, rt);
    }
  }

  /** A big number alone does not share all. */
  lemma OneShares(n: int)
    requires InUint64(n)
    ensures SharesAll([JInt(n)]) <==> n < TWO63
  {
    var js := [JInt(n)];
    assert js[0] == JInt(n);
    if n >= TWO63 {
      var m := Float64.Neighbour(n);
      assert NumberValue(m) == NumberValue(n) && JInt(m) !in js;
    } else {
      forall m | InUint64(m) && NumberValue(m) == NumberValue(n)
        ensures m == n
      {
        SameNumber(m, n);
      }
    }
  }

  /** With one number both are right exactly when it is below 2^63. */
  lemma OneNumberIff(field: FieldDesc, op: Op, value: string, n: int, rt: Runtime)
    requires field.IsList() && field.kind == Uint64Kind && Prints(rt) && (op == Overlap || op == ContainsAll)
    requires InUint64(n) && rt.jsonDoc(value) == Some(JArr([JInt(n)]))
    ensures AlwaysRight(SQLite, field, op, value, rt) <==> n < TWO63
  {
    var js := [JInt(n)];
    assert js[0] == JInt(n);
    if op == Overlap {
      OverlapRightIff(field, value, js, rt);
      OneShares(n);
    } else {
      ContainsAllRightIff(field, value, js, rt);
    }
  }

  /** OVERLAP with `[9223372036854775808]` finds a list that holds only the next number. */
  lemma OverlapFindsNeighbour(field: FieldDesc, value: string, rt: Runtime)
    requires field.IsList() && field.kind == Uint64Kind && Prints(rt)
    requires rt.jsonDoc(value) == Some(JArr([JInt(TWO63)]))
    ensures !AsksOfList(SQLite, Overlap, Uint64Kind, ListCodec.JsonsOf([Int(TWO63 + 1)]), value, rt.jsonDoc(value), rt)
    ensures !RightFor(SQLite, field, Overlap, value, [Int(TWO63 + 1)], rt)
  {
    Float64.FirstNeighbours();
    FindsNeighbour(field, Overlap, value, TWO63, TWO63 + 1, rt);
  }

  /** CONTAINS_ALL with `[9223372036854775809]` finds a list that holds only the number before. */
  lemma ContainsAllFindsNeighbour(field: FieldDesc, value: string, rt: Runtime)
    requires field.IsList() && field.kind == Uint64Kind && Prints(rt)
    requires rt.jsonDoc(value) == Some(JArr([JInt(TWO63 + 1)]))
    ensures !AsksOfList(SQLite, ContainsAll, Uint64Kind, ListCodec.JsonsOf([Int(TWO63)]), value, rt.jsonDoc(value), rt)
    ensures !RightFor(SQLite, field, ContainsAll, value, [Int(TWO63)], rt)
  {
    Float64.FirstNeighbours();
    FindsNeighbour(field, ContainsAll, value, TWO63 + 1, TWO63, rt);
  }

  /** A list that holds m is found for n although the two differ. */
  lemma FindsNeighbour(field: FieldDesc, op: Op, value: string, n: int, m: int, rt: Runtime)
    requires field.IsList() && field.kind == Uint64Kind && Prints(rt) && (op == Overlap || op == ContainsAll)
    requires rt.jsonDoc(value) == Some(JArr([JInt(n)])) && n != m && InUint64(n) && InUint64(m)
             && NumberValue(m) == NumberValue(n)
    ensures !AsksOfList(SQLite, op, Uint64Kind, ListCodec.JsonsOf([Int(m)]), value, rt.jsonDoc(value), rt)
    ensures !RightFor(SQLite, field, op, value, [Int(m)], rt)
  {
    assert ListCodec.JsonsOf([Int(m)]) == [JInt(m)];
    OneFound(op, value, n, m, rt);
    OneAsked(op, value, n, m, rt);
    ListConditionFinds(SQLite, field, op, value, [Int(m)], rt);
  }

  lemma TakenNumber(m: int, n: int, rt: Runtime)
    requires InUint64(m) && InUint64(n) && NumberValue(m) == NumberValue(n) && Prints(rt)
    ensures TakenFor(SQLite, Uint64Kind, JInt(m), JInt(n), rt)
  {
    NumberStands(n, rt);
    SameNumber(m, n);
    TakenIff(SQLite, Uint64Kind, JInt(m), JInt(n), rt);
  }

  lemma OneFound(op: Op, value: string, n: int, m: int, rt: Runtime)
    requires (op == Overlap || op == ContainsAll) && Prints(rt) && InUint64(n) && InUint64(m)
             && NumberValue(m) == NumberValue(n)
    ensures Finds(SQLite, op, Uint64Kind, [JInt(m)], value, Some(JArr([JInt(n)])), rt)
  {
    var es, fs := [JInt(m)], [JInt(n)];
    TakenNumber(m, n, rt);
    assert TakenFor(SQLite, Uint64Kind, es[0], fs[0], rt);
    assert Found(SQLite, Uint64Kind, es, fs[0], rt);
  }

  lemma OneAsked(op: Op, value: string, n: int, m: int, rt: Runtime)
    requires (op == Overlap || op == ContainsAll) && n != m && InUint64(n)
    ensures !AsksOfList(SQLite, op, Uint64Kind, [JInt(m)], value, Some(JArr([JInt(n)])), rt)
  {
    var es, fs := [JInt(m)], [JInt(n)];
    NumberStands(n, rt);
    assert AllAsked(SQLite, Uint64Kind, fs, rt) == fs;
    assert fs[0] !in es;
    SharedElement(es, fs);
    AllIn(es, fs);
  }

  // ---------- Maps on SQLite ----------

  /** The value text holds an object of uint64 numbers. */
  predicate MembersIn(value: string, g: map<string, Json>, rt: Runtime) {
    rt.jsonDoc(value) == Some(JObj(g)) && forall k :: k in g ==> g[k].JInt? && InUint64(g[k].n)
  }

  /** CONTAINS on a map of uint64 is right on SQLite for every map exactly when all given numbers are
      below 2^63. */
  lemma MapContainsRightIff(field: FieldDesc, value: string, g: map<string, Json>, rt: Runtime)
    requires field.IsMap() && field.kind == Uint64Kind && Prints(rt) && MembersIn(value, g, rt)
    ensures Where2Condition(SQLite, field, Contains, value, rt).Ok?
    ensures MapAlwaysRight(field, Contains, value, rt) <==> forall k :: k in g ==> g[k].n < TWO63
  {
    MapRightIff(field, Contains, value, rt);
    forall k | k in g
      ensures Own(SQLite, Uint64Kind, g[k], rt) <==> g[k].n < TWO63
      ensures !Unmatched(SQLite, Uint64Kind, g[k], rt)
    {
      OwnBelow(g[k].n, rt);
    }
  }

  /** CONTAINS with `{"k": 9223372036854775808}` finds a map that holds the next number under k. */
  lemma MapContainsFindsNeighbour(field: FieldDesc, value: string, k: string, rt: Runtime)
    requires field.IsMap() && field.kind == Uint64Kind && Prints(rt)
    requires rt.jsonDoc(value) == Some(JObj(map[k := JInt(TWO63)]))
    ensures Where2Condition(SQLite, field, Contains, value, rt).Ok?
    ensures !AsksOfMap(Contains, Uint64Kind, map[k := JInt(TWO63 + 1)], value, rt.jsonDoc(value), rt)
    ensures !MapRightFor(field, Contains, value, map[k := JInt(TWO63 + 1)], rt)
  {
    NextNumberFound(k, rt);
    NextNumberNotAsked(k, value, rt);
    FoundUnasked(field, value, map[k := JInt(TWO63 + 1)], rt);
  }

  lemma FoundUnasked(field: FieldDesc, value: string, m: map<string, Json>, rt: Runtime)
    requires field.IsMap() && MembersOf(field.kind, m) && ObjectFor(Contains, rt.jsonDoc(value))
    requires MapFinds(Contains, field.kind, m, value, rt.jsonDoc(value), rt)
    requires !AsksOfMap(Contains, field.kind, m, value, rt.jsonDoc(value), rt)
    ensures Where2Condition(SQLite, field, Contains, value, rt).Ok? && !MapRightFor(field, Contains, value, m, rt)
  {
    MapConditionFinds(field, Contains, value, m, rt);
  }

  lemma NextNumberNotAsked(k: string, value: string, rt: Runtime)
    requires rt.jsonDoc(value) == Some(JObj(map[k := JInt(TWO63)]))
    ensures !AsksOfMap(Contains, Uint64Kind, map[k := JInt(TWO63 + 1)], value, rt.jsonDoc(value), rt)
  {
    assert AskedFor(SQLite, Uint64Kind, JInt(TWO63), rt) == JInt(TWO63);
    assert k in map[k := JInt(TWO63)];
  }

  lemma NextNumberFound(k: string, rt: Runtime)
    requires Prints(rt)
    ensures MembersOf(Uint64Kind, map[k := JInt(TWO63 + 1)])
    ensures MemberFound(Uint64Kind, map[k := JInt(TWO63 + 1)], k, JInt(TWO63), rt)
  {
    Float64.FirstNeighbours();
    TakenNumber(TWO63 + 1, TWO63, rt);
  }
}
