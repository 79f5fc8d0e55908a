/** When the condition emitted for an operator of a table query asks what the operator means, for
    every list or map a column can store: an exact condition on the request. */
module Where2Right {
  import opened Prelude
  import opened Sqldb
  import opened Text
  import opened Message
  import opened Codec
  import opened Operand
  import opened Where2
  import opened Where2Meaning
  import opened StandIn
  import ListCodec
  import Float64

  // ---------- The condition ----------

  /** The value is among those asked for, and with it every value that the dialect does not tell from it. */
  ghost predicate Inside(d: Dialect, kind: Kind, g: Json, asked: seq<Json>) {
    && g in asked
    && (Big(d, kind, g) ==>
          forall m :: BigNumber(m) && Float64.Round(m) == Float64.Round(g.n) ==> JInt(m) in asked)
  }

  /** Every stand-in of the document is inside what it asks for. */
  ghost predicate Covered(d: Dialect, kind: Kind, fs: seq<Json>, rt: Runtime) {
    forall j :: 0 <= j < |fs| && Standing(d, kind, fs[j], rt).Some? ==>
      Inside(d, kind, Standing(d, kind, fs[j], rt).value, AllAsked(d, kind, fs, rt))
  }

  /** No value is taken for this element of the document. */
  ghost predicate Unmatched(d: Dialect, kind: Kind, f: Json, rt: Runtime) {
    Standing(d, kind, f, rt).None?
  }

  /** This element of the document has no stand-in but what it asks for. */
  ghost predicate Own(d: Dialect, kind: Kind, f: Json, rt: Runtime) {
    var g := Standing(d, kind, f, rt);
    g.Some? ==> g.value == AskedFor(d, kind, f, rt) && !Big(d, kind, g.value)
  }

  ghost predicate AnyUnmatched(d: Dialect, kind: Kind, fs: seq<Json>, rt: Runtime) {
    exists j :: 0 <= j < |fs| && Unmatched(d, kind, fs[j], rt)
  }

  ghost predicate AllOwn(d: Dialect, kind: Kind, fs: seq<Json>, rt: Runtime) {
    forall j :: 0 <= j < |fs| ==> Own(d, kind, fs[j], rt)
  }

  /** The request is such that the emitted condition asks what the operator means. */
  ghost predicate Right(d: Dialect, kind: Kind, op: Op, value: string, doc: Option<Json>, rt: Runtime) {
    match op
    case Contains => d == Postgres || NoBigNumber(kind, value)
    case Overlap => doc.Some? && doc.value.JArr? && Covered(d, kind, doc.value.elems, rt)
    case ContainsAll =>
      doc.Some? && doc.value.JArr? &&
      (AnyUnmatched(d, kind, doc.value.elems, rt) || AllOwn(d, kind, doc.value.elems, rt))
    case _ => true
  }

  // ---------- Elements ----------

  /** A value that is asked for is taken for the element that asks for it. */
  lemma AskedIsTaken(d: Dialect, kind: Kind, f: Json, rt: Runtime)
    requires Described(d, kind) && Prints(rt) && ElementOf(kind, AskedFor(d, kind, f, rt)) && Accepted(d, kind, f, rt)
    ensures TakenFor(d, kind, AskedFor(d, kind, f, rt), f, rt)
  {
    AskedStands(d, kind, f, rt);
    TakenIff(d, kind, AskedFor(d, kind, f, rt), f, rt);
  }

  /** Nothing else is taken for an element of its own. */
  lemma OwnIsTaken(d: Dialect, kind: Kind, e: Json, f: Json, rt: Runtime)
    requires Described(d, kind) && Prints(rt) && Accepted(d, kind, f, rt)
    requires Own(d, kind, f, rt) && TakenFor(d, kind, e, f, rt)
    ensures e == AskedFor(d, kind, f, rt)
  {
    TakenIff(d, kind, e, f, rt);
  }

  lemma StandingIsTaken(d: Dialect, kind: Kind, f: Json, rt: Runtime)
    requires Described(d, kind) && Prints(rt) && Accepted(d, kind, f, rt) && Standing(d, kind, f, rt).Some?
    ensures TakenFor(d, kind, Standing(d, kind, f, rt).value, f, rt)
  {
    TakenIff(d, kind, Standing(d, kind, f, rt).value, f, rt);
  }

  lemma TakenIsElement(d: Dialect, kind: Kind, e: Json, f: Json, rt: Runtime)
    requires TakenFor(d, kind, e, f, rt)
    ensures ElementOf(kind, e)
  {
  }

  // ---------- OVERLAP ----------

  lemma OverlapRight(d: Dialect, kind: Kind, es: seq<Json>, fs: seq<Json>, rt: Runtime)
    requires Described(d, kind) && Prints(rt) && ColumnOf(kind, es) && AllAccepted(d, kind, fs, rt)
    requires Covered(d, kind, fs, rt)
    ensures FindsSome(d, kind, es, fs, rt) <==> Elems(es) * Elems(AllAsked(d, kind, fs, rt)) != {}
  {
    var asked := AllAsked(d, kind, fs, rt);
    SharedElement(es, asked);
    if FindsSome(d, kind, es, fs, rt) {
      var j :| 0 <= j < |fs| && Found(d, kind, es, fs[j], rt);
      var i :| 0 <= i < |es| && TakenFor(d, kind, es[i], fs[j], rt);
      TakenInside(d, kind, es[i], fs, j, rt);
      var k :| 0 <= k < |asked| && asked[k] == es[i];
    }
    if j :| 0 <= j < |asked| && asked[j] in es {
      AskedIsFound(d, kind, es, fs, j, rt);
    }
  }

  lemma TakenInside(d: Dialect, kind: Kind, e: Json, fs: seq<Json>, j: nat, rt: Runtime)
    requires Described(d, kind) && Prints(rt) && AllAccepted(d, kind, fs, rt) && j < |fs|
    requires Covered(d, kind, fs, rt) && TakenFor(d, kind, e, fs[j], rt)
    ensures e in AllAsked(d, kind, fs, rt)
  {
    TakenIff(d, kind, e, fs[j], rt);
    assert Inside(d, kind, Standing(d, kind, fs[j], rt).value, AllAsked(d, kind, fs, rt));
  }

  lemma AskedIsFound(d: Dialect, kind: Kind, es: seq<Json>, fs: seq<Json>, j: nat, rt: Runtime)
    requires Described(d, kind) && Prints(rt) && ColumnOf(kind, es) && AllAccepted(d, kind, fs, rt)
    requires j < |fs| && AskedFor(d, kind, fs[j], rt) in es
    ensures Found(d, kind, es, fs[j], rt)
  {
    var i :| 0 <= i < |es| && es[i] == AskedFor(d, kind, fs[j], rt);
    AskedIsTaken(d, kind, fs[j], rt);
    assert TakenFor(d, kind, es[i], fs[j], rt);
  }

  /** A value that the dialect does not tell from one, and that is outside. */
  lemma Outsider(d: Dialect, kind: Kind, g: Json, asked: seq<Json>) returns (e: Json)
    requires !Inside(d, kind, g, asked)
    ensures Same(d, kind, e, g) && e !in asked
  {
    e := g;
    if g in asked {
      var m :| BigNumber(m) && Float64.Round(m) == Float64.Round(g.n) && JInt(m) !in asked;
      e := JInt(m);
    }
  }

  /** Otherwise some list is found that has nothing the document asks for. */
  lemma OverlapWrong(d: Dialect, kind: Kind, fs: seq<Json>, rt: Runtime) returns (es: seq<Json>)
    requires Described(d, kind) && Prints(rt) && AllAccepted(d, kind, fs, rt)
    requires !Covered(d, kind, fs, rt)
    ensures ColumnOf(kind, es) && FindsSome(d, kind, es, fs, rt)
    ensures Elems(es) * Elems(AllAsked(d, kind, fs, rt)) == {}
  {
    var asked := AllAsked(d, kind, fs, rt);
    var j :| 0 <= j < |fs| && Standing(d, kind, fs[j], rt).Some?
             && !Inside(d, kind, Standing(d, kind, fs[j], rt).value, asked);
    var e := Outsider(d, kind, Standing(d, kind, fs[j], rt).value, asked);
    TakenIff(d, kind, e, fs[j], rt);
    TakenIsElement(d, kind, e, fs[j], rt);
    es := [e];
    assert TakenFor(d, kind, es[0], fs[j], rt);
    assert Found(d, kind, es, fs[j], rt);
    SharedElement(es, asked);
  }

  // ---------- CONTAINS_ALL ----------

  lemma ContainsAllRight(d: Dialect, kind: Kind, es: seq<Json>, fs: seq<Json>, rt: Runtime)
    requires Described(d, kind) && Prints(rt) && ColumnOf(kind, es) && AllAccepted(d, kind, fs, rt)
    requires AnyUnmatched(d, kind, fs, rt) || AllOwn(d, kind, fs, rt)
    ensures FindsAll(d, kind, es, fs, rt) <==> Elems(AllAsked(d, kind, fs, rt)) <= Elems(es)
  {
    var asked := AllAsked(d, kind, fs, rt);
    AllIn(es, asked);
    forall j | 0 <= j < |fs| && asked[j] in es
      ensures Found(d, kind, es, fs[j], rt)
    {
      AskedIsFound(d, kind, es, fs, j, rt);
    }
    if FindsAll(d, kind, es, fs, rt) {
      forall j | 0 <= j < |fs|
        ensures asked[j] in es
      {
        FoundIsAsked(d, kind, es, fs, j, rt);
      }
    }
  }

  lemma FoundIsMatched(d: Dialect, kind: Kind, es: seq<Json>, f: Json, rt: Runtime)
    requires Described(d, kind) && Prints(rt) && Accepted(d, kind, f, rt) && Found(d, kind, es, f, rt)
    ensures !Unmatched(d, kind, f, rt)
  {
    var i :| 0 <= i < |es| && TakenFor(d, kind, es[i], f, rt);
    TakenIff(d, kind, es[i], f, rt);
  }

  lemma FoundIsAsked(d: Dialect, kind: Kind, es: seq<Json>, fs: seq<Json>, j: nat, rt: Runtime)
    requires Described(d, kind) && Prints(rt) && AllAccepted(d, kind, fs, rt)
    requires FindsAll(d, kind, es, fs, rt) && j < |fs|
    requires AnyUnmatched(d, kind, fs, rt) || AllOwn(d, kind, fs, rt)
    ensures AskedFor(d, kind, fs[j], rt) in es
  {
    forall k | 0 <= k < |fs|
      ensures !Unmatched(d, kind, fs[k], rt)
    {
      FoundIsMatched(d, kind, es, fs[k], rt);
    }
    assert Found(d, kind, es, fs[j], rt);
    var i :| 0 <= i < |es| && TakenFor(d, kind, es[i], fs[j], rt);
    OwnIsTaken(d, kind, es[i], fs[j], rt);
  }

  /** A value that is taken for f and is not the one asked for by f0, which is not its own. */
  lemma Avoid(d: Dialect, kind: Kind, f: Json, f0: Json, rt: Runtime) returns (m: Json)
    requires Described(d, kind) && Prints(rt) && Accepted(d, kind, f, rt) && Accepted(d, kind, f0, rt)
    requires !Unmatched(d, kind, f, rt) && !Unmatched(d, kind, f0, rt) && !Own(d, kind, f0, rt)
    ensures TakenFor(d, kind, m, f, rt) && m != AskedFor(d, kind, f0, rt)
  {
    m := Standing(d, kind, f, rt).value;
    StandingIsTaken(d, kind, f, rt);
    if m == AskedFor(d, kind, f0, rt) {
      TakenIsElement(d, kind, m, f, rt);
      AskedStands(d, kind, f0, rt);
      m := Twin(d, kind, m);
      TakenIff(d, kind, m, f, rt);
    }
  }

  /** SQLite does not tell a big number from some other one. */
  lemma Twin(d: Dialect, kind: Kind, g: Json) returns (m: Json)
    requires Big(d, kind, g)
    ensures m != g && Same(d, kind, m, g)
  {
    var n := Float64.Neighbour(g.n);
    m := JInt(n);
  }

  /** Otherwise some list is found that lacks what an element of the document asks for. */
  lemma ContainsAllWrong(d: Dialect, kind: Kind, fs: seq<Json>, rt: Runtime) returns (es: seq<Json>)
    requires Described(d, kind) && Prints(rt) && AllAccepted(d, kind, fs, rt)
    requires !AnyUnmatched(d, kind, fs, rt) && !AllOwn(d, kind, fs, rt)
    ensures ColumnOf(kind, es) && FindsAll(d, kind, es, fs, rt)
    ensures !(Elems(AllAsked(d, kind, fs, rt)) <= Elems(es))
  {
    var k :| 0 <= k < |fs| && !Own(d, kind, fs[k], rt);
    es := AvoidAll(d, kind, fs, k, rt);
    AllIn(es, AllAsked(d, kind, fs, rt));
  }

  lemma {:induction false} AvoidAll(d: Dialect, kind: Kind, fs: seq<Json>, k: nat, rt: Runtime) returns (es: seq<Json>)
    requires Described(d, kind) && Prints(rt) && AllAccepted(d, kind, fs, rt)
    requires !AnyUnmatched(d, kind, fs, rt) && k < |fs| && !Own(d, kind, fs[k], rt)
    ensures AskedFor(d, kind, fs[k], rt) !in es && ColumnOf(kind, es) && FindsAll(d, kind, es, fs, rt)
  {
    es := [];
    assert Accepted(d, kind, fs[k], rt) && !Unmatched(d, kind, fs[k], rt);
    while |es| < |fs|
      invariant |es| <= |fs| && AskedFor(d, kind, fs[k], rt) !in es && TakenOneByOne(d, kind, es, fs, rt)
    {
      assert Accepted(d, kind, fs[|es|], rt) && !Unmatched(d, kind, fs[|es|], rt);
      var m := Avoid(d, kind, fs[|es|], fs[k], rt);
      OneMoreTaken(d, kind, es, fs, m, rt);
      es := es + [m];
    }
    TakenAreFound(d, kind, es, fs, rt);
  }

  ghost predicate TakenOneByOne(d: Dialect, kind: Kind, es: seq<Json>, fs: seq<Json>, rt: Runtime) {
    |es| <= |fs| && forall j :: 0 <= j < |es| ==> TakenFor(d, kind, es[j], fs[j], rt)
  }

  lemma OneMoreTaken(d: Dialect, kind: Kind, es: seq<Json>, fs: seq<Json>, m: Json, rt: Runtime)
    requires TakenOneByOne(d, kind, es, fs, rt) && |es| < |fs| && TakenFor(d, kind, m, fs[|es|], rt)
    ensures TakenOneByOne(d, kind, es + [m], fs, rt)
  {
  }

  lemma TakenAreFound(d: Dialect, kind: Kind, es: seq<Json>, fs: seq<Json>, rt: Runtime)
    requires TakenOneByOne(d, kind, es, fs, rt) && |es| == |fs|
    ensures ColumnOf(kind, es) && FindsAll(d, kind, es, fs, rt)
  {
    forall j | 0 <= j < |fs|
      ensures ElementOf(kind, es[j]) && Found(d, kind, es, fs[j], rt)
    {
      assert TakenFor(d, kind, es[j], fs[j], rt);
      TakenIsElement(d, kind, es[j], fs[j], rt);
    }
  }

  // ---------- Every operator, every dialect ----------

  /** The elements of the array argument have been accepted. */
  lemma ArrayAccepted(d: Dialect, field: FieldDesc, op: Op, value: string, rt: Runtime)
    requires field.IsList() && Described(d, field.kind) && Where2Condition(d, field, op, value, rt).Ok?
    requires (op == Overlap || op == ContainsAll) && ArrayFor(d, op, rt.jsonDoc(value))
    ensures AllAccepted(d, field.kind, rt.jsonDoc(value).value.elems, rt)
  {
    if d == Postgres {
      var xs, js := PgArgument(field.kind, op, value, rt);
      forall j | 0 <= j < |js|
        ensures Accepted(d, field.kind, js[j], rt)
      {
        assert ReadAs(field.kind, js[j], xs[j], rt);
      }
    }
  }

  /** A text that is accepted names a number of 64 bits. */
  lemma NamedFits(value: string, n: int, rt: Runtime)
    requires ParseScalarString(Uint64Kind, value, rt).Some? && Names(Uint64Kind, value, JInt(n))
    ensures 0 <= n < TWO64
  {
    var m := IntegerReadable(Uint64Kind, value, rt);
    NumeralUnique(Trim(value), m, n);
  }

  lemma ContainsFinds(d: Dialect, kind: Kind, es: seq<Json>, value: string)
    requires ColumnOf(kind, es) && (d == Postgres || NoBigNumber(kind, value))
    ensures (exists i :: 0 <= i < |es| && NamesHere(d, kind, value, es[i]))
       <==> exists i :: 0 <= i < |es| && Names(kind, value, es[i])
  {
    forall i | 0 <= i < |es|
      ensures NamesHere(d, kind, value, es[i]) <==> Names(kind, value, es[i])
    {
    }
  }

  /** A right request finds what it asks for. */
  lemma FindsAsked(d: Dialect, field: FieldDesc, op: Op, value: string, es: seq<Json>, rt: Runtime)
    requires field.IsList() && Described(d, field.kind) && Prints(rt) && ColumnOf(field.kind, es)
    requires Where2Condition(d, field, op, value, rt).Ok? && ArrayFor(d, op, rt.jsonDoc(value))
    requires Right(d, field.kind, op, value, rt.jsonDoc(value), rt)
    ensures Finds(d, op, field.kind, es, value, rt.jsonDoc(value), rt)
       <==> AsksOfList(d, op, field.kind, es, value, rt.jsonDoc(value), rt)
  {
    if op == Contains {
      ContainsFinds(d, field.kind, es, value);
    } else if op == Overlap {
      ArrayAccepted(d, field, op, value, rt);
      OverlapRight(d, field.kind, es, rt.jsonDoc(value).value.elems, rt);
    } else if op == ContainsAll {
      ArrayAccepted(d, field, op, value, rt);
      ContainsAllRight(d, field.kind, es, rt.jsonDoc(value).value.elems, rt);
    }
  }

  /** A request that is not right finds something else in some list. */
  lemma FindsAnother(d: Dialect, field: FieldDesc, op: Op, value: string, rt: Runtime) returns (es: seq<Json>)
    requires field.IsList() && Described(d, field.kind) && Prints(rt)
    requires Where2Condition(d, field, op, value, rt).Ok? && ArrayFor(d, op, rt.jsonDoc(value))
    requires !Right(d, field.kind, op, value, rt.jsonDoc(value), rt)
    ensures ColumnOf(field.kind, es)
    ensures Finds(d, op, field.kind, es, value, rt.jsonDoc(value), rt)
       <==> !AsksOfList(d, op, field.kind, es, value, rt.jsonDoc(value), rt)
  {
    if op == Contains {
      var n :| Names(field.kind, value, JInt(n)) && n >= TWO63;
      NamedFits(value, n, rt);
      es := [JInt(n)];
      assert Names(field.kind, value, es[0]);
    } else if op == Overlap {
      ArrayAccepted(d, field, op, value, rt);
      es := OverlapWrong(d, field.kind, rt.jsonDoc(value).value.elems, rt);
    } else {
      ArrayAccepted(d, field, op, value, rt);
      es := ContainsAllWrong(d, field.kind, rt.jsonDoc(value).value.elems, rt);
    }
  }

  /** The emitted condition holds of a stored list exactly when the list is as the operator asks. */
  ghost predicate RightFor(d: Dialect, field: FieldDesc, op: Op, value: string, vs: seq<GoVal>, rt: Runtime)
    requires Where2Condition(d, field, op, value, rt).Ok?
  {
    ListHolds(d, field.kind, Where2Condition(d, field, op, value, rt).value, vs, rt.jsonDoc(value), rt)
    <==> AsksOfList(d, op, field.kind, ListCodec.JsonsOf(vs), value, rt.jsonDoc(value), rt)
  }

  /** On every dialect a right request asks of a stored list what the operator means. */
  lemma ListConditionMeans(d: Dialect, field: FieldDesc, op: Op, value: string, vs: seq<GoVal>, rt: Runtime)
    requires field.IsList() && Described(d, field.kind) && ListCodec.ListOfKind(field.kind, vs) && Prints(rt)
    requires Where2Condition(d, field, op, value, rt).Ok? && ArrayFor(d, op, rt.jsonDoc(value))
    requires Right(d, field.kind, op, value, rt.jsonDoc(value), rt)
    ensures RightFor(d, field, op, value, vs, rt)
  {
    ListIsColumn(field.kind, vs);
    ListConditionFinds(d, field, op, value, vs, rt);
    FindsAsked(d, field, op, value, ListCodec.JsonsOf(vs), rt);
  }

  lemma ColumnIsList(kind: Kind, es: seq<Json>) returns (vs: seq<GoVal>)
    requires PlainKind(kind) && ColumnOf(kind, es)
    ensures ListCodec.ListOfKind(kind, vs) && ListCodec.JsonsOf(vs) == es
  {
    vs := seq(|es|, i requires 0 <= i < |es| => ValueOf(kind, es[i]));
  }

  /** The emitted condition is right for every list of the field's kind. */
  ghost predicate AlwaysRight(d: Dialect, field: FieldDesc, op: Op, value: string, rt: Runtime)
    requires Where2Condition(d, field, op, value, rt).Ok?
  {
    forall vs {:trigger ListCodec.ListOfKind(field.kind, vs)} ::
      ListCodec.ListOfKind(field.kind, vs) ==> RightFor(d, field, op, value, vs, rt)
  }

  lemma WrongForSome(d: Dialect, field: FieldDesc, op: Op, value: string, rt: Runtime) returns (vs: seq<GoVal>)
    requires field.IsList() && Described(d, field.kind) && Prints(rt)
    requires Where2Condition(d, field, op, value, rt).Ok? && ArrayFor(d, op, rt.jsonDoc(value))
    requires !Right(d, field.kind, op, value, rt.jsonDoc(value), rt)
    ensures ListCodec.ListOfKind(field.kind, vs) && !RightFor(d, field, op, value, vs, rt)
  {
    var es := FindsAnother(d, field, op, value, rt);
    vs := ColumnIsList(field.kind, es);
    ListConditionFinds(d, field, op, value, vs, rt);
  }

  /** An accepted condition is right for every list of its kind exactly when the request is right,
      which can be read off its value text: for CONTAINS, no unsigned number from 2^63 on is named on
      SQLite and MySQL; for OVERLAP, every stand-in of the array is asked for by it; for CONTAINS_ALL,
      no element has a stand-in but what it asks for, or one of them has none at all. */
  lemma RightIff(d: Dialect, field: FieldDesc, op: Op, value: string, rt: Runtime)
    requires field.IsList() && Described(d, field.kind) && Prints(rt)
    requires Where2Condition(d, field, op, value, rt).Ok? && ArrayFor(d, op, rt.jsonDoc(value))
    ensures AlwaysRight(d, field, op, value, rt) <==> Right(d, field.kind, op, value, rt.jsonDoc(value), rt)
  {
    if Right(d, field.kind, op, value, rt.jsonDoc(value), rt) {
      forall vs {:trigger ListCodec.ListOfKind(field.kind, vs)} | ListCodec.ListOfKind(field.kind, vs)
        ensures RightFor(d, field, op, value, vs, rt)
      {
        ListConditionMeans(d, field, op, value, vs, rt);
      }
    } else {
      var vs := WrongForSome(d, field, op, value, rt);
    }
  }

  // ---------- What the condition comes to ----------

  /** An array that PostgreSQL accepts for a list of integers is right, quoted numbers included. */
  lemma PgIntegersRight(field: FieldDesc, op: Op, value: string, rt: Runtime)
    requires field.IsList() && NumberKind(field.kind) && Prints(rt) && (op == Overlap || op == ContainsAll)
    requires Where2Condition(Postgres, field, op, value, rt).Ok? && ArrayFor(Postgres, op, rt.jsonDoc(value))
    ensures Right(Postgres, field.kind, op, value, rt.jsonDoc(value), rt)
  {
    var fs := rt.jsonDoc(value).value.elems;
    ArrayAccepted(Postgres, field, op, value, rt);
    forall j | 0 <= j < |fs|
      ensures fs[j] != JNull
      ensures Standing(Postgres, field.kind, fs[j], rt).Some? ==>
                Standing(Postgres, field.kind, fs[j], rt).value == AskedFor(Postgres, field.kind, fs[j], rt)
    {
      NullIsRefused(field.kind, fs[j], rt);
    }
    assert forall j :: 0 <= j < |fs| ==>
        AllAsked(Postgres, field.kind, fs, rt)[j] in AllAsked(Postgres, field.kind, fs, rt);
  }

  lemma NullIsRefused(kind: Kind, f: Json, rt: Runtime)
    requires NumberKind(kind) && Prints(rt) && Accepted(Postgres, kind, f, rt)
    ensures f != JNull
  {
    var v := ElementReadable(kind, f, rt);
  }

  /** What null gives in an array argument of PostgreSQL. */
  function ZeroOf(kind: Kind): Json {
    if kind == BoolKind then JBool(false) else JStr("")
  }

  lemma PgElementStands(kind: Kind, f: Json, rt: Runtime)
    requires (kind == BoolKind || kind == StringKind) && Accepted(Postgres, kind, f, rt)
    ensures AskedFor(Postgres, kind, f, rt) == f
    ensures Standing(Postgres, kind, f, rt) == Some(if f == JNull then ZeroOf(kind) else f)
  {
  }

  /** For a list of texts or booleans it is right exactly without null, or, for OVERLAP, with the
      zero value that null is read as. */
  lemma PgNullIff(field: FieldDesc, op: Op, value: string, rt: Runtime)
    requires field.IsList() && (field.kind == BoolKind || field.kind == StringKind)
             && (op == Overlap || op == ContainsAll)
    requires Where2Condition(Postgres, field, op, value, rt).Ok? && ArrayFor(Postgres, op, rt.jsonDoc(value))
    ensures var fs := rt.jsonDoc(value).value.elems;
            Right(Postgres, field.kind, op, value, rt.jsonDoc(value), rt)
            <==> JNull !in fs || (op == Overlap && ZeroOf(field.kind) in fs)
  {
    var fs := rt.jsonDoc(value).value.elems;
    ArrayAccepted(Postgres, field, op, value, rt);
    forall j | 0 <= j < |fs|
      ensures AskedFor(Postgres, field.kind, fs[j], rt) == fs[j]
      ensures Standing(Postgres, field.kind, fs[j], rt) == Some(if fs[j] == JNull then ZeroOf(field.kind) else fs[j])
    {
      PgElementStands(field.kind, fs[j], rt);
    }
    assert AllAsked(Postgres, field.kind, fs, rt) == fs;
  }

  /** A JSON number within int64, or one with a fraction or an exponent. */
  predicate PlainNumber(f: Json) {
    match f
    case JInt(n) => InInt64(n)
    case JReal(_) => true
    case _ => false
  }

  lemma PlainNumberIsOwn(kind: Kind, f: Json, rt: Runtime)
    requires NumberKind(kind) && kind != Uint64Kind && PlainNumber(f)
    ensures Own(SQLite, kind, f, rt)
  {
  }

  /** On SQLite an array of numbers is right for a list of integers of any kind but uint64. */
  lemma LiteNumbersRight(kind: Kind, op: Op, value: string, fs: seq<Json>, rt: Runtime)
    requires NumberKind(kind) && kind != Uint64Kind && (op == Overlap || op == ContainsAll)
    requires rt.jsonDoc(value) == Some(JArr(fs)) && forall j :: 0 <= j < |fs| ==> PlainNumber(fs[j])
    ensures Right(SQLite, kind, op, value, rt.jsonDoc(value), rt)
  {
    forall j | 0 <= j < |fs|
      ensures Own(SQLite, kind, fs[j], rt) && AllAsked(SQLite, kind, fs, rt)[j] in AllAsked(SQLite, kind, fs, rt)
    {
      PlainNumberIsOwn(kind, fs[j], rt);
    }
  }

  // ---------- Maps on SQLite ----------

  /** The request about a map is right: some member is taken for by nothing, or each by itself alone. */
  ghost predicate MapRight(kind: Kind, op: Op, doc: Option<Json>, rt: Runtime) {
    op == Contains ==>
      && doc.Some? && doc.value.JObj?
      && var g := doc.value.members;
         (exists k :: k in g && Unmatched(SQLite, kind, g[k], rt))
           || (forall k :: k in g ==> Own(SQLite, kind, g[k], rt))
  }

  ghost predicate MapRightFor(field: FieldDesc, op: Op, value: string, m: map<string, Json>, rt: Runtime)
    requires Where2Condition(SQLite, field, op, value, rt).Ok?
  {
    var p := Where2Condition(SQLite, field, op, value, rt).value;
    LiteHolds(p.shape, JObj(m), p.arg, DocOf(rt.jsonDoc(value)), rt)
    <==> AsksOfMap(op, field.kind, m, value, rt.jsonDoc(value), rt)
  }

  lemma MemberAsked(kind: Kind, m: map<string, Json>, k: string, f: Json, rt: Runtime)
    requires PlainKind(kind) && Prints(rt) && MembersOf(kind, m)
    ensures k in m && m[k] == AskedFor(SQLite, kind, f, rt) ==> MemberFound(kind, m, k, f, rt)
    ensures MemberFound(kind, m, k, f, rt) ==> !Unmatched(SQLite, kind, f, rt)
    ensures MemberFound(kind, m, k, f, rt) && Own(SQLite, kind, f, rt) ==> m[k] == AskedFor(SQLite, kind, f, rt)
  {
    if k in m {
      TakenIff(SQLite, kind, m[k], f, rt);
      if m[k] == AskedFor(SQLite, kind, f, rt) {
        AskedIsTaken(SQLite, kind, f, rt);
      }
    }
  }

  lemma MapFindsAsked(kind: Kind, m: map<string, Json>, g: map<string, Json>, rt: Runtime)
    requires PlainKind(kind) && Prints(rt) && MembersOf(kind, m)
    requires (exists k :: k in g && Unmatched(SQLite, kind, g[k], rt))
             || (forall k :: k in g ==> Own(SQLite, kind, g[k], rt))
    ensures (forall k :: k in g ==> MemberFound(kind, m, k, g[k], rt))
            <==> (forall k :: k in g ==> k in m && m[k] == AskedFor(SQLite, kind, g[k], rt))
  {
    forall k | k in g
      ensures k in m && m[k] == AskedFor(SQLite, kind, g[k], rt) ==> MemberFound(kind, m, k, g[k], rt)
      ensures MemberFound(kind, m, k, g[k], rt) ==> !Unmatched(SQLite, kind, g[k], rt)
      ensures MemberFound(kind, m, k, g[k], rt) && Own(SQLite, kind, g[k], rt) ==>
                m[k] == AskedFor(SQLite, kind, g[k], rt)
    {
      MemberAsked(kind, m, k, g[k], rt);
    }
  }

  /** On SQLite a right request asks of a stored map what the operator means. */
  lemma MapConditionMeans(field: FieldDesc, op: Op, value: string, m: map<string, Json>, rt: Runtime)
    requires field.IsMap() && PlainKind(field.kind) && Prints(rt) && Where2Condition(SQLite, field, op, value, rt).Ok?
    requires MembersOf(field.kind, m) && MapRight(field.kind, op, rt.jsonDoc(value), rt)
    ensures MapRightFor(field, op, value, m, rt)
  {
    MapConditionFinds(field, op, value, m, rt);
    if op == Contains {
      MapFindsAsked(field.kind, m, rt.jsonDoc(value).value.members, rt);
    }
  }

  ghost predicate MapAlwaysRight(field: FieldDesc, op: Op, value: string, rt: Runtime)
    requires Where2Condition(SQLite, field, op, value, rt).Ok?
  {
    forall m {:trigger MembersOf(field.kind, m)} :: MembersOf(field.kind, m) ==> MapRightFor(field, op, value, m, rt)
  }

  /** Otherwise some map is found that lacks what a member of the document asks for. */
  lemma MapFindsAnother(kind: Kind, g: map<string, Json>, rt: Runtime) returns (m: map<string, Json>)
    requires PlainKind(kind) && Prints(rt)
    requires !(exists k :: k in g && Unmatched(SQLite, kind, g[k], rt))
    requires !(forall k :: k in g ==> Own(SQLite, kind, g[k], rt))
    ensures MembersOf(kind, m) && (forall k :: k in g ==> MemberFound(kind, m, k, g[k], rt))
    ensures !(forall k :: k in g ==> k in m && m[k] == AskedFor(SQLite, kind, g[k], rt))
  {
    var c :| c in g && !Own(SQLite, kind, g[c], rt);
    var e := Avoid(SQLite, kind, g[c], g[c], rt);
    forall k | k in g
      ensures Standing(SQLite, kind, g[k], rt).Some?
    {
      assert !Unmatched(SQLite, kind, g[k], rt);
    }
    m := map k | k in g :: if k == c then e else Standing(SQLite, kind, g[k], rt).value;
    forall k | k in g
      ensures ElementOf(kind, m[k]) && MemberFound(kind, m, k, g[k], rt)
    {
      StandingIsTaken(SQLite, kind, g[k], rt);
      TakenIsElement(SQLite, kind, m[k], g[k], rt);
    }
  }

  /** An accepted condition on a map is right for every map of its kind exactly when the request is
      right. */
  lemma MapRightIff(field: FieldDesc, op: Op, value: string, rt: Runtime)
    requires field.IsMap() && PlainKind(field.kind) && Prints(rt) && Where2Condition(SQLite, field, op, value, rt).Ok?
    requires ObjectFor(op, rt.jsonDoc(value))
    ensures MapAlwaysRight(field, op, value, rt) <==> MapRight(field.kind, op, rt.jsonDoc(value), rt)
  {
    if MapRight(field.kind, op, rt.jsonDoc(value), rt) {
      forall m {:trigger MembersOf(field.kind, m)} | MembersOf(field.kind, m)
        ensures MapRightFor(field, op, value, m, rt)
      {
        MapConditionMeans(field, op, value, m, rt);
      }
    } else {
      var m := MapFindsAnother(field.kind, rt.jsonDoc(value).value.members, rt);
      MapConditionFinds(field, op, value, m, rt);
    }
  }
}
