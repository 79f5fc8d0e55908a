/** Lists on the decoding side (crud/dbscan.go), and the list round trips. */
module ListCodec {
  import opened Prelude
  import opened Sqldb
  import opened Text
  import opened Message
  import opened Codec
  import Float64
  import PgArray

  function AnysOfJson(es: seq<Json>, rt: Runtime): (r: seq<Any>)
    ensures |r| == |es| && forall i :: 0 <= i < |es| ==> r[i] == AnyOf(es[i], false, rt)
  {
    seq(|es|, i requires 0 <= i < |es| => AnyOf(es[i], false, rt))
  }

  function AnysOfText(es: seq<string>): (r: seq<Any>)
    ensures |r| == |es| && forall i :: 0 <= i < |es| ==> r[i] == AText(es[i])
  {
    seq(|es|, i requires 0 <= i < |es| => AText(es[i]))
  }

  /** The elements a scalar list column holds, before they are converted: JSON text gives numbers
      as binary64, a PostgreSQL array literal gives texts. */
  function ElementsOfText(s: string, rt: Runtime): Option<seq<Any>> {
    var ss := Trim(s);
    if ss == "" then Some([])
    else if "[" <= ss then
      var arr := rt.jsonArray(ss);
      if arr.Some? then Some(AnysOfJson(arr.value, rt)) else None
    else if "{" <= ss then
      var es := PgArray.Parse(ss);
      if es.Some? then Some(AnysOfText(es.value)) else None
    else None
  }

  function ElementsOf(v: Scanned, rt: Runtime): Option<seq<Any>> {
    match v
    case SNull => Some([])
    case SText(s) => ElementsOfText(s, rt)
    case SJson(j) => if j.JArr? then Some(AnysOfJson(j.elems, rt)) else ElementsOfText(rt.jsonText(j), rt)
    case SSlice(es) => Some(es)
    case SOther => None
  }

  ghost predicate AllDecode(kind: Kind, items: seq<Any>, rt: Runtime) {
    forall i :: 0 <= i < |items| ==> DecodeScalar(kind, items[i], rt).Some?
  }

  ghost function Decoded(kind: Kind, items: seq<Any>, rt: Runtime): (r: seq<GoVal>)
    requires AllDecode(kind, items, rt)
    ensures |r| == |items| && forall i :: 0 <= i < |items| ==> DecodeScalar(kind, items[i], rt) == Some(r[i])
  {
    seq(|items|, i requires 0 <= i < |items| => DecodeScalar(kind, items[i], rt).value)
  }

  /** The elements before the first one that cannot be converted. */
  ghost predicate DecodedPrefix(kind: Kind, items: seq<Any>, elems: seq<GoVal>, rt: Runtime) {
    && |elems| < |items| && DecodeScalar(kind, items[|elems|], rt).None?
    && AllDecode(kind, items[..|elems|], rt) && elems == Decoded(kind, items[..|elems|], rt)
  }

  class ListField {
    var elems: seq<GoVal>

    /** setProtoMsgListField for scalar elements: the old elements are dropped first; if an
        element cannot be converted, those before it stay. */
    method Set(kind: Kind, v: Scanned, rt: Runtime) returns (ok: bool)
      requires kind != MessageKind
      modifies this
      ensures ok <==> ElementsOf(v, rt).Some? && AllDecode(kind, ElementsOf(v, rt).value, rt)
      ensures ok ==> elems == Decoded(kind, ElementsOf(v, rt).value, rt)
      ensures !ok ==> if ElementsOf(v, rt).None? then elems == []
              else DecodedPrefix(kind, ElementsOf(v, rt).value, elems, rt)
    {
      elems := [];
      match v
      case SNull =>
        ok := true;
      case SText(s) =>
        ok := AppendFromText(kind, s, rt);
      case SJson(j) =>
        if j.JArr? {
          ok := AppendAll(kind, AnysOfJson(j.elems, rt), rt);
        } else {
          ok := AppendFromText(kind, rt.jsonText(j), rt);
        }
      case SSlice(es) =>
        ok := AppendAll(kind, es, rt);
      case SOther =>
        ok := false;
    }

    /** appendScalarListFromEncodedString. */
    method AppendFromText(kind: Kind, s: string, rt: Runtime) returns (ok: bool)
      requires elems == []
      modifies this
      ensures ok <==> ElementsOfText(s, rt).Some? && AllDecode(kind, ElementsOfText(s, rt).value, rt)
      ensures ok ==> elems == Decoded(kind, ElementsOfText(s, rt).value, rt)
      ensures !ok ==> if ElementsOfText(s, rt).None? then elems == []
              else DecodedPrefix(kind, ElementsOfText(s, rt).value, elems, rt)
    {
      var ss := Trim(s);
      if ss == "" {
        return true;
      }
      if "[" <= ss {
        var arr := rt.jsonArray(ss);
        if arr.None? {
          return false;
        }
        ok := AppendAll(kind, AnysOfJson(arr.value, rt), rt);
        return;
      }
      if "{" <= ss {
        var es := PgArray.ParsePGArrayLiteral(ss);
        if es.None? {
          return false;
        }
        ok := AppendAll(kind, AnysOfText(es.value), rt);
        return;
      }
      ok := false;
    }

    method AppendAll(kind: Kind, items: seq<Any>, rt: Runtime) returns (ok: bool)
      requires elems == []
      modifies this
      ensures ok <==> AllDecode(kind, items, rt)
      ensures ok ==> elems == Decoded(kind, items, rt)
      ensures !ok ==> DecodedPrefix(kind, items, elems, rt)
    {
      var i := 0;
      while i < |items|
        invariant 0 <= i <= |items| && |elems| == i
        invariant forall j :: 0 <= j < i ==> DecodeScalar(kind, items[j], rt) == Some(elems[j])
      {
        var pv := DecodeScalar(kind, items[i], rt);
        if pv.None? {
          assert elems == Decoded(kind, items[..i], rt);
          return false;
        }
        elems := elems + [pv.value];
        i := i + 1;
      }
      ok := true;
    }
  }

  // ---------- Round trips ----------

  /** The list of scalars a field of the kind holds, enum values by their numbers. */
  predicate ListOfKind(kind: Kind, vs: seq<GoVal>) {
    kind != MessageKind && forall i :: 0 <= i < |vs| ==> ValueOfKind(kind, vs[i])
  }

  /** How PostgreSQL prints an element of an array that was stored from a list element. */
  function PgElement(v: GoVal): string {
    match v
    case Bool(b) => if b then "t" else "f"
    case Int(n) => Itoa(n)
    case Str(s) => s
    case _ => ""
  }

  function PgElements(vs: seq<GoVal>): (r: seq<string>)
    ensures |r| == |vs| && forall i :: 0 <= i < |vs| ==> r[i] == PgElement(vs[i])
  {
    seq(|vs|, i requires 0 <= i < |vs| => PgElement(vs[i]))
  }

  /** The array text PostgreSQL gives back for a stored list. */
  function PgText(stored: seq<GoVal>): string {
    PgArray.ArrayOut(PgArray.Strings(PgElements(stored)))
  }

  function StoredPg(kind: Kind, vs: seq<GoVal>): (r: seq<GoVal>)
    ensures |r| == |vs|
  {
    if kind in {Uint32Kind, Uint64Kind} then SignedAll(vs) else vs
  }

  lemma StoredPgIsEncoded(field: FieldDesc, vs: seq<GoVal>)
    requires field.IsList() && ListOfKind(field.kind, vs)
    ensures Encoded(field, Postgres, Slice(vs)) == Ok(Slice(StoredPg(field.kind, vs)))
  {
  }

  predicate PgSafe(v: GoVal) {
    v.Str? ==> PgArray.Stable(v.s)
  }

  lemma BoolFromPg(b: bool, rt: Runtime)
    ensures DecodeScalar(BoolKind, AText(PgArray.Normalize(PgElement(Bool(b)))), rt) == Some(Bool(b))
  {
    var s := PgElement(Bool(b));
    assert Trim(s) == s;
    LowerFixes(s);
  }

  lemma PgIntegerText(m: int)
    ensures PgArray.Normalize(PgElement(Int(m))) == Itoa(m)
  {
    PgArray.ItoaStable(m);
    PgArray.NormalizeFixes(Itoa(m));
  }

  /** What PostgreSQL holds for a value: an integer as the int64 with the same bits. */
  function PgValue(v: GoVal): GoVal {
    if v.Int? then Int(ToSigned64(v.n)) else v
  }

  lemma PgValueStored(kind: Kind, vs: seq<GoVal>, i: nat)
    requires ListOfKind(kind, vs) && i < |vs|
    ensures StoredPg(kind, vs)[i] == PgValue(vs[i])
  {
  }

  lemma PgValueRoundTrip(kind: Kind, v: GoVal, rt: Runtime)
    requires ValueOfKind(kind, v) && kind != BytesKind && kind != MessageKind
    ensures var w := DecodeScalar(kind, AText(PgArray.Normalize(PgElement(PgValue(v)))), rt);
            w.Some? && (w.value == v <==> PgSafe(v))
  {
    match v
    case Bool(b) =>
      BoolFromPg(b, rt);
    case Str(s) =>
      PgArray.NormalizeFixes(s);
    case Int(n) =>
      PgIntegerText(ToSigned64(n));
      IntegerFromText(kind, n, AText(Itoa(ToSigned64(n))), rt);
  }

  ghost predicate ComesBackAs(kind: Kind, v: Scanned, vs: seq<GoVal>, rt: Runtime) {
    var items := ElementsOf(v, rt);
    items.Some? && AllDecode(kind, items.value, rt) && Decoded(kind, items.value, rt) == vs
  }

  lemma PgTextElements(stored: seq<GoVal>, rt: Runtime)
    ensures ElementsOf(SText(PgText(stored)), rt) == Some(AnysOfText(PgArray.NormalizeAll(PgElements(stored))))
  {
    var s := PgText(stored);
    assert Trim(s) == s;
    assert "{" <= s && !("[" <= s);
    PgArray.ParseArrayOut(PgArray.Strings(PgElements(stored)));
    assert PgArray.Contents(PgArray.Strings(PgElements(stored))) == PgElements(stored);
  }

  /** PostgreSQL: every list of booleans or integers comes back unchanged, unsigned values at or
      above 2^63 included; a list of strings comes back unchanged exactly when no element has
      outer whitespace or spells NULL. */
  lemma PgListRoundTrip(kind: Kind, vs: seq<GoVal>, rt: Runtime)
    requires ListOfKind(kind, vs) && kind != BytesKind
    ensures ComesBackAs(kind, SText(PgText(StoredPg(kind, vs))), vs, rt)
            <==> forall i :: 0 <= i < |vs| ==> PgSafe(vs[i])
  {
    var stored := StoredPg(kind, vs);
    var items := AnysOfText(PgArray.NormalizeAll(PgElements(stored)));
    PgTextElements(stored, rt);
    forall i | 0 <= i < |vs|
      ensures DecodeScalar(kind, items[i], rt).Some?
      ensures DecodeScalar(kind, items[i], rt) == Some(vs[i]) <==> PgSafe(vs[i])
    {
      PgValueStored(kind, vs, i);
      PgValueRoundTrip(kind, vs[i], rt);
    }
    DecodedIs(kind, items, vs, rt);
  }

  lemma DecodedIs(kind: Kind, items: seq<Any>, vs: seq<GoVal>, rt: Runtime)
    requires AllDecode(kind, items, rt) && |items| == |vs|
    ensures Decoded(kind, items, rt) == vs
            <==> forall i :: 0 <= i < |vs| ==> DecodeScalar(kind, items[i], rt) == Some(vs[i])
  {
  }

  // ---------- MySQL and SQLite lists ----------

  function JsonsOf(vs: seq<GoVal>): (r: seq<Json>)
    ensures |r| == |vs| && forall i :: 0 <= i < |vs| ==> r[i] == JsonOf(vs[i])
  {
    seq(|vs|, i requires 0 <= i < |vs| => JsonOf(vs[i]))
  }

  lemma JsonListIsEncoded(field: FieldDesc, d: Dialect, vs: seq<GoVal>)
    requires field.IsList() && field.kind != MessageKind && (d == SQLite || d == Mysql)
    ensures Encoded(field, d, Slice(vs)) == Ok(JsonText(JArr(JsonsOf(vs))))
  {
    assert JsonOf(Slice(vs)) == JArr(JsonsOf(vs));
  }

  /** An integer that binary64 holds exactly. */
  ghost predicate JsonSafe(v: GoVal) {
    v.Int? ==> Float64.Representable(v.n)
  }

  /** Go specifies the conversion of the rounded number to int64. */
  predicate Convertible(v: GoVal) {
    v.Int? ==> -TWO63 <= Float64.Round(v.n) < TWO63
  }

  /** Casting a rounded integer back gives the integer itself only if rounding left it alone. */
  lemma CastRounded(kind: Kind, n: int, x: int)
    requires NumberKind(kind) && InKind(kind, n) && -TWO63 <= x < TWO63
    requires -TWO32 <= n < TWO32 ==> x == n
    requires n >= 0 ==> x >= 0
    ensures CastTo(kind, x) == n <==> x == n
  {
    if x == n {
      CastBack(kind, n);
    }
  }

  lemma JsonIntegerRoundTrip(kind: Kind, n: int, rt: Runtime)
    requires NumberKind(kind) && InKind(kind, n) && Faithful(rt) && -TWO63 <= Float64.Round(n) < TWO63
    ensures var r := DecodeScalar(kind, AFloat(Float64.Round(n) as real), rt);
            r.Some? && (r.value == Int(n) <==> Float64.Representable(n))
  {
    var x := Float64.Round(n);
    assert rt.floatToInt64(x as real) == x;
    DecodeInteger(kind, AFloat(x as real), x, rt);
    Float64.RoundExact(n);
    if -TWO32 <= n < TWO32 {
      Float64.SmallIsExact(n);
    }
    CastRounded(kind, n, x);
  }

  lemma {:induction false} JsonElementRoundTrip(kind: Kind, v: GoVal, rt: Runtime)
    requires ValueOfKind(kind, v) && kind != MessageKind && Faithful(rt) && Convertible(v)
    ensures var r := DecodeScalar(kind, AnyOf(JsonOf(v), false, rt), rt);
            r.Some? && (r.value == v <==> JsonSafe(v))
  {
    if v.Int? {
      JsonIntegerRoundTrip(kind, v.n, rt);
    }
  }

  /** MySQL and SQLite: a list comes back unchanged exactly when binary64 holds every integer in
      it, because list elements are decoded through float64. */
  lemma JsonListRoundTrip(kind: Kind, vs: seq<GoVal>, rt: Runtime)
    requires ListOfKind(kind, vs) && Faithful(rt)
    requires forall i :: 0 <= i < |vs| ==> Convertible(vs[i])
    ensures ComesBackAs(kind, SJson(JArr(JsonsOf(vs))), vs, rt)
            <==> forall i :: 0 <= i < |vs| ==> JsonSafe(vs[i])
  {
    var items := AnysOfJson(JsonsOf(vs), rt);
    forall i | 0 <= i < |vs|
      ensures DecodeScalar(kind, items[i], rt).Some?
      ensures DecodeScalar(kind, items[i], rt) == Some(vs[i]) <==> JsonSafe(vs[i])
    {
      JsonElementRoundTrip(kind, vs[i], rt);
    }
    DecodedIs(kind, items, vs, rt);
  }

  /** Up to a magnitude of 2^53 nothing is lost; the next integer already is, in a list but not in a map. */
  lemma JsonListBound(kind: Kind, vs: seq<GoVal>, rt: Runtime)
    requires ListOfKind(kind, vs) && Faithful(rt)
    ensures (forall i :: 0 <= i < |vs| && vs[i].Int? ==> -Float64.TWO53 <= vs[i].n <= Float64.TWO53) ==>
              ComesBackAs(kind, SJson(JArr(JsonsOf(vs))), vs, rt)
    ensures !ComesBackAs(Int64Kind, SJson(JArr(JsonsOf([Int(Float64.TWO53 + 1)]))), [Int(Float64.TWO53 + 1)], rt)
    ensures DecodeMember(Int64Kind, JsonOf(Int(Float64.TWO53 + 1)), rt) == Some(Int(Float64.TWO53 + 1))
  {
    if forall i :: 0 <= i < |vs| && vs[i].Int? ==> -Float64.TWO53 <= vs[i].n <= Float64.TWO53 {
      forall i | 0 <= i < |vs|
        ensures Convertible(vs[i]) && JsonSafe(vs[i])
      {
        if vs[i].Int? {
          Float64.SmallIsExact(vs[i].n);
        }
      }
      JsonListRoundTrip(kind, vs, rt);
    }
    var n := Float64.TWO53 + 1;
    Float64.FirstInexact();
    Float64.RoundExact(n);
    assert !JsonSafe([Int(n)][0]);
    JsonListRoundTrip(Int64Kind, [Int(n)], rt);
    MemberRoundTrip(Int64Kind, Int(n), rt);
  }
}
